/**
  The transmit side over whole runs of the main loop: session calls, transmit pumps, stale drops and
  connection resets in any order. Every run is a run of `TxPump`, so the UART sees whole frames, and no
  client data from before a reset that had not been begun.
*/
module MainLoopRuns {
  import opened Bytes
  import opened LinkCodec
  import opened TxMux
  import opened LinkSession
  import opened LinkSessionRuns
  import opened TxRuns
  import opened TxPump
  import opened TxStale

  /** The session and `link_pending[..link_pending_len]` with `link_pending_pos`. */
  datatype Loop = Loop(session: LinkSession.Session, pending: seq<byte>, pos: nat) {
    ghost predicate Valid() {
      session.Valid() && pos <= |pending|
    }
  }

  /** What the main loop does, with the server's output and the UART's short writes as they come. */
  datatype Event =
    | Handle(call: Call)
    | Transmit(budget: nat, first: nat, second: nat, serverTx: seq<byte>)  // `pump_link_tx`
    | OutputReset                                                          // `drop_stale_link_tx_data`
    | ConnectionReset                                                      // `reset_connection_quiet`

  datatype Progress = Progress(loop: Loop, uart: seq<byte>)

  /** The session reads its rings out only through the pump. */
  predicate FromMain(event: Event) {
    event.Handle? ==> !event.call.ReadOut?
  }

  function PumpOf(l: Loop): Pump {
    Pump(l.session.mux, l.pending, l.pos)
  }

  function SetPump(l: Loop, p: Pump): Loop {
    Loop(l.session.(mux := p.mux), p.pending, p.pos)
  }

  /** The second half of `pump_link_tx`. */
  function QueueAndStage(l: Loop, budget: nat, cap: nat, second: nat, serverTx: seq<byte>): Progress
    requires l.session.Valid()
  {
    var s := QueueServerTx(l.session, serverTx).session;
    var r := Read(s.mux, cap);
    var e := WriteStaged(Pump(r.mux, r.bytes, 0), budget, second);
    Progress(SetPump(l.(session := s), e.pump), e.uart)
  }

  function LoopStep(l: Loop, event: Event, cap: nat): Progress
    requires l.Valid()
  {
    match event
    case Handle(call) => Progress(l.(session := Perform(l.session, call).session), [])
    case Transmit(budget, first, second, serverTx) =>
      if l.pos < |l.pending| then
        var e := WriteStaged(PumpOf(l), budget, first);
        var t := SetPump(l, e.pump);
        if e.pump.pending != [] || |e.uart| == budget then Progress(t, e.uart)
        else
          var more := QueueAndStage(t, budget - |e.uart|, cap, second, serverTx);
          Progress(more.loop, e.uart + more.uart)
      else QueueAndStage(l, budget, cap, second, serverTx)
    case OutputReset => Progress(SetPump(l, DropStaleData(PumpOf(l))), [])
    case ConnectionReset => Progress(SetPump(l.(session := l.session.(rx := [])), DropStaleData(PumpOf(l))), [])
  }

  lemma StageValid(l: Loop, budget: nat, cap: nat, second: nat, serverTx: seq<byte>)
    requires l.session.Valid()
    ensures QueueAndStage(l, budget, cap, second, serverTx).loop.Valid()
  {
    hide Read, QueueServerTx, WriteStaged;
    TakeIsPut(l.session, serverTx);
  }

  lemma StepValid(l: Loop, event: Event, cap: nat)
    requires l.Valid()
    ensures LoopStep(l, event, cap).loop.Valid()
  {
    hide QueueAndStage, WriteStaged, Perform, DropData, PendingIsData;
    if event.Transmit? {
      var Transmit(budget, first, second, serverTx) := event;
      StageValid(l, budget, cap, second, serverTx);
      if l.pos < |l.pending| {
        var e := WriteStaged(PumpOf(l), budget, first);
        StageValid(SetPump(l, e.pump), budget - |e.uart|, cap, second, serverTx);
      }
    }
  }

  // ----- as a run of the pump -----

  function Wrapped(ops: seq<Op>): seq<PumpOp> {
    if ops == [] then [] else [PumpOp.Session(ops[0])] + Wrapped(ops[1..])
  }

  function PumpOps(l: Loop, event: Event, cap: nat): seq<PumpOp>
    requires l.Valid()
  {
    match event
    case Handle(call) => Wrapped(Ops(l.session, call))
    case Transmit(budget, first, second, serverTx) =>
      [Tick(budget, cap, first, ServerPut(l.session, serverTx), second)]
    case OutputReset => [DropStale]
    case ConnectionReset => [DropStale]
  }

  /** What a session call queues and drops never includes client data on the control ring. */
  lemma OpsPermitted(s: LinkSession.Session, call: Call)
    requires s.Valid() && !call.ReadOut?
    ensures forall i :: 0 <= i < |Ops(s, call)| ==> Permitted(Ops(s, call)[i])
  {
    hide ReadyPayload, QueueFrame, HelloSession;
  }

  lemma {:induction false} WrappedRun(p: Pump, ops: seq<Op>)
    requires p.pos <= |p.pending|
    requires forall i :: 0 <= i < |ops| ==> Permitted(ops[i])
    ensures PumpRun(p, Wrapped(ops)) == Emission(p.(mux := Run(p.mux, ops).mux), [])
    ensures forall i :: 0 <= i < |Wrapped(ops)| ==> Admissible(Wrapped(ops)[i])
    decreases |ops|
  {
    hide Step;
    if ops != [] {
      WrappedRun(p.(mux := Step(p.mux, ops[0]).mux), ops[1..]);
      assert Wrapped(ops)[1..] == Wrapped(ops[1..]);
    }
  }

  lemma PumpRunOne(p: Pump, op: PumpOp)
    requires p.pos <= |p.pending|
    ensures PumpRun(p, [op]) == PumpStep(p, op)
  {
    hide PumpStep;
    PositionBounded(p, op);
    assert [op][1..] == [];
    assert PumpStep(p, op).uart + [] == PumpStep(p, op).uart;
  }

  lemma {:induction false} PumpRunAppend(p: Pump, a: seq<PumpOp>, b: seq<PumpOp>)
    requires p.pos <= |p.pending|
    ensures var x := PumpRun(p, a);
            && x.pump.pos <= |x.pump.pending|
            && var y := PumpRun(x.pump, b);
            PumpRun(p, a + b) == Emission(y.pump, x.uart + y.uart)
    decreases |a|
  {
    hide PumpStep;
    if a == [] {
      assert a + b == b;
      assert [] + PumpRun(p, b).uart == PumpRun(p, b).uart;
    } else {
      PositionBounded(p, a[0]);
      var first := PumpStep(p, a[0]);
      PumpRunAppend(first.pump, a[1..], b);
      assert (a + b)[1..] == a[1..] + b;
      var x := PumpRun(first.pump, a[1..]);
      Regroup(first.uart, x.uart, PumpRun(x.pump, b).uart);
    }
  }

  lemma StageIsPump(l: Loop, budget: nat, cap: nat, second: nat, serverTx: seq<byte>)
    requires l.session.Valid()
    ensures var r := QueueAndStage(l, budget, cap, second, serverTx);
            var put := ServerPut(l.session, serverTx);
            StageNext(PumpOf(l), budget, cap, put, second) == Emission(PumpOf(r.loop), r.uart)
  {
    hide Read, QueueServerTx, ServerPut, Step;
    TakeIsPut(l.session, serverTx);
  }

  lemma TransmitIsPump(l: Loop, event: Event, cap: nat)
    requires l.Valid() && event.Transmit?
    ensures var r := LoopStep(l, event, cap);
            PumpStep(PumpOf(l), PumpOps(l, event, cap)[0]) == Emission(PumpOf(r.loop), r.uart)
  {
    hide QueueAndStage, StageNext, ServerPut, WriteStaged;
    var Transmit(budget, first, second, serverTx) := event;
    var e := WriteStaged(PumpOf(l), budget, first);
    StageIsPump(l, budget, cap, second, serverTx);
    StageIsPump(SetPump(l, e.pump), budget - |e.uart|, cap, second, serverTx);
  }

  /** Every event is a run of the pump, within what `UartAtomicity` admits. */
  lemma StepIsPump(l: Loop, event: Event, cap: nat)
    requires l.Valid() && FromMain(event) && cap >= MAX_ENCODED_LEN
    ensures var r, ops := LoopStep(l, event, cap), PumpOps(l, event, cap);
            && PumpRun(PumpOf(l), ops) == Emission(PumpOf(r.loop), r.uart)
            && forall i :: 0 <= i < |ops| ==> Admissible(ops[i])
  {
    hide PumpRun, Run, Ops, PumpTx, DropStaleData, ServerPut, Perform;
    match event
    case Handle(call) =>
      OpsPermitted(l.session, call);
      CallIsRun(l.session, call);
      WrappedRun(PumpOf(l), Ops(l.session, call));
    case Transmit(budget, first, second, serverTx) =>
      TransmitIsPump(l, event, cap);
      PutPermitted(l.session, serverTx);
      PumpRunOne(PumpOf(l), PumpOps(l, event, cap)[0]);
    case OutputReset => PumpRunOne(PumpOf(l), DropStale);
    case ConnectionReset => PumpRunOne(PumpOf(l), DropStale);
  }

  lemma PutPermitted(s: LinkSession.Session, serverTx: seq<byte>)
    requires s.Valid()
    ensures ServerPut(s, serverTx).Some? ==> Permitted(ServerPut(s, serverTx).value)
  {
  }

  // ----- whole runs -----

  function LoopRun(l: Loop, events: seq<Event>, cap: nat): Progress
    requires l.Valid()
    decreases |events|
  {
    if events == [] then Progress(l, [])
    else
      StepValid(l, events[0], cap);
      var first := LoopStep(l, events[0], cap);
      var rest := LoopRun(first.loop, events[1..], cap);
      Progress(rest.loop, first.uart + rest.uart)
  }

  function AllPumpOps(l: Loop, events: seq<Event>, cap: nat): seq<PumpOp>
    requires l.Valid()
    decreases |events|
  {
    if events == [] then []
    else
      StepValid(l, events[0], cap);
      PumpOps(l, events[0], cap) + AllPumpOps(LoopStep(l, events[0], cap).loop, events[1..], cap)
  }

  lemma {:induction false} LoopIsPump(l: Loop, events: seq<Event>, cap: nat)
    requires l.Valid() && cap >= MAX_ENCODED_LEN
    requires forall i :: 0 <= i < |events| ==> FromMain(events[i])
    ensures var r, ops := LoopRun(l, events, cap), AllPumpOps(l, events, cap);
            && PumpRun(PumpOf(l), ops) == Emission(PumpOf(r.loop), r.uart)
            && forall i :: 0 <= i < |ops| ==> Admissible(ops[i])
    decreases |events|
  {
    hide PumpOps, LoopStep, FromMain, Admissible;
    if events != [] {
      hide PumpRun;
      StepValid(l, events[0], cap);
      StepIsPump(l, events[0], cap);
      var first := LoopStep(l, events[0], cap);
      LoopIsPump(first.loop, events[1..], cap);
      PumpRunAppend(PumpOf(l), PumpOps(l, events[0], cap), AllPumpOps(first.loop, events[1..], cap));
    }
  }

  const START := Loop(BOOTED, [], 0)

  /** Everything a run of the main loop asked of the multiplexer. */
  function MuxOpsOf(events: seq<Event>, cap: nat): seq<Op> {
    AllMuxOps(IDLE_PUMP, AllPumpOps(START, events, cap))
  }

  function AccountOf(events: seq<Event>, cap: nat): Account {
    AccountRun(IDLE_PUMP, NOTHING, AllPumpOps(START, events, cap))
  }

  /**
    Frame atomicity of the firmware's output. Whatever is received, consumed, failed and reset, in
    whatever order with the pumps, with any budgets and short writes and a staging buffer of at least
    512 bytes: the bytes on the UART are whole queued frames and at most one prefix, and a receiver's
    parser finds exactly those frames.
  */
  lemma MainLoopAtomicity(events: seq<Event>, cap: nat)
    requires cap >= MAX_ENCODED_LEN
    requires forall i :: 0 <= i < |events| ==> FromMain(events[i])
    ensures var r, b := LoopRun(START, events, cap), AccountOf(events, cap);
            FramesOnUart(r.uart, PumpOf(r.loop), b.sent, Staged(PumpOf(r.loop), b), MuxOpsOf(events, cap))
  {
    hide LoopRun, AllPumpOps, FramesOnUart, PumpRun, AccountRun, AllMuxOps, FromMain, Admissible;
    LoopIsPump(START, events, cap);
    UartAtomicity(AllPumpOps(START, events, cap));
  }

  // ----- nothing stale -----

  predicate IsReset(event: Event) {
    event.OutputReset? || event.ConnectionReset?
  }

  /** Either reset takes back a staged data frame that was not begun, and no other staged bytes. */
  lemma ResetDropsStaged(l: Loop, reset: Event, cap: nat, kind: byte, seqNo: u16, ack: u16, payload: seq<byte>)
    requires l.Valid() && IsReset(reset)
    requires |payload| <= MAX_PAYLOAD && l.pending == Wire(kind, seqNo, ack, payload)
    ensures var t := LoopStep(l, reset, cap).loop;
            && (l.pos == 0 && l.session.mux.active != Sending(Data) && kind == DATA_M2C ==>
                  t.pending == [] && t.pos == 0)
            && (l.pos > 0 || l.session.mux.active == Sending(Data) || kind != DATA_M2C ==>
                  t.pending == l.pending && t.pos == l.pos)
            && (l.session.mux.active != Sending(Data) ==> t.session.mux.data == [])
            && t.session.mux.control == l.session.mux.control
            && (reset.ConnectionReset? ==> t.session.rx == [])
  {
    hide DropStaleData, Wire;
    StagedDropped(PumpOf(l), kind, seqNo, ack, payload);
  }

  lemma {:induction false} LoopRunAppend(l: Loop, x: seq<Event>, y: seq<Event>, cap: nat)
    requires l.Valid()
    ensures var r := LoopRun(l, x, cap);
            && r.loop.Valid()
            && LoopRun(l, x + y, cap)
               == Progress(LoopRun(r.loop, y, cap).loop, r.uart + LoopRun(r.loop, y, cap).uart)
            && AllPumpOps(l, x + y, cap) == AllPumpOps(l, x, cap) + AllPumpOps(r.loop, y, cap)
    decreases |x|
  {
    hide LoopStep, PumpOps;
    if x == [] {
      assert x + y == y;
      assert [] + LoopRun(l, y, cap).uart == LoopRun(l, y, cap).uart;
      assert [] + AllPumpOps(l, y, cap) == AllPumpOps(l, y, cap);
    } else {
      StepValid(l, x[0], cap);
      var first := LoopStep(l, x[0], cap);
      LoopRunAppend(first.loop, x[1..], y, cap);
      assert (x + y)[1..] == x[1..] + y;
      var r := LoopRun(first.loop, x[1..], cap);
      Regroup(first.uart, r.uart, LoopRun(r.loop, y, cap).uart);
      Regroup(PumpOps(l, x[0], cap), AllPumpOps(first.loop, x[1..], cap), AllPumpOps(r.loop, y, cap));
    }
  }

  lemma ResetIsDrop(l: Loop, reset: Event, cap: nat)
    requires l.Valid() && IsReset(reset)
    ensures PumpOps(l, reset, cap) == [DropStale]
    ensures PumpOf(LoopStep(l, reset, cap).loop) == DropStaleData(PumpOf(l))
  {
    hide DropStaleData;
  }

  lemma ResetFirst(l: Loop, reset: Event, after: seq<Event>, cap: nat)
    requires l.Valid() && IsReset(reset)
    ensures LoopStep(l, reset, cap).loop.Valid()
    ensures AllPumpOps(l, [reset] + after, cap) == [DropStale] + AllPumpOps(LoopStep(l, reset, cap).loop, after, cap)
  {
    hide LoopStep, PumpOps;
    StepValid(l, reset, cap);
    ResetIsDrop(l, reset, cap);
    assert ([reset] + after)[1..] == after;
  }

  /**
    Nothing stale is sent. Over every run of the main loop with an output or connection reset in it: of
    the data frames that the UART gets to see, or that are staged, every one was either begun before
    that reset or queued after it.
  */
  lemma NothingStaleSent(before: seq<Event>, reset: Event, after: seq<Event>, cap: nat)
    requires cap >= MAX_ENCODED_LEN && IsReset(reset)
    requires forall i :: 0 <= i < |before| ==> FromMain(before[i])
    requires forall i :: 0 <= i < |after| ==> FromMain(after[i])
    ensures var q, all := LoopRun(START, before, cap), before + ([reset] + after);
            && q.loop.Valid()
            && var t, r := LoopStep(q.loop, reset, cap).loop, LoopRun(START, all, cap);
            && t.Valid()
            && q.uart <= r.uart
            && var begun, output :=
                 Begun(PumpOf(q.loop), AccountOf(before, cap)), Output(PumpOf(r.loop), AccountOf(all, cap));
            && begun <= output
            && Subsequence(FromQueue(output[|begun|..], Data),
                           Queued(t.session.mux, AllMuxOps(PumpOf(t), AllPumpOps(t, after, cap)), Data))
  {
    hide LoopRun, AllPumpOps, PumpRun, AccountRun, AllMuxOps, FromMain, Admissible, Subsequence, FromQueue, Queued,
         Begun, Output, LoopStep, DropStaleData;
    var q := LoopRun(START, before, cap);
    LoopRunAppend(START, before, [reset] + after, cap);
    ResetFirst(q.loop, reset, after, cap);
    ResetIsDrop(q.loop, reset, cap);
    var t := LoopStep(q.loop, reset, cap).loop;
    LoopIsPump(START, before, cap);
    LoopIsPump(t, after, cap);
    var all := before + ([reset] + after);
    AllFromMain(before, reset, after);
    LoopIsPump(START, all, cap);
    NothingStale(AllPumpOps(START, before, cap), AllPumpOps(t, after, cap));
  }

  lemma AllFromMain(before: seq<Event>, reset: Event, after: seq<Event>)
    requires IsReset(reset)
    requires forall i :: 0 <= i < |before| ==> FromMain(before[i])
    requires forall i :: 0 <= i < |after| ==> FromMain(after[i])
    ensures var all := before + ([reset] + after); forall i :: 0 <= i < |all| ==> FromMain(all[i])
  {
  }
}
