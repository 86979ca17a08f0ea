/**
  Nothing stale. When the server's output is reset or its connection is, client data that was queued
  before and of which the UART has not yet seen a byte is never sent: neither what waits in the data
  ring nor a data frame already in the staging buffer.
*/
module TxStale {
  import opened Bytes
  import opened LinkCodec
  import opened TxMux
  import opened TxRuns
  import opened TxPump

  // ----- one drop -----

  /**
    A staged frame of which nothing was written goes exactly if it is a data frame; a frame that was
    begun is finished, and control frames stay.
  */
  lemma StagedDropped(p: Pump, kind: byte, seqNo: u16, ack: u16, payload: seq<byte>)
    requires |payload| <= MAX_PAYLOAD && p.pending == Wire(kind, seqNo, ack, payload)
    ensures var q := DropStaleData(p);
            && (p.pos == 0 && p.mux.active != Sending(Data) && kind == DATA_M2C ==> q.pending == [] && q.pos == 0)
            && (p.pos > 0 || p.mux.active == Sending(Data) || kind != DATA_M2C ==>
                  q.pending == p.pending && q.pos == p.pos)
            && (p.mux.active != Sending(Data) ==> q.mux.data == [])
            && q.mux.control == p.mux.control
  {
    hide Wire, Unwire;
    WireShape(kind, seqNo, ack, payload);
    UnwireWire(kind, seqNo, ack, payload);
  }

  // ----- from a drop on -----

  /** Written or staged so far. */
  function Output(p: Pump, a: Account): seq<Sent> {
    a.sent + Staged(p, a)
  }

  /** The frames of which the UART has seen at least a byte. */
  function Begun(p: Pump, a: Account): seq<Sent> {
    a.sent + if p.pos > 0 then Staged(p, a) else []
  }

  /**
    Since some moment at which the frames `base` had been begun, only data frames of `queued` have
    been written or staged, or wait.
  */
  ghost predicate Since(p: Pump, a: Account, base: seq<Sent>, queued: seq<seq<byte>>) {
    && base <= Output(p, a)
    && Subsequence(FromQueue(Output(p, a)[|base|..], Data) + a.log.data, queued)
    && (p.pending != [] && |Output(p, a)| == |base| ==> p.pos > 0)
  }

  lemma FromQueueLast(sent: seq<Sent>, f: Sent)
    ensures FromQueue(sent + [f], Data) == FromQueue(sent, Data) + (if f.queue == Data then [f.bytes] else [])
  {
    assert (sent + [f])[..|sent|] == sent;
  }

  lemma NoneFromQueue()
    ensures FromQueue([], Data) == []
  {
  }

  /** A staged frame is the multiplexer's last, and it is a data frame exactly if it came from the data ring. */
  lemma StagedKind(p: Pump, a: Account)
    requires BuffersOk(p, a) && Accounted(p, a) && p.pending != [] && p.pos == 0
    ensures a.log.finished != [] && (PendingIsData(p) <==> a.log.finished[|a.log.finished| - 1].queue == Data)
  {
    hide Refines, Unwire, Wire, FromQueue, Subsequence;
    var f := a.log.finished[|a.log.finished| - 1];
    assert KindOk(f.queue, f.bytes);
    assert Decodable(f.bytes);
  }

  lemma IdleWhenWhole(p: Pump, a: Account)
    requires BuffersOk(p, a)
    ensures p.mux.active == Idle && DropData(p.mux).active == Idle
  {
  }

  lemma DropLeaves(p: Pump, a: Account)
    requires BuffersOk(p, a) && Accounted(p, a)
    ensures var q, b := DropStaleData(p), a.(log := LogStep(p.mux, a.log, Drop));
            && b.log.data == [] && b.log.finished == a.log.finished
            && (p.pending == [] || p.pos > 0 ==> q.pending == p.pending && q.pos == p.pos)
            && (p.pending != [] && p.pos == 0 ==>
                  && a.log.finished != []
                  && q.pending == if a.log.finished[|a.log.finished| - 1].queue == Data then [] else p.pending)
  {
    hide Refines, AllDecodable, KindsOk, FromQueue, Unwire, DropData, FrameBytes, Subsequence;
    IdleWhenWhole(p, a);
    if p.pending != [] && p.pos == 0 {
      StagedKind(p, a);
    }
  }

  /** What a moment at which nothing waits has begun, and perhaps a control frame beyond that. */
  lemma SinceNow(p: Pump, a: Account, base: seq<Sent>, more: seq<Sent>)
    requires a.log.data == [] && Output(p, a) == base + more
    requires more == [] || (|more| == 1 && more[0].queue == Control)
    requires more == [] && p.pending != [] ==> p.pos > 0
    ensures Since(p, a, base, [])
  {
    hide FromQueue, Output;
    assert Output(p, a)[|base|..] == more;
    NoneFromQueue();
    if more != [] {
      assert more == [] + [more[0]];
      FromQueueLast([], more[0]);
    }
  }

  /** The output after a drop is what was begun, and a staged control frame. */
  lemma OutputAfterDrop(p: Pump, a: Account, q: Pump, b: Account) returns (more: seq<Sent>)
    requires b.sent == a.sent && b.log.finished == a.log.finished && b.log.data == []
    requires p.pending == [] || p.pos > 0 ==> q.pending == p.pending && q.pos == p.pos
    requires p.pending != [] && p.pos == 0 ==>
               && a.log.finished != []
               && q.pending == if a.log.finished[|a.log.finished| - 1].queue == Data then [] else p.pending
    ensures Output(q, b) == Begun(p, a) + more
    ensures more == [] || (|more| == 1 && more[0].queue == Control)
    ensures more == [] && q.pending != [] ==> q.pos > 0
  {
    var n := |a.log.finished|;
    assert a.sent + [] == a.sent;
    if p.pending != [] && p.pos == 0 && a.log.finished[n - 1].queue == Control {
      more := [a.log.finished[n - 1]];
    } else {
      more := [];
      assert Begun(p, a) + [] == Begun(p, a);
      assert Output(q, b) == Begun(p, a);
    }
  }

  /** Right after the drop nothing is left but what was begun, and perhaps a control frame. */
  lemma DropStarts(p: Pump, a: Account)
    requires BuffersOk(p, a) && Accounted(p, a)
    ensures Since(DropStaleData(p), a.(log := LogStep(p.mux, a.log, Drop)), Begun(p, a), [])
  {
    DropLeaves(p, a);
    hide BuffersOk, Accounted, DropStaleData, LogStep, Since, Output, Begun;
    var q, b := DropStaleData(p), a.(log := LogStep(p.mux, a.log, Drop));
    var more := OutputAfterDrop(p, a, q, b);
    SinceNow(q, b, Begun(p, a), more);
  }

  // ----- every step keeps it -----

  /** Writing moves a frame from staged to written and changes nothing else. */
  lemma WriteKeepsSince(p: Pump, a: Account, budget: nat, accepted: nat, base: seq<Sent>, queued: seq<seq<byte>>)
    requires BuffersOk(p, a) && Since(p, a, base, queued)
    ensures Since(WriteStaged(p, budget, accepted).pump, AccountWrite(p, a, budget, accepted), base, queued)
  {
    hide Refines, AllDecodable, KindsOk, Subsequence, FromQueue;
    var e, b := WriteStaged(p, budget, accepted), AccountWrite(p, a, budget, accepted);
    assert a.sent + Staged(p, a) + [] == a.sent + Staged(p, a);
    assert Output(e.pump, b) == Output(p, a);
  }

  /** What waits in the data ring after an operation: one frame more, the same, or nothing. */
  lemma WaitingAfter(m: Mux, log: Log, op: Op)
    requires Permitted(op)
    ensures var t := LogStep(m, log, op);
            && t.finished == log.finished
            && (t.data == log.data + QueuedNow(m, op, Data) || (t.data == [] && QueuedNow(m, op, Data) == []))
  {
    hide Encoded, Enqueue;
    assert log.data + [] == log.data;
  }

  lemma OpKeepsSince(p: Pump, a: Account, op: Op, base: seq<Sent>, queued: seq<seq<byte>>)
    requires Permitted(op) && Since(p, a, base, queued)
    ensures Since(p.(mux := Step(p.mux, op).mux), a.(log := LogStep(p.mux, a.log, op)), base,
                  queued + QueuedNow(p.mux, op, Data))
  {
    hide Step, LogStep, Subsequence, FromQueue, Permitted, Accepts, Encoded;
    WaitingAfter(p.mux, a.log, op);
    var b := a.(log := LogStep(p.mux, a.log, op));
    var sent := FromQueue(Output(p, a)[|base|..], Data);
    assert queued + [] == queued && sent + [] == sent;
    if b.log.data == a.log.data + QueuedNow(p.mux, op, Data) {
      MoreQueued(sent + a.log.data, queued, QueuedNow(p.mux, op, Data));
      Regroup(sent, a.log.data, QueuedNow(p.mux, op, Data));
    } else {
      SubsequencePrefix(sent, a.log.data, queued);
    }
  }

  lemma MoreQueued(a: seq<seq<byte>>, b: seq<seq<byte>>, more: seq<seq<byte>>)
    requires Subsequence(a, b) && |more| <= 1
    ensures Subsequence(a + more, b + more)
  {
    hide Subsequence;
    if more == [] {
      assert a + more == a && b + more == b;
    } else {
      assert more == [more[0]];
      SubsequenceSnoc(a, b, more[0]);
    }
  }

  /** Staging takes the first waiting frame, so nothing new comes in. */
  lemma ReadKeepsSince(p: Pump, a: Account, cap: nat, base: seq<Sent>, queued: seq<seq<byte>>)
    requires BuffersOk(p, a) && Accounted(p, a) && p.pending == [] && cap >= MAX_ENCODED_LEN
    requires Since(p, a, base, queued)
    ensures var r := Read(p.mux, cap);
            Since(Pump(r.mux, r.bytes, 0), a.(log := LogRead(a.log, cap)), base, queued)
  {
    hide Refines, AllDecodable, KindsOk, Subsequence, FromQueue, FrameBytes, Read, LogRead;
    ReadWhole(p.mux, a.log, cap);
    var r := Read(p.mux, cap);
    var q, b := Pump(r.mux, r.bytes, 0), a.(log := LogRead(a.log, cap));
    assert a.sent + [] == a.sent;
    if r.bytes == [] {
      assert Output(q, b) == Output(p, a);
    } else {
      var f := Sent(LogSelect(a.log).from, r.bytes);
      assert Output(q, b) == a.sent + [f];
      assert (a.sent + [f])[|base|..] == a.sent[|base|..] + [f];
      FromQueueLast(a.sent[|base|..], f);
      Selected(a.log);
      Regroup(FromQueue(a.sent[|base|..], Data), [f.bytes], b.log.data);
      assert FromQueue(a.sent[|base|..], Data) + [] == FromQueue(a.sent[|base|..], Data);
    }
  }

  lemma Selected(log: Log)
    requires log.unsent == [] && LogSelect(log).unsent != []
    ensures var s := LogSelect(log);
            if s.from == Data then log.data == [s.unsent] + s.data else s.data == log.data
  {
  }

  /** Of the frames since `base`, the last may be taken back. */
  lemma LastTakenBack(base: seq<Sent>, sent: seq<Sent>, f: Sent, waiting: seq<seq<byte>>, queued: seq<seq<byte>>)
    requires base <= sent && Subsequence(FromQueue((sent + [f])[|base|..], Data) + waiting, queued)
    ensures Subsequence(FromQueue(sent[|base|..], Data), queued)
  {
    hide Subsequence, FromQueue;
    assert (sent + [f])[|base|..] == sent[|base|..] + [f];
    FromQueueLast(sent[|base|..], f);
    SubsequencePrefix(FromQueue((sent + [f])[|base|..], Data), waiting, queued);
    SubsequencePrefix(FromQueue(sent[|base|..], Data), if f.queue == Data then [f.bytes] else [], queued);
  }

  /** A later drop only takes away. */
  lemma DropKeepsSince(p: Pump, a: Account, base: seq<Sent>, queued: seq<seq<byte>>)
    requires BuffersOk(p, a) && Since(p, a, base, queued)
    ensures Since(DropStaleData(p), a.(log := LogStep(p.mux, a.log, Drop)), base, queued)
  {
    hide Refines, AllDecodable, KindsOk, Subsequence, FromQueue, Unwire, DropData;
    var q, b := DropStaleData(p), a.(log := LogStep(p.mux, a.log, Drop));
    assert FromQueue(Output(q, b)[|base|..], Data) + [] == FromQueue(Output(q, b)[|base|..], Data);
    if q.pending == p.pending {
      assert Output(q, b) == Output(p, a);
      SubsequencePrefix(FromQueue(Output(p, a)[|base|..], Data), a.log.data, queued);
    } else {
      var f := a.log.finished[|a.log.finished| - 1];
      assert p.pos == 0 && Output(p, a) == a.sent + [f] && Output(q, b) == a.sent;
      LastTakenBack(base, a.sent, f, a.log.data, queued);
    }
  }

  // ----- as operations of the multiplexer -----

  lemma NoneQueued(m: Mux)
    ensures Queued(m, [], Data) == []
  {
  }

  lemma QueuedOne(m: Mux, op: Op)
    ensures Queued(m, [op], Data) == QueuedNow(m, op, Data)
  {
    hide Step, Accepts;
    assert [op][1..] == [];
  }

  lemma {:induction false} QueuedAppend(m: Mux, a: seq<Op>, b: seq<Op>)
    ensures Queued(m, a + b, Data) == Queued(m, a, Data) + Queued(Run(m, a).mux, b, Data)
    decreases |a|
  {
    hide Step, Accepts;
    if a == [] {
      assert a + b == b;
    } else {
      assert (a + b)[1..] == a[1..] + b;
      QueuedAppend(Step(m, a[0]).mux, a[1..], b);
      Regroup(QueuedNow(m, a[0], Data), Queued(Step(m, a[0]).mux, a[1..], Data),
              Queued(Run(Step(m, a[0]).mux, a[1..]).mux, b, Data));
    }
  }

  /** A tick that stages queues what it puts. */
  lemma StageQueued(m: Mux, cap: nat, put: Option<Op>)
    ensures Queued(m, (if put.Some? then [put.value] else []) + [Get(cap)], Data)
         == if put.Some? then QueuedNow(m, put.value, Data) else []
  {
    hide Step, Accepts, Run;
    var puts := if put.Some? then [put.value] else [];
    QueuedAppend(m, puts, [Get(cap)]);
    QueuedOne(Run(m, puts).mux, Get(cap));
    NoneQueued(m);
    if put.Some? {
      QueuedOne(m, put.value);
    }
    GetQueuesNothing(Run(m, puts).mux, cap);
  }

  lemma GetQueuesNothing(m: Mux, cap: nat)
    ensures QueuedNow(m, Get(cap), Data) == []
  {
  }

  lemma StageKeepsSince(p: Pump, a: Account, budget: nat, cap: nat, put: Option<Op>, second: nat,
                        base: seq<Sent>, queued: seq<seq<byte>>)
    requires BuffersOk(p, a) && Accounted(p, a) && p.pending == [] && cap >= MAX_ENCODED_LEN
    requires put.Some? ==> Permitted(put.value)
    requires Since(p, a, base, queued)
    ensures Since(StageNext(p, budget, cap, put, second).pump, AccountStage(p, a, budget, cap, put, second), base,
                  queued + if put.Some? then QueuedNow(p.mux, put.value, Data) else [])
  {
    hide BuffersOk, Accounted, Since, Read, LogRead, Step, WriteStaged, LogStep, QueuedNow;
    assert queued + [] == queued;
    var q := if put.Some? then p.(mux := Step(p.mux, put.value).mux) else p;
    var b := AccountPut(p, a, put);
    var all := queued + if put.Some? then QueuedNow(p.mux, put.value, Data) else [];
    if put.Some? {
      RingOpKeeps(p, a, put.value);
      OpKeepsSince(p, a, put.value, base, queued);
    }
    ReadKeepsSince(q, b, cap, base, all);
    ReadKeeps(q, b, cap);
    var r := Read(q.mux, cap);
    WriteKeepsSince(Pump(r.mux, r.bytes, 0), b.(log := LogRead(b.log, cap)), budget, second, base, all);
  }

  lemma StepKeepsSince(p: Pump, a: Account, op: PumpOp, base: seq<Sent>, queued: seq<seq<byte>>)
    requires BuffersOk(p, a) && Accounted(p, a) && Admissible(op) && Since(p, a, base, queued)
    ensures Since(PumpStep(p, op).pump, AccountStep(p, a, op), base, queued + Queued(p.mux, MuxOps(p, op), Data))
  {
    hide BuffersOk, Accounted, Since, WriteStaged, StageNext, Step, LogStep, DropStaleData, AccountStage, AccountWrite,
         Queued, QueuedNow;
    NoneQueued(p.mux);
    assert queued + [] == queued;
    PositionOk(p, a);
    match op
    case Session(o) =>
      OpKeepsSince(p, a, o, base, queued);
      QueuedOne(p.mux, o);
    case DropStale =>
      DropKeepsSince(p, a, base, queued);
      QueuedOne(p.mux, Drop);
      DropQueuesNothing(p.mux);
    case Tick(budget, cap, first, put, second) =>
      StageQueued(p.mux, cap, put);
      if p.pos < |p.pending| {
        var e, b := WriteStaged(p, budget, first), AccountWrite(p, a, budget, first);
        WriteKeeps(p, a, budget, first);
        WriteKeepsSince(p, a, budget, first, base, queued);
        if e.pump.pending == [] && |e.uart| != budget {
          StageKeepsSince(e.pump, b, budget - |e.uart|, cap, put, second, base, queued);
        }
      } else {
        NothingPending(p, a);
        StageKeepsSince(p, a, budget, cap, put, second, base, queued);
      }
  }

  lemma NothingPending(p: Pump, a: Account)
    requires BuffersOk(p, a) && p.pos >= |p.pending|
    ensures p.pending == []
  {
    hide Refines, AllDecodable, KindsOk;
  }

  lemma DropQueuesNothing(m: Mux)
    ensures QueuedNow(m, Drop, Data) == []
  {
  }

  lemma {:induction false} RunKeepsSince(p: Pump, a: Account, ops: seq<PumpOp>, base: seq<Sent>, queued: seq<seq<byte>>)
    requires BuffersOk(p, a) && Accounted(p, a) && Since(p, a, base, queued)
    requires forall i :: 0 <= i < |ops| ==> Admissible(ops[i])
    ensures Since(PumpRun(p, ops).pump, AccountRun(p, a, ops), base, queued + Queued(p.mux, AllMuxOps(p, ops), Data))
    decreases |ops|
  {
    hide BuffersOk, Accounted, Since, PumpStep, AccountStep, MuxOps, Admissible, Queued, Run;
    PositionOk(p, a);
    if ops == [] {
      NoneQueued(p.mux);
      assert queued + [] == queued;
    } else {
      PositionBounded(p, ops[0]);
      PumpStepKeeps(p, a, ops[0]);
      StepKeepsSince(p, a, ops[0], base, queued);
      StepIsMuxRun(p, a, ops[0]);
      var q, b, now := PumpStep(p, ops[0]).pump, AccountStep(p, a, ops[0]), MuxOps(p, ops[0]);
      RunKeepsSince(q, b, ops[1..], base, queued + Queued(p.mux, now, Data));
      QueuedAppend(p.mux, now, AllMuxOps(q, ops[1..]));
      Regroup(queued, Queued(p.mux, now, Data), Queued(q.mux, AllMuxOps(q, ops[1..]), Data));
    }
  }

  lemma PositionOk(p: Pump, a: Account)
    requires BuffersOk(p, a)
    ensures p.pos <= |p.pending|
  {
    hide Refines, AllDecodable, KindsOk;
  }

  lemma {:induction false} AccountRunAppend(p: Pump, a: Account, x: seq<PumpOp>, y: seq<PumpOp>)
    requires p.pos <= |p.pending|
    ensures var e := PumpRun(p, x);
            && e.pump.pos <= |e.pump.pending|
            && PumpRun(p, x + y) == Emission(PumpRun(e.pump, y).pump, e.uart + PumpRun(e.pump, y).uart)
            && AccountRun(p, a, x + y) == AccountRun(e.pump, AccountRun(p, a, x), y)
    decreases |x|
  {
    hide PumpStep, AccountStep;
    if x == [] {
      assert x + y == y;
      assert [] + PumpRun(p, y).uart == PumpRun(p, y).uart;
    } else {
      PositionBounded(p, x[0]);
      var first := PumpStep(p, x[0]);
      AccountRunAppend(first.pump, AccountStep(p, a, x[0]), x[1..], y);
      assert (x + y)[1..] == x[1..] + y;
      var e := PumpRun(first.pump, x[1..]);
      Regroup(first.uart, e.uart, PumpRun(e.pump, y).uart);
    }
  }

  /**
    Nothing stale is ever sent. Take any run with a drop in it: of the data frames that the UART gets
    to see, or that are staged, every one was either begun before the drop or queued after it.
  */
  lemma NothingStale(before: seq<PumpOp>, after: seq<PumpOp>)
    requires forall i :: 0 <= i < |before| ==> Admissible(before[i])
    requires forall i :: 0 <= i < |after| ==> Admissible(after[i])
    ensures var e, a := PumpRun(IDLE_PUMP, before), AccountRun(IDLE_PUMP, NOTHING, before);
            var q := DropStaleData(e.pump);
            var all := before + ([DropStale] + after);
            var f, b := PumpRun(IDLE_PUMP, all), AccountRun(IDLE_PUMP, NOTHING, all);
            && q.pos <= |q.pending|
            && e.uart <= f.uart
            && Begun(e.pump, a) <= Output(f.pump, b)
            && Subsequence(FromQueue(Output(f.pump, b)[|Begun(e.pump, a)|..], Data),
                           Queued(q.mux, AllMuxOps(q, after), Data))
  {
    hide PumpRun, AccountRun, AllMuxOps, Admissible, Subsequence, FromQueue, Queued, BuffersOk, Accounted,
         DropStaleData, Output, Begun, OnUart, LogStep;
    StartsIdle();
    AccountRunAppend(IDLE_PUMP, NOTHING, before, [DropStale] + after);
    PumpRunKeeps(IDLE_PUMP, NOTHING, before);
    var e, a := PumpRun(IDLE_PUMP, before), AccountRun(IDLE_PUMP, NOTHING, before);
    DropStarts(e.pump, a);
    DropKeeps(e.pump, a);
    var q, c := DropStaleData(e.pump), a.(log := LogStep(e.pump.mux, a.log, Drop));
    PositionOk(q, c);
    DropFirst(e.pump, a, after);
    RunKeepsSince(q, c, after, Begun(e.pump, a), []);
    var queued := Queued(q.mux, AllMuxOps(q, after), Data);
    assert [] + queued == queued;
    SinceMeans(PumpRun(q, after).pump, AccountRun(q, c, after), Begun(e.pump, a), queued);
  }

  lemma DropFirst(p: Pump, a: Account, after: seq<PumpOp>)
    requires p.pos <= |p.pending|
    ensures var q, c := DropStaleData(p), a.(log := LogStep(p.mux, a.log, Drop));
            && q.pos <= |q.pending|
            && PumpRun(p, [DropStale] + after).pump == PumpRun(q, after).pump
            && AccountRun(p, a, [DropStale] + after) == AccountRun(q, c, after)
  {
    hide DropStaleData, LogStep;
    PositionBounded(p, DropStale);
    assert ([DropStale] + after)[1..] == after;
  }

  lemma SinceMeans(p: Pump, a: Account, base: seq<Sent>, queued: seq<seq<byte>>)
    requires Since(p, a, base, queued)
    ensures base <= Output(p, a) && Subsequence(FromQueue(Output(p, a)[|base|..], Data), queued)
  {
    hide Subsequence, FromQueue;
    SubsequencePrefix(FromQueue(Output(p, a)[|base|..], Data), a.log.data, queued);
  }
}
