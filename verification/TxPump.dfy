/**
  The staging buffer between the multiplexer and the UART (`pump_link_tx`, `drop_stale_link_tx_data`
  in firmware/main.c). With a buffer of at least one maximal frame, whatever the UART accepts per
  call, its bytes are whole frames and at most one prefix; a stale data frame is dropped from the
  buffer only while none of it has been written, and control frames are never dropped.
*/
module TxPump {
  import opened Bytes
  import opened LinkCodec
  import opened LinkParser
  import opened TxMux
  import opened TxRuns
  import Cobs

  /** `link_pending[..link_pending_len]`, `link_pending_pos` and the session's rings. */
  datatype Pump = Pump(mux: Mux, pending: seq<byte>, pos: nat)

  datatype PumpOp =
    | Session(op: Op)                                                        // frames handled, frames queued
    | Tick(budget: nat, cap: nat, first: nat, put: Option<Op>, second: nat)  // one `pump_link_tx`
    | DropStale                                                              // `drop_stale_link_tx_data`

  datatype Emission = Emission(pump: Pump, uart: seq<byte>)

  /** `link_pending_is_data_m2c` */
  predicate PendingIsData(p: Pump) {
    && p.pending != [] && p.pos == 0
    && Unwire(p.pending).Some? && Unwire(p.pending).value.kind == DATA_M2C
  }

  function DropStaleData(p: Pump): Pump {
    var q := p.(mux := DropData(p.mux));
    if q.pos == 0 && q.mux.active != Sending(Data) && PendingIsData(q) then q.(pending := [], pos := 0) else q
  }

  /** Write what is staged; `accepted` is how much the UART would take. */
  function WriteStaged(p: Pump, budget: nat, accepted: nat): (e: Emission)
    requires p.pos <= |p.pending|
    ensures |e.uart| <= budget
    ensures e.pump.pos <= |e.pump.pending| && e.pump.mux == p.mux
  {
    var n := Min(Min(|p.pending| - p.pos, budget), accepted);
    var out := p.pending[p.pos..p.pos + n];
    if p.pos + n < |p.pending| then Emission(p.(pos := p.pos + n), out)
    else Emission(p.(pending := [], pos := 0), out)
  }

  /**
    As much as possible is written: all that is staged, or all the UART takes, or all the budget allows;
    and what is left to write is exactly the rest.
  */
  lemma WritesAllItCan(p: Pump, budget: nat, accepted: nat)
    requires p.pos <= |p.pending|
    ensures var e, left := WriteStaged(p, budget, accepted), p.pending[p.pos..];
            && |e.uart| <= accepted && |e.uart| <= budget
            && (e.uart == left || |e.uart| == accepted || |e.uart| == budget)
            && e.uart + e.pump.pending[e.pump.pos..] == left
            && (e.uart == left ==> e.pump.pending == [] && e.pump.pos == 0)
  {
    var n := Min(Min(|p.pending| - p.pos, budget), accepted);
    assert p.pending[p.pos..] == p.pending[p.pos..p.pos + n] + p.pending[p.pos + n..];
  }

  /** The second half of `pump_link_tx`: queue server data, stage the next piece, write some of it. */
  function StageNext(p: Pump, budget: nat, cap: nat, put: Option<Op>, second: nat): Emission {
    var queued := if put.Some? then Step(p.mux, put.value).mux else p.mux;
    var r := Read(queued, cap);
    WriteStaged(Pump(r.mux, r.bytes, 0), budget, second)
  }

  function PumpTx(p: Pump, budget: nat, cap: nat, first: nat, put: Option<Op>, second: nat): Emission
    requires p.pos <= |p.pending|
  {
    if p.pos < |p.pending| then
      var e := WriteStaged(p, budget, first);
      if e.pump.pending != [] || |e.uart| == budget then e
      else
        var f := StageNext(e.pump, budget - |e.uart|, cap, put, second);
        Emission(f.pump, e.uart + f.uart)
    else StageNext(p, budget, cap, put, second)
  }

  function PumpStep(p: Pump, op: PumpOp): Emission
    requires p.pos <= |p.pending|
  {
    match op
    case Session(o) => if o.Get? then Emission(p, []) else Emission(p.(mux := Step(p.mux, o).mux), [])
    case Tick(budget, cap, first, put, second) => PumpTx(p, budget, cap, first, put, second)
    case DropStale => Emission(DropStaleData(p), [])
  }

  // ----- as operations of the multiplexer -----

  lemma PositionBounded(p: Pump, op: PumpOp)
    requires p.pos <= |p.pending|
    ensures PumpStep(p, op).pump.pos <= |PumpStep(p, op).pump.pending|
  {
    hide Read, Step, DropData, Unwire;
  }

  /** Whether a tick gets as far as queueing and staging. */
  predicate Stages(p: Pump, budget: nat, first: nat)
    requires p.pos <= |p.pending|
  {
    p.pos < |p.pending| ==>
      var e := WriteStaged(p, budget, first);
      e.pump.pending == [] && |e.uart| != budget
  }

  /** What a step asks of the multiplexer. */
  function MuxOps(p: Pump, op: PumpOp): seq<Op>
    requires p.pos <= |p.pending|
  {
    match op
    case Session(o) => if o.Get? then [] else [o]
    case DropStale => [Drop]
    case Tick(budget, cap, first, put, second) =>
      if !Stages(p, budget, first) then []
      else (if put.Some? then [put.value] else []) + [Get(cap)]
  }

  function AllMuxOps(p: Pump, ops: seq<PumpOp>): seq<Op>
    requires p.pos <= |p.pending|
    decreases |ops|
  {
    if ops == [] then []
    else
      PositionBounded(p, ops[0]);
      MuxOps(p, ops[0]) + AllMuxOps(PumpStep(p, ops[0]).pump, ops[1..])
  }

  /** Staging is a queueing operation, if any, and a read. */
  lemma StagingOps(m: Mux, log: Log, cap: nat, put: Option<Op>)
    requires put.Some? ==> !put.value.Get?
    ensures var ops := (if put.Some? then [put.value] else []) + [Get(cap)];
            var queued := if put.Some? then Step(m, put.value).mux else m;
            var logged := if put.Some? then LogStep(m, log, put.value) else log;
            Run(m, ops).mux == Read(queued, cap).mux && LogRun(m, log, ops) == LogRead(logged, cap)
  {
    hide Run, LogRun, Step, LogStep;
    var puts := if put.Some? then [put.value] else [];
    NoOps(m);
    NoLog(m, log);
    if put.Some? {
      RunOne(m, put.value);
      LogRunOne(m, log, put.value);
    }
    RunAppend(m, puts, [Get(cap)]);
    LogRunAppend(m, log, puts, [Get(cap)]);
    var queued, logged := Run(m, puts).mux, LogRun(m, log, puts);
    RunOne(queued, Get(cap));
    LogRunOne(queued, logged, Get(cap));
    GetIsRead(queued, logged, cap);
  }

  lemma GetIsRead(m: Mux, log: Log, cap: nat)
    ensures Step(m, Get(cap)) == Read(m, cap) && LogStep(m, log, Get(cap)) == LogRead(log, cap)
  {
    hide Read, LogRead;
  }

  // ----- what the UART has seen -----

  /**
    Ghost account of a run: the frame log of the multiplexer and the frames completely written to
    the UART. A staged frame is always the last one the multiplexer finished.
  */
  datatype Account = Account(log: Log, sent: seq<Sent>)

  function Staged(p: Pump, a: Account): seq<Sent> {
    if p.pending == [] || a.log.finished == [] then [] else [a.log.finished[|a.log.finished| - 1]]
  }

  ghost predicate KindOk(q: Queue, f: seq<byte>) {
    Unwire(f).Some? ==> (Unwire(f).value.kind == DATA_M2C <==> q == Data)
  }

  /** DATA_M2C frames, and no others, come from the data ring. */
  ghost predicate KindsOk(log: Log) {
    && (forall i :: 0 <= i < |log.control| ==> KindOk(Control, log.control[i]))
    && (forall i :: 0 <= i < |log.data| ==> KindOk(Data, log.data[i]))
    && (forall i :: 0 <= i < |log.finished| ==> KindOk(log.finished[i].queue, log.finished[i].bytes))
  }

  ghost predicate BuffersOk(p: Pump, a: Account) {
    && Refines(p.mux, a.log) && AllDecodable(a.log) && KindsOk(a.log)
    && a.log.unsent == []
    && (p.pending == [] ==> p.pos == 0)
    && (p.pending != [] ==> p.pos < |p.pending| && a.log.finished != []
                            && p.pending == a.log.finished[|a.log.finished| - 1].bytes)
  }

  ghost predicate Accounted(p: Pump, a: Account) {
    && Subsequence(a.sent + Staged(p, a), a.log.finished)
    && FromQueue(a.sent + Staged(p, a), Control) == FromQueue(a.log.finished, Control)
  }

  /** Bytes on the UART: whole frames and the written part of the staged one. */
  function OnUart(p: Pump, a: Account): seq<byte>
    requires p.pos <= |p.pending|
  {
    FrameBytes(a.sent) + p.pending[..p.pos]
  }

  // ----- writing staged bytes -----

  function AccountWrite(p: Pump, a: Account, budget: nat, accepted: nat): Account
    requires p.pos <= |p.pending|
  {
    if p.pending != [] && WriteStaged(p, budget, accepted).pump.pending == []
    then a.(sent := a.sent + Staged(p, a)) else a
  }

  lemma WriteKeeps(p: Pump, a: Account, budget: nat, accepted: nat)
    requires BuffersOk(p, a) && Accounted(p, a)
    ensures var e, b := WriteStaged(p, budget, accepted), AccountWrite(p, a, budget, accepted);
            BuffersOk(e.pump, b) && Accounted(e.pump, b) && OnUart(e.pump, b) == OnUart(p, a) + e.uart
  {
    hide Refines, AllDecodable, KindsOk, Subsequence, FromQueue;
    var e, b := WriteStaged(p, budget, accepted), AccountWrite(p, a, budget, accepted);
    var n := |e.uart|;
    Extend(FrameBytes(a.sent), p.pending, p.pos, n);
    if p.pending != [] && e.pump.pending == [] {
      FrameBytesSnoc(a.sent, a.log.finished[|a.log.finished| - 1]);
      assert b.sent + [] == a.sent + Staged(p, a);
    }
  }

  lemma Extend(done: seq<byte>, pending: seq<byte>, pos: nat, n: nat)
    requires pos + n <= |pending|
    ensures done + pending[..pos] + pending[pos..pos + n] == done + pending[..pos + n]
    ensures pos + n == |pending| ==> done + pending[..pos + n] == done + pending
    ensures done + pending + [] == done + pending
  {
  }

  lemma FrameBytesSnoc(sent: seq<Sent>, f: Sent)
    ensures FrameBytes(sent + [f]) == FrameBytes(sent) + f.bytes
  {
    assert (sent + [f])[..|sent|] == sent;
  }

  // ----- staging the next frame -----

  /** With room for a maximal frame, a read takes all of the selected frame or finds none waiting. */
  lemma ReadWhole(m: Mux, log: Log, cap: nat)
    requires Refines(m, log) && AllDecodable(log) && log.unsent == [] && cap >= MAX_ENCODED_LEN
    ensures var s, t, bytes := LogSelect(log), LogRead(log, cap), Read(m, cap).bytes;
            && Refines(Read(m, cap).mux, t) && AllDecodable(t)
            && bytes == s.unsent
            && t == (if bytes == [] then log
                     else s.(finished := log.finished + [Sent(s.from, bytes)], out := [], unsent := []))
  {
    hide Unwire, Flatten, FrameBytes, Read, NextFrameLen;
    ReadRefines(m, log, cap);
    SelectKeepsDecodable(log);
    var s, t, bytes := LogSelect(log), LogRead(log, cap), Read(m, cap).bytes;
    if s.unsent == [] {
      assert t == log;
      Cancel(log.Emitted(), bytes, []);
    } else {
      assert s.out == [] && [] + s.unsent == s.unsent;
      assert Decodable(s.out + s.unsent);
      AdvanceKeepsDecodable(s, |s.unsent|);
      FrameBytesSnoc(log.finished, Sent(s.from, s.unsent));
      Cancel(FrameBytes(log.finished), bytes, s.unsent);
    }
  }

  lemma Cancel(a: seq<byte>, b: seq<byte>, c: seq<byte>)
    ensures a + [] + b == a + c ==> b == c
    ensures a + [] + b == a + c + [] ==> b == c
    ensures a == a + b && c == [] ==> b == c
  {
    assert a + [] + b == a + c ==> (a + [] + b)[|a|..] == (a + c)[|a|..];
    assert a + [] + b == a + c + [] ==> (a + [] + b)[|a|..] == (a + c + [])[|a|..];
  }

  /** The ring operations of the session: queueing and resets, not reading. */
  predicate Permitted(op: Op) {
    !op.Get? && (op.Put? ==> (op.kind == DATA_M2C <==> op.queue == Data))
  }

  lemma RingOpKeeps(p: Pump, a: Account, op: Op)
    requires BuffersOk(p, a) && Accounted(p, a) && Permitted(op)
    ensures var q, b := p.(mux := Step(p.mux, op).mux), a.(log := LogStep(p.mux, a.log, op));
            && BuffersOk(q, b) && Accounted(q, b) && OnUart(q, b) == OnUart(p, a)
            && b.log.finished == a.log.finished
  {
    hide Refines, AllDecodable, Subsequence, FromQueue, FrameBytes, Step, Enqueue, Wire, KindOk;
    StepRefines(p.mux, a.log, op);
    LogIsValid(p.mux, a.log);
    StepKeepsDecodable(p.mux, a.log, op);
    if op.Put? && Accepts(p.mux, op) {
      WireKind(op);
    }
  }

  lemma LogIsValid(m: Mux, log: Log)
    requires Refines(m, log)
    ensures log.Valid()
  {
  }

  lemma WireKind(op: Op)
    requires op.Put? && Encoded(op).Some? && Permitted(op)
    ensures KindOk(op.queue, Encoded(op).value)
  {
    hide Wire, Unwire;
    UnwireWire(op.kind, op.seqNo, op.ack, op.payload);
  }

  function AccountPut(p: Pump, a: Account, put: Option<Op>): Account {
    if put.Some? then a.(log := LogStep(p.mux, a.log, put.value)) else a
  }

  function AccountStage(p: Pump, a: Account, budget: nat, cap: nat, put: Option<Op>, second: nat): Account {
    var queued := if put.Some? then Step(p.mux, put.value).mux else p.mux;
    var r := Read(queued, cap);
    var b := AccountPut(p, a, put);
    AccountWrite(Pump(r.mux, r.bytes, 0), b.(log := LogRead(b.log, cap)), budget, second)
  }

  lemma ReadKeeps(p: Pump, a: Account, cap: nat)
    requires BuffersOk(p, a) && Accounted(p, a) && p.pending == [] && cap >= MAX_ENCODED_LEN
    ensures var r := Read(p.mux, cap);
            var q, b := Pump(r.mux, r.bytes, 0), a.(log := LogRead(a.log, cap));
            BuffersOk(q, b) && Accounted(q, b) && OnUart(q, b) == OnUart(p, a)
  {
    hide Refines, AllDecodable, FromQueue, FrameBytes, Read, LogRead, Subsequence;
    ReadWhole(p.mux, a.log, cap);
    var r := Read(p.mux, cap);
    assert a.sent + [] == a.sent;
    if r.bytes != [] {
      var f := Sent(LogSelect(a.log).from, r.bytes);
      SubsequenceSnoc(a.sent, a.log.finished, f);
      FromQueueSnoc(a.sent, f);
      FromQueueSnoc(a.log.finished, f);
    }
  }

  lemma FromQueueSnoc(sent: seq<Sent>, f: Sent)
    ensures FromQueue(sent + [f], Control) == FromQueue(sent, Control) + (if f.queue == Control then [f.bytes] else [])
  {
    assert (sent + [f])[..|sent|] == sent;
  }

  lemma StageKeeps(p: Pump, a: Account, budget: nat, cap: nat, put: Option<Op>, second: nat)
    requires BuffersOk(p, a) && Accounted(p, a) && p.pending == [] && cap >= MAX_ENCODED_LEN
    requires put.Some? ==> Permitted(put.value)
    ensures var e, b := StageNext(p, budget, cap, put, second), AccountStage(p, a, budget, cap, put, second);
            BuffersOk(e.pump, b) && Accounted(e.pump, b) && OnUart(e.pump, b) == OnUart(p, a) + e.uart
  {
    hide BuffersOk, Accounted, OnUart, Read, LogRead, Step, WriteStaged, LogStep;
    var q := if put.Some? then p.(mux := Step(p.mux, put.value).mux) else p;
    var b := AccountPut(p, a, put);
    if put.Some? {
      RingOpKeeps(p, a, put.value);
    }
    ReadKeeps(q, b, cap);
    var r := Read(q.mux, cap);
    WriteKeeps(Pump(r.mux, r.bytes, 0), b.(log := LogRead(b.log, cap)), budget, second);
  }

  lemma DropKeeps(p: Pump, a: Account)
    requires BuffersOk(p, a) && Accounted(p, a)
    ensures var q, b := DropStaleData(p), a.(log := LogStep(p.mux, a.log, Drop));
            BuffersOk(q, b) && Accounted(q, b) && OnUart(q, b) == OnUart(p, a)
  {
    hide Refines, AllDecodable, Subsequence, FromQueue, FrameBytes, DropData, Unwire;
    RingOpKeeps(p, a, Drop);
    var q0 := p.(mux := DropData(p.mux));
    assert Step(p.mux, Drop).mux == DropData(p.mux);
    if DropStaleData(p).pending != p.pending {
      var f := a.log.finished[|a.log.finished| - 1];
      assert KindOk(f.queue, f.bytes);
      FromQueueSnoc(a.sent, f);
      SubsequencePrefix(a.sent, [f], a.log.finished);
      assert a.sent + [] == a.sent;
      assert FromQueue(a.sent, Control) + [] == FromQueue(a.sent, Control);
    }
  }

  function AccountStep(p: Pump, a: Account, op: PumpOp): Account
    requires p.pos <= |p.pending|
  {
    match op
    case Session(o) => if o.Get? then a else a.(log := LogStep(p.mux, a.log, o))
    case DropStale => a.(log := LogStep(p.mux, a.log, Drop))
    case Tick(budget, cap, first, put, second) =>
      if p.pos < |p.pending| then
        var e, b := WriteStaged(p, budget, first), AccountWrite(p, a, budget, first);
        if e.pump.pending != [] || |e.uart| == budget then b
        else AccountStage(e.pump, b, budget - |e.uart|, cap, put, second)
      else AccountStage(p, a, budget, cap, put, second)
  }

  predicate Admissible(op: PumpOp) {
    match op
    case Session(o) => Permitted(o)
    case Tick(_, cap, _, put, _) => cap >= MAX_ENCODED_LEN && (put.Some? ==> Permitted(put.value))
    case DropStale => true
  }

  lemma PumpStepKeeps(p: Pump, a: Account, op: PumpOp)
    requires BuffersOk(p, a) && Accounted(p, a) && Admissible(op)
    ensures var e, b := PumpStep(p, op), AccountStep(p, a, op);
            BuffersOk(e.pump, b) && Accounted(e.pump, b) && OnUart(e.pump, b) == OnUart(p, a) + e.uart
  {
    hide Accounted, OnUart, WriteStaged, StageNext, Step, LogStep, DropStaleData, AccountStage, AccountWrite, Refines,
         AllDecodable, KindsOk;
    match op
    case Session(o) =>
      RingOpKeeps(p, a, o);
      assert OnUart(p, a) + [] == OnUart(p, a);
    case DropStale =>
      DropKeeps(p, a);
      assert OnUart(p, a) + [] == OnUart(p, a);
    case Tick(budget, cap, first, put, second) =>
      if p.pos < |p.pending| {
        var e, b := WriteStaged(p, budget, first), AccountWrite(p, a, budget, first);
        WriteKeeps(p, a, budget, first);
        if e.pump.pending == [] && |e.uart| != budget {
          StageKeeps(e.pump, b, budget - |e.uart|, cap, put, second);
          Regroup(OnUart(p, a), e.uart, StageNext(e.pump, budget - |e.uart|, cap, put, second).uart);
        }
      } else {
        StageKeeps(p, a, budget, cap, put, second);
      }
  }

  // ----- whole runs -----

  function PumpRun(p: Pump, ops: seq<PumpOp>): Emission
    requires p.pos <= |p.pending|
    decreases |ops|
  {
    if ops == [] then Emission(p, [])
    else
      PositionBounded(p, ops[0]);
      var e := PumpStep(p, ops[0]);
      var rest := PumpRun(e.pump, ops[1..]);
      Emission(rest.pump, e.uart + rest.uart)
  }

  function AccountRun(p: Pump, a: Account, ops: seq<PumpOp>): Account
    requires p.pos <= |p.pending|
    decreases |ops|
  {
    if ops == [] then a
    else
      PositionBounded(p, ops[0]);
      AccountRun(PumpStep(p, ops[0]).pump, AccountStep(p, a, ops[0]), ops[1..])
  }

  lemma {:induction false} PumpRunKeeps(p: Pump, a: Account, ops: seq<PumpOp>)
    requires BuffersOk(p, a) && Accounted(p, a)
    requires forall i :: 0 <= i < |ops| ==> Admissible(ops[i])
    ensures var e, b := PumpRun(p, ops), AccountRun(p, a, ops);
            BuffersOk(e.pump, b) && Accounted(e.pump, b) && OnUart(e.pump, b) == OnUart(p, a) + e.uart
    decreases |ops|
  {
    hide Accounted, OnUart, PumpStep, AccountStep, Admissible, Refines, AllDecodable, KindsOk;
    if ops == [] {
      assert OnUart(p, a) + [] == OnUart(p, a);
    } else {
      PositionBounded(p, ops[0]);
      PumpStepKeeps(p, a, ops[0]);
      var e, b := PumpStep(p, ops[0]), AccountStep(p, a, ops[0]);
      PumpRunKeeps(e.pump, b, ops[1..]);
      Regroup(OnUart(p, a), e.uart, PumpRun(e.pump, ops[1..]).uart);
    }
  }

  const IDLE_PUMP := Pump(TxMux.INITIAL, [], 0)

  const NOTHING := Account(EMPTY_LOG, [])

  /** The account's log is the log of the operations the pump asked for. */
  lemma StepIsMuxRun(p: Pump, a: Account, op: PumpOp)
    requires p.pos <= |p.pending| && Admissible(op)
    ensures PumpStep(p, op).pump.mux == Run(p.mux, MuxOps(p, op)).mux
    ensures AccountStep(p, a, op).log == LogRun(p.mux, a.log, MuxOps(p, op))
  {
    hide Read, LogRead, Step, LogStep, Run, LogRun;
    NoOps(p.mux);
    NoLog(p.mux, a.log);
    match op
    case Session(o) =>
      RunOne(p.mux, o);
      LogRunOne(p.mux, a.log, o);
    case DropStale =>
      RunOne(p.mux, Drop);
      LogRunOne(p.mux, a.log, Drop);
      DropIsStep(p);
    case Tick(budget, cap, first, put, second) =>
      StagingOps(p.mux, a.log, cap, put);
  }

  lemma DropIsStep(p: Pump)
    ensures DropStaleData(p).mux == Step(p.mux, Drop).mux
  {
    hide DropData, Unwire;
  }

  lemma {:induction false} RunIsMuxRun(p: Pump, a: Account, ops: seq<PumpOp>)
    requires p.pos <= |p.pending|
    requires forall i :: 0 <= i < |ops| ==> Admissible(ops[i])
    ensures PumpRun(p, ops).pump.mux == Run(p.mux, AllMuxOps(p, ops)).mux
    ensures AccountRun(p, a, ops).log == LogRun(p.mux, a.log, AllMuxOps(p, ops))
    decreases |ops|
  {
    hide PumpStep, AccountStep, MuxOps, Admissible, Run, LogRun;
    if ops == [] {
      NoOps(p.mux);
      NoLog(p.mux, a.log);
    } else {
      PositionBounded(p, ops[0]);
      StepIsMuxRun(p, a, ops[0]);
      var q, b := PumpStep(p, ops[0]).pump, AccountStep(p, a, ops[0]);
      RunIsMuxRun(q, b, ops[1..]);
      RunAppend(p.mux, MuxOps(p, ops[0]), AllMuxOps(q, ops[1..]));
      LogRunAppend(p.mux, a.log, MuxOps(p, ops[0]), AllMuxOps(q, ops[1..]));
    }
  }

  lemma WholeFrames(p: Pump, a: Account)
    requires BuffersOk(p, a) && Accounted(p, a)
    ensures p.pos <= |p.pending| && (p.pending != [] ==> p.pos < |p.pending| && Decodable(p.pending))
    ensures Subsequence(a.sent + Staged(p, a), a.log.finished)
    ensures forall i :: 0 <= i < |a.log.finished| ==> Decodable(a.log.finished[i].bytes)
  {
    hide Refines, KindsOk, Subsequence, FromQueue, Decodable;
  }

  /** Whole frames and the beginning of one more: the parser finds the whole ones and no error. */
  lemma EventsOfPrefix(sent: seq<Sent>, out: seq<byte>, unsent: seq<byte>)
    requires forall i :: 0 <= i < |sent| ==> Decodable(sent[i].bytes)
    requires out != [] ==> unsent != [] && Decodable(out + unsent)
    ensures EventsOf(FrameBytes(sent) + out) == Decoded(sent) && Bad !in EventsOf(FrameBytes(sent) + out)
  {
    hide ScanAll, EventsOf, FrameBytes, Decodable, Decoded;
    NoBadDecoded(sent);
    ScanFinished(sent);
    PrefixScans(out, unsent);
    ScanAppend(Open([]), FrameBytes(sent), out);
    ScanIsSplit(FrameBytes(sent) + out);
    assert Decoded(sent) + [] == Decoded(sent);
  }

  /** Completely written frames are encoded frames, and the receiver's parser finds exactly them. */
  lemma UartDecodes(p: Pump, a: Account)
    requires BuffersOk(p, a) && Accounted(p, a)
    ensures forall i :: 0 <= i < |a.sent| ==> Decodable(a.sent[i].bytes)
    ensures EventsOf(OnUart(p, a)) == Decoded(a.sent) && Bad !in EventsOf(OnUart(p, a))
  {
    hide EventsOf, BuffersOk, Accounted, Subsequence, FrameBytes, Decodable, Staged, Decoded;
    WholeFrames(p, a);
    SubsequencePrefix(a.sent, Staged(p, a), a.log.finished);
    SubsequenceDecodable(a.sent, a.log.finished);
    assert p.pending[..p.pos] + p.pending[p.pos..] == p.pending;
    EventsOfPrefix(a.sent, p.pending[..p.pos], p.pending[p.pos..]);
  }

  /** Per ring, the frames written and staged are frames begun, hence queued frames in order. */
  lemma WrittenInOrder(p: Pump, a: Account, queued: seq<seq<byte>>, q: Queue)
    requires BuffersOk(p, a) && Accounted(p, a) && Subsequence(Started(a.log, q), queued)
    ensures Subsequence(FromQueue(a.sent + Staged(p, a), q), queued)
    ensures FromQueue(a.sent + Staged(p, a), Control) == Started(a.log, Control)
  {
    hide Refines, AllDecodable, KindsOk, Subsequence, FromQueue;
    SubsequenceOfRing(a.sent + Staged(p, a), a.log.finished, q);
    assert FromQueue(a.log.finished, q) + [] == FromQueue(a.log.finished, q);
    assert FromQueue(a.log.finished, Control) + [] == FromQueue(a.log.finished, Control);
    SubsequenceTransitive(FromQueue(a.sent + Staged(p, a), q), FromQueue(a.log.finished, q), queued);
  }

  /**
    What the UART has seen, said without the pump's own account of it: whole encoded frames and a
    proper prefix of the staged one; a receiver's parser finds exactly those frames and no error; per
    ring, the frames written or staged are frames queued on that ring, in order; and of the control
    ring every frame the multiplexer began is among them.
  */
  ghost predicate FramesOnUart(uart: seq<byte>, pump: Pump, sent: seq<Sent>, staged: seq<Sent>, muxOps: seq<Op>) {
    && pump.pos <= |pump.pending|
    && uart == FrameBytes(sent) + pump.pending[..pump.pos]
    && (forall i :: 0 <= i < |sent| ==> Decodable(sent[i].bytes))
    && (if pump.pending == [] then staged == []
        else pump.pos < |pump.pending| && Decodable(pump.pending) && |staged| == 1 && staged[0].bytes == pump.pending)
    && EventsOf(uart) == Decoded(sent) && Bad !in EventsOf(uart)
    && Subsequence(FromQueue(sent + staged, Control), Queued(INITIAL, muxOps, Control))
    && Subsequence(FromQueue(sent + staged, Data), Queued(INITIAL, muxOps, Data))
    && FromQueue(sent + staged, Control) == Started(LogRun(INITIAL, EMPTY_LOG, muxOps), Control)
  }

  /**
    Frame atomicity on the UART. Over every run of the main loop's transmit side, with a staging
    buffer of at least 512 bytes, any per-call budget and any short writes.
  */
  lemma UartAtomicity(ops: seq<PumpOp>)
    requires forall i :: 0 <= i < |ops| ==> Admissible(ops[i])
    ensures var e, b := PumpRun(IDLE_PUMP, ops), AccountRun(IDLE_PUMP, NOTHING, ops);
            FramesOnUart(e.uart, e.pump, b.sent, Staged(e.pump, b), AllMuxOps(IDLE_PUMP, ops))
  {
    hide PumpRun, AccountRun, AllMuxOps, Admissible, Subsequence, FromQueue, Decodable, Run, LogRun, Queued, Started,
         EventsOf, Decoded, Refines, KindsOk, FrameBytes;
    StartsIdle();
    PumpRunKeeps(IDLE_PUMP, NOTHING, ops);
    RunIsMuxRun(IDLE_PUMP, NOTHING, ops);
    var e, b, muxOps := PumpRun(IDLE_PUMP, ops), AccountRun(IDLE_PUMP, NOTHING, ops), AllMuxOps(IDLE_PUMP, ops);
    FrameAtomicity(muxOps);
    UartDecodes(e.pump, b);
    WrittenInOrder(e.pump, b, Queued(INITIAL, muxOps, Control), Control);
    WrittenInOrder(e.pump, b, Queued(INITIAL, muxOps, Data), Data);
    assert [] + e.uart == e.uart;
  }

  lemma StartsIdle()
    ensures BuffersOk(IDLE_PUMP, NOTHING) && Accounted(IDLE_PUMP, NOTHING)
    ensures OnUart(IDLE_PUMP, NOTHING) == []
  {
    EmptyRefines();
  }
}
