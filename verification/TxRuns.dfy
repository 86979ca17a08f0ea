/**
  Frame atomicity over whole runs of the transmit multiplexer: any interleaving of queueing,
  partial reads, data drops and resets.
*/
module TxRuns {
  import opened Bytes
  import Cobs
  import opened LinkCodec
  import opened LinkParser
  import opened TxMux

  datatype Op =
    | Put(queue: Queue, kind: byte, seqNo: u16, ack: u16, payload: seq<byte>)
    | Get(max: nat)
    | Drop          // a logical session reset drops queued data
    | ResetKeeping  // reset after an error: queued control frames survive
    | Reset         // HELLO or RESET: both rings are emptied

  /** The encoded frame a `Put` asks for, unless the encoder refuses its payload. */
  function Encoded(op: Op): Option<seq<byte>>
    requires op.Put?
  {
    if |op.payload| <= MAX_PAYLOAD then Some(Wire(op.kind, op.seqNo, op.ack, op.payload)) else None
  }

  predicate Accepts(m: Mux, op: Op) {
    op.Put? && Encoded(op).Some? && Enqueue(m, op.queue, Encoded(op).value).Some?
  }

  function Step(m: Mux, op: Op): ReadResult {
    match op
    case Put(q, _, _, _, _) => ReadResult(if Accepts(m, op) then Enqueue(m, q, Encoded(op).value).value else m, [])
    case Get(max) => Read(m, max)
    case Drop => ReadResult(DropData(m), [])
    case ResetKeeping => ReadResult(DropQueued(m, Data), [])
    case Reset => ReadResult(ResetAll(m), [])
  }

  /** Final rings and everything read out. */
  function Run(m: Mux, ops: seq<Op>): ReadResult
    decreases |ops|
  {
    if ops == [] then ReadResult(m, [])
    else
      var first := Step(m, ops[0]);
      var rest := Run(first.mux, ops[1..]);
      ReadResult(rest.mux, first.bytes + rest.bytes)
  }

  /** The frames a run really queued on one ring, in order. */
  function Queued(m: Mux, ops: seq<Op>, q: Queue): seq<seq<byte>>
    decreases |ops|
  {
    if ops == [] then []
    else
      (if Accepts(m, ops[0]) && ops[0].queue == q then [Encoded(ops[0]).value] else [])
      + Queued(Step(m, ops[0]).mux, ops[1..], q)
  }

  function LogStep(m: Mux, log: Log, op: Op): Log {
    match op
    case Put(q, _, _, _, _) => if Accepts(m, op) then LogEnqueue(log, q, Encoded(op).value) else log
    case Get(max) => LogRead(log, max)
    case Drop => log.SetWaiting(Data, [])
    case ResetKeeping => log.SetWaiting(Data, [])
    case Reset => log.SetWaiting(Data, []).SetWaiting(Control, [])
  }

  function LogRun(m: Mux, log: Log, ops: seq<Op>): Log
    decreases |ops|
  {
    if ops == [] then log else LogRun(Step(m, ops[0]).mux, LogStep(m, log, ops[0]), ops[1..])
  }

  // ----- runs one after the other -----

  lemma NoOps(m: Mux)
    ensures Run(m, []) == ReadResult(m, [])
  {
  }

  lemma RunOne(m: Mux, op: Op)
    ensures Run(m, [op]) == Step(m, op)
  {
    hide Step;
    assert [op][1..] == [];
    assert Step(m, op).bytes + [] == Step(m, op).bytes;
  }

  lemma NoLog(m: Mux, log: Log)
    ensures LogRun(m, log, []) == log
  {
  }

  lemma LogRunOne(m: Mux, log: Log, op: Op)
    ensures LogRun(m, log, [op]) == LogStep(m, log, op)
  {
    hide Step, LogStep;
    assert [op][1..] == [];
  }

  lemma {:induction false} RunAppend(m: Mux, a: seq<Op>, b: seq<Op>)
    ensures var x := Run(m, a);
            var y := Run(x.mux, b);
            Run(m, a + b) == ReadResult(y.mux, x.bytes + y.bytes)
    decreases |a|
  {
    hide Step;
    if a == [] {
      assert a + b == b;
    } else {
      var first := Step(m, a[0]);
      RunAppend(first.mux, a[1..], b);
      assert (a + b)[1..] == a[1..] + b;
      var x := Run(first.mux, a[1..]);
      Regroup(first.bytes, x.bytes, Run(x.mux, b).bytes);
    }
  }

  lemma {:induction false} LogRunAppend(m: Mux, log: Log, a: seq<Op>, b: seq<Op>)
    ensures LogRun(m, log, a + b) == LogRun(Run(m, a).mux, LogRun(m, log, a), b)
    decreases |a|
  {
    hide Step, LogStep;
    if a == [] {
      assert a + b == b;
    } else {
      LogRunAppend(Step(m, a[0]).mux, LogStep(m, log, a[0]), a[1..], b);
      assert (a + b)[1..] == a[1..] + b;
    }
  }

  // ----- the output is whole frames and at most one prefix -----

  lemma StepRefines(m: Mux, log: Log, op: Op)
    requires Refines(m, log)
    ensures Refines(Step(m, op).mux, LogStep(m, log, op))
    ensures LogStep(m, log, op).Emitted() == log.Emitted() + Step(m, op).bytes
  {
    hide Refines, Log.Emitted, Enqueue, Read, LogEnqueue, LogRead, Wire, DropQueued;
    match op
    case Put(q, kind, seqNo, ack, payload) =>
      if Accepts(m, op) {
        WireShape(kind, seqNo, ack, payload);
        EnqueueRefines(m, log, q, Encoded(op).value);
      }
      assert log.Emitted() + [] == log.Emitted();
    case Get(max) =>
      ReadRefines(m, log, max);
    case Drop =>
      DropRefines(m, log, Data);
      IdleIsClear(m, log, Data);
      assert log.Emitted() + [] == log.Emitted();
    case ResetKeeping =>
      DropRefines(m, log, Data);
      assert log.Emitted() + [] == log.Emitted();
    case Reset =>
      DropRefines(m, log, Data);
      DropRefines(DropQueued(m, Data), log.SetWaiting(Data, []), Control);
      IdleIsClear(m, log, Data);
      IdleIsClear(DropQueued(m, Data), log.SetWaiting(Data, []), Control);
      assert log.Emitted() + [] == log.Emitted();
  }

  lemma IdleIsClear(m: Mux, log: Log, q: Queue)
    requires Refines(m, log)
    ensures m.active == Idle ==> Clear(DropQueued(m, q)) == DropQueued(m, q)
    ensures DropQueued(m, q).active == m.active
  {
  }

  lemma {:induction false} RunRefines(m: Mux, log: Log, ops: seq<Op>)
    requires Refines(m, log)
    ensures Refines(Run(m, ops).mux, LogRun(m, log, ops))
    ensures LogRun(m, log, ops).Emitted() == log.Emitted() + Run(m, ops).bytes
    decreases |ops|
  {
    hide Refines, Log.Emitted, Step, LogStep;
    if ops == [] {
      assert log.Emitted() + [] == log.Emitted();
    } else {
      StepRefines(m, log, ops[0]);
      RunRefines(Step(m, ops[0]).mux, LogStep(m, log, ops[0]), ops[1..]);
      Regroup(log.Emitted(), Step(m, ops[0]).bytes, Run(Step(m, ops[0]).mux, ops[1..]).bytes);
    }
  }

  // ----- and those frames are queued frames, in order -----

  /** Frames of one ring whose transmission has begun, oldest first. */
  function FromQueue(sent: seq<Sent>, q: Queue): seq<seq<byte>> {
    if sent == [] then []
    else
      var last := sent[|sent| - 1];
      FromQueue(sent[..|sent| - 1], q) + (if last.queue == q then [last.bytes] else [])
  }

  function Started(log: Log, q: Queue): seq<seq<byte>> {
    FromQueue(log.finished, q) + (if log.Serving() == Sending(q) then [log.out + log.unsent] else [])
  }

  /** a is b with some elements left out. */
  predicate Subsequence<T(==)>(a: seq<T>, b: seq<T>)
    decreases |b|
  {
    if a == [] then true
    else if b == [] then false
    else
      var af, bf := a[..|a| - 1], b[..|b| - 1];
      (a[|a| - 1] == b[|b| - 1] && Subsequence(af, bf)) || Subsequence(a, bf)
  }

  lemma SubsequenceSnoc<T>(a: seq<T>, b: seq<T>, x: T)
    requires Subsequence(a, b)
    ensures Subsequence(a + [x], b + [x])
  {
    assert (a + [x])[..|a|] == a && (b + [x])[..|b|] == b;
  }

  lemma {:induction false} SubsequenceFront<T>(a: seq<T>, b: seq<T>)
    requires a != [] && Subsequence(a, b)
    ensures Subsequence(a[..|a| - 1], b)
    decreases |b|
  {
    var af, bf := a[..|a| - 1], b[..|b| - 1];
    if Subsequence(a, bf) {
      SubsequenceFront(a, bf);
    }
  }

  lemma {:induction false} SubsequencePrefix<T>(a: seq<T>, rest: seq<T>, b: seq<T>)
    requires Subsequence(a + rest, b)
    ensures Subsequence(a, b)
    decreases |rest|
  {
    if rest == [] {
      assert a + rest == a;
    } else {
      SubsequenceFront(a + rest, b);
      assert (a + rest)[..|a + rest| - 1] == a + rest[..|rest| - 1];
      SubsequencePrefix(a, rest[..|rest| - 1], b);
    }
  }

  lemma {:induction false} SubsequenceTransitive<T>(a: seq<T>, b: seq<T>, c: seq<T>)
    requires Subsequence(a, b) && Subsequence(b, c)
    ensures Subsequence(a, c)
    decreases |c|
  {
    if a != [] && b != [] {
      var af, bf, cf := a[..|a| - 1], b[..|b| - 1], c[..|c| - 1];
      if Subsequence(b, cf) {
        SubsequenceTransitive(a, b, cf);
      } else if Subsequence(a, bf) {
        SubsequenceTransitive(a, bf, cf);
      } else {
        SubsequenceTransitive(af, bf, cf);
      }
    }
  }

  /** Leaving frames out leaves out frames of each ring. */
  lemma {:induction false} SubsequenceOfRing(a: seq<Sent>, b: seq<Sent>, q: Queue)
    requires Subsequence(a, b)
    ensures Subsequence(FromQueue(a, q), FromQueue(b, q))
    decreases |b|
  {
    if a != [] && b != [] {
      var af, bf := a[..|a| - 1], b[..|b| - 1];
      var last := b[|b| - 1];
      if Subsequence(a, bf) {
        SubsequenceOfRing(a, bf, q);
        if last.queue == q {
          SubsequenceSkip(FromQueue(a, q), FromQueue(bf, q), last.bytes);
        } else {
          assert FromQueue(bf, q) + [] == FromQueue(bf, q);
        }
      } else {
        SubsequenceOfRing(af, bf, q);
        if last.queue == q {
          SubsequenceSnoc(FromQueue(af, q), FromQueue(bf, q), last.bytes);
        } else {
          assert FromQueue(af, q) + [] == FromQueue(af, q) && FromQueue(bf, q) + [] == FromQueue(bf, q);
        }
      }
    }
  }

  lemma SubsequenceSkip<T>(a: seq<T>, b: seq<T>, x: T)
    requires Subsequence(a, b)
    ensures Subsequence(a, b + [x])
  {
    assert (b + [x])[..|b|] == b;
  }

  /** What frames have in common, those left when some are left out have too. */
  lemma {:induction false} SubsequenceDecodable(a: seq<Sent>, b: seq<Sent>)
    requires Subsequence(a, b)
    requires forall i :: 0 <= i < |b| ==> Decodable(b[i].bytes)
    ensures forall i :: 0 <= i < |a| ==> Decodable(a[i].bytes)
    decreases |b|
  {
    hide Decodable;
    if a != [] && b != [] {
      var af, bf := a[..|a| - 1], b[..|b| - 1];
      if Subsequence(a, bf) {
        SubsequenceDecodable(a, bf);
      } else {
        SubsequenceDecodable(af, bf);
        assert a[|a| - 1] == b[|b| - 1];
        assert forall i :: 0 <= i < |af| ==> a[i] == af[i];
      }
    }
  }

  /** What has begun and what still waits. */
  function Lineup(log: Log, q: Queue): seq<seq<byte>> {
    Started(log, q) + log.Waiting(q)
  }

  lemma StartKeepsLineup(log: Log, from: Queue, q: Queue)
    requires log.unsent == [] && log.Waiting(from) != [] && log.Waiting(from)[0] != []
    ensures Lineup(LogStart(log, from), q) == Lineup(log, q)
  {
    hide FromQueue;
    var f := log.Waiting(from)[0];
    if from == q {
      assert [] + f == f;
      assert FromQueue(log.finished, q) + [f] + log.Waiting(q)[1..]
          == FromQueue(log.finished, q) + [] + log.Waiting(q);
    }
  }

  lemma AdvanceKeepsLineup(log: Log, n: nat, q: Queue)
    requires 0 < n <= |log.unsent|
    ensures Lineup(LogAdvance(log, n), q) == Lineup(log, q)
  {
    if n < |log.unsent| {
      assert log.out + log.unsent[..n] + log.unsent[n..] == log.out + log.unsent;
    } else {
      var f := Sent(log.from, log.out + log.unsent);
      assert (log.finished + [f])[..|log.finished|] == log.finished;
      assert Started(LogAdvance(log, n), q) == Started(log, q);
    }
  }

  lemma ReadKeepsLineup(log: Log, max: nat, q: Queue)
    requires log.Valid()
    ensures Lineup(LogRead(log, max), q) == Lineup(log, q)
  {
    hide Lineup;
    var s := LogSelect(log);
    if max > 0 {
      if log.unsent == [] {
        if log.control != [] {
          assert Delimited(log.control[0]);
          StartKeepsLineup(log, Control, q);
        } else if log.data != [] {
          assert Delimited(log.data[0]);
          StartKeepsLineup(log, Data, q);
        }
      }
      if s.unsent != [] {
        AdvanceKeepsLineup(s, Min(|s.unsent|, max), q);
      }
    }
  }

  lemma DropKeepsOrder(log: Log, dropped: Queue, q: Queue, queued: seq<seq<byte>>)
    requires Subsequence(Lineup(log, q), queued)
    ensures Subsequence(Lineup(log.SetWaiting(dropped, []), q), queued)
  {
    hide FromQueue, Subsequence;
    if dropped == q {
      SubsequencePrefix(Started(log, q), log.Waiting(q), queued);
      assert Started(log.SetWaiting(q, []), q) == Started(log, q);
      assert Started(log, q) + [] == Started(log, q);
    }
  }

  /** The frames a single step queues on a ring. */
  function QueuedNow(m: Mux, op: Op, q: Queue): seq<seq<byte>> {
    if Accepts(m, op) && op.queue == q then [Encoded(op).value] else []
  }

  lemma StepKeepsOrder(m: Mux, log: Log, op: Op, q: Queue, queued: seq<seq<byte>>)
    requires log.Valid()
    requires Subsequence(Lineup(log, q), queued)
    ensures Subsequence(Lineup(LogStep(m, log, op), q), queued + QueuedNow(m, op, q))
  {
    hide Lineup, Subsequence, LogRead, Wire, Enqueue;
    assert queued + [] == queued;
    match op
    case Put(_, _, _, _, _) =>
      if Accepts(m, op) {
        EnqueueLineup(log, op.queue, Encoded(op).value, q);
        assert Lineup(log, q) + [] == Lineup(log, q);
        if op.queue == q {
          SubsequenceSnoc(Lineup(log, q), queued, Encoded(op).value);
        }
      }
    case Get(max) => ReadKeepsLineup(log, max, q);
    case Drop => DropKeepsOrder(log, Data, q, queued);
    case ResetKeeping => DropKeepsOrder(log, Data, q, queued);
    case Reset =>
      DropKeepsOrder(log, Data, q, queued);
      DropKeepsOrder(log.SetWaiting(Data, []), Control, q, queued);
  }

  lemma EnqueueLineup(log: Log, on: Queue, frame: seq<byte>, q: Queue)
    ensures Lineup(LogEnqueue(log, on, frame), q) == Lineup(log, q) + if on == q then [frame] else []
  {
    hide FromQueue;
    assert Started(LogEnqueue(log, on, frame), q) == Started(log, q);
    if on == q {
      Regroup(Started(log, q), log.Waiting(q), [frame]);
    }
  }

  lemma {:induction false} RunKeepsOrder(m: Mux, log: Log, ops: seq<Op>, q: Queue, queued: seq<seq<byte>>)
    requires Refines(m, log)
    requires Subsequence(Lineup(log, q), queued)
    ensures Subsequence(Lineup(LogRun(m, log, ops), q), queued + Queued(m, ops, q))
    decreases |ops|
  {
    hide Lineup, Subsequence, Step, LogStep, Accepts;
    if ops == [] {
      assert queued + [] == queued;
    } else {
      StepRefines(m, log, ops[0]);
      StepKeepsOrder(m, log, ops[0], q, queued);
      var next := queued + QueuedNow(m, ops[0], q);
      RunKeepsOrder(Step(m, ops[0]).mux, LogStep(m, log, ops[0]), ops[1..], q, next);
      Regroup(queued, QueuedNow(m, ops[0], q), Queued(Step(m, ops[0]).mux, ops[1..], q));
    }
  }

  /**
    Frame atomicity. After any run from an empty multiplexer, everything read out is the
    concatenation of completely sent frames and a proper prefix of at most one more frame; per
    ring, the frames begun are the queued frames in order, with only whole frames left out.
  */
  lemma FrameAtomicity(ops: seq<Op>)
    ensures var log := LogRun(INITIAL, EMPTY_LOG, ops);
            && Run(INITIAL, ops).bytes == FrameBytes(log.finished) + log.out
            && (log.out != [] ==> log.unsent != [] && Delimited(log.out + log.unsent))
            && Subsequence(Started(log, Control), Queued(INITIAL, ops, Control))
            && Subsequence(Started(log, Data), Queued(INITIAL, ops, Data))
  {
    hide Run, LogRun, Queued, Subsequence, FromQueue, FrameBytes;
    RunFromStart(ops);
    ForRing(ops, Control);
    ForRing(ops, Data);
  }

  lemma EmptyRefines()
    ensures Refines(INITIAL, EMPTY_LOG) && AllDecodable(EMPTY_LOG)
    ensures EMPTY_LOG.Emitted() == []
    ensures Lineup(EMPTY_LOG, Control) == [] && Lineup(EMPTY_LOG, Data) == []
  {
  }

  lemma RunFromStart(ops: seq<Op>)
    ensures var log := LogRun(INITIAL, EMPTY_LOG, ops);
            log.Valid() && Run(INITIAL, ops).bytes == log.Emitted()
  {
    hide Run, LogRun, Log.Emitted;
    EmptyRefines();
    RunRefines(INITIAL, EMPTY_LOG, ops);
    assert [] + Run(INITIAL, ops).bytes == Run(INITIAL, ops).bytes;
  }

  lemma ForRing(ops: seq<Op>, q: Queue)
    ensures Subsequence(Started(LogRun(INITIAL, EMPTY_LOG, ops), q), Queued(INITIAL, ops, q))
  {
    hide Run, LogRun, Queued, FromQueue;
    EmptyRefines();
    var log := LogRun(INITIAL, EMPTY_LOG, ops);
    RunKeepsOrder(INITIAL, EMPTY_LOG, ops, q, []);
    assert [] + Queued(INITIAL, ops, q) == Queued(INITIAL, ops, q);
    SubsequencePrefix(Started(log, q), log.Waiting(q), Queued(INITIAL, ops, q));
  }

  // ----- so the receiver decodes exactly the finished frames -----

  ghost predicate Decodable(f: seq<byte>) {
    Delimited(f) && |f| <= MAX_ENCODED_LEN && Unwire(f).Some?
  }

  ghost predicate AllDecodable(log: Log) {
    && (forall i :: 0 <= i < |log.control| ==> Decodable(log.control[i]))
    && (forall i :: 0 <= i < |log.data| ==> Decodable(log.data[i]))
    && (forall i :: 0 <= i < |log.finished| ==> Decodable(log.finished[i].bytes))
    && (log.unsent != [] ==> Decodable(log.out + log.unsent))
  }

  lemma SelectKeepsDecodable(log: Log)
    requires AllDecodable(log) && log.Valid()
    ensures AllDecodable(LogSelect(log))
  {
    hide Decodable;
    if log.unsent == [] {
      if log.control != [] {
        assert [] + log.control[0] == log.control[0];
      } else if log.data != [] {
        assert [] + log.data[0] == log.data[0];
      }
    }
  }

  lemma AdvanceKeepsDecodable(log: Log, n: nat)
    requires AllDecodable(log) && 0 < n <= |log.unsent|
    ensures AllDecodable(LogAdvance(log, n))
  {
    hide Decodable;
    if n < |log.unsent| {
      assert log.out + log.unsent[..n] + log.unsent[n..] == log.out + log.unsent;
    }
  }

  lemma StepKeepsDecodable(m: Mux, log: Log, op: Op)
    requires AllDecodable(log) && log.Valid()
    ensures AllDecodable(LogStep(m, log, op))
  {
    hide Decodable, Wire, Enqueue;
    match op
    case Put(_, kind, seqNo, ack, payload) =>
      if Accepts(m, op) {
        WireDecodable(kind, seqNo, ack, payload);
      }
    case Get(max) =>
      SelectKeepsDecodable(log);
      var s := LogSelect(log);
      if max > 0 && s.unsent != [] {
        AdvanceKeepsDecodable(s, Min(|s.unsent|, max));
      }
    case Drop =>
    case ResetKeeping =>
    case Reset =>
  }

  lemma WireDecodable(kind: byte, seqNo: u16, ack: u16, payload: seq<byte>)
    requires |payload| <= MAX_PAYLOAD
    ensures Decodable(Wire(kind, seqNo, ack, payload))
  {
    hide Wire, Unwire;
    WireShape(kind, seqNo, ack, payload);
    UnwireWire(kind, seqNo, ack, payload);
  }

  lemma {:induction false} RunKeepsDecodable(m: Mux, log: Log, ops: seq<Op>)
    requires Refines(m, log) && AllDecodable(log)
    ensures AllDecodable(LogRun(m, log, ops))
    decreases |ops|
  {
    hide AllDecodable, Step, LogStep;
    if ops == [] {
    } else {
      StepRefines(m, log, ops[0]);
      StepKeepsDecodable(m, log, ops[0]);
      RunKeepsDecodable(Step(m, ops[0]).mux, LogStep(m, log, ops[0]), ops[1..]);
    }
  }

  function Decoded(sent: seq<Sent>): seq<Event> {
    if sent == [] then []
    else
      var f := Unwire(sent[|sent| - 1].bytes);
      Decoded(sent[..|sent| - 1]) + (if f.Some? then [Got(f.value)] else [Bad])
  }

  lemma {:induction false} ScanFinished(sent: seq<Sent>)
    requires forall i :: 0 <= i < |sent| ==> Decodable(sent[i].bytes)
    ensures ScanAll(Open([]), FrameBytes(sent)) == Outcome(Open([]), Decoded(sent))
    decreases |sent|
  {
    if sent == [] {
    } else {
      var n := |sent| - 1;
      ScanFinished(sent[..n]);
      ScanFrame(sent[n].bytes);
      hide ScanAll, Unwire;
      ScanAppend(Open([]), FrameBytes(sent[..n]), sent[n].bytes);
    }
  }

  lemma ScanFrame(f: seq<byte>)
    requires Decodable(f)
    ensures ScanAll(Open([]), f) == Outcome(Open([]), [Got(Unwire(f).value)])
  {
    hide ScanAll, Cobs.Decode, Unseal;
    assert f == f[..|f| - 1] + [DELIMITER];
    ScanSegment(f[..|f| - 1]);
  }

  /**
    On a faithful channel the receiver's parser, at any point of any run, has found exactly the
    finished frames, in order and without a single error event.
  */
  lemma ReceiverFindsFinishedFrames(ops: seq<Op>)
    ensures EventsOf(Run(INITIAL, ops).bytes) == Decoded(LogRun(INITIAL, EMPTY_LOG, ops).finished)
    ensures Bad !in EventsOf(Run(INITIAL, ops).bytes)
  {
    hide ScanAll, LogRun, Run, Unwire, Queued, Subsequence, FromQueue, Decodable, FrameBytes, EventsOf, Refines;
    var log := LogRun(INITIAL, EMPTY_LOG, ops);
    FrameAtomicity(ops);
    EmptyRefines();
    RunKeepsDecodable(INITIAL, EMPTY_LOG, ops);
    ScanFinished(log.finished);
    NoBadDecoded(log.finished);
    PrefixScans(log.out, log.unsent);
    ScanAppend(Open([]), FrameBytes(log.finished), log.out);
    ScanIsSplit(Run(INITIAL, ops).bytes);
    assert Decoded(log.finished) + [] == Decoded(log.finished);
  }

  lemma PrefixScans(out: seq<byte>, unsent: seq<byte>)
    requires out != [] ==> unsent != [] && Decodable(out + unsent)
    ensures ScanAll(Open([]), out) == Outcome(Open(out), [])
  {
    hide ScanAll, Unwire;
    if out != [] {
      var f := out + unsent;
      assert forall i :: 0 <= i < |out| ==> out[i] == f[..|f| - 1][i];
    }
    ScanNonzero(Open([]), out);
    assert [] + out == out;
  }

  lemma {:induction false} NoBadDecoded(sent: seq<Sent>)
    requires forall i :: 0 <= i < |sent| ==> Decodable(sent[i].bytes)
    ensures Bad !in Decoded(sent)
    decreases |sent|
  {
    if sent != [] {
      NoBadDecoded(sent[..|sent| - 1]);
      assert Decodable(sent[|sent| - 1].bytes);
    }
  }
}
