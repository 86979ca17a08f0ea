/**
  What the link session's entry points do to the transmit rings, call by call: each is a short run of
  the multiplexer's operations. So everything proved of the multiplexer holds of every sequence of
  calls on a session, and every reachable session can answer a RESET.
*/
module LinkSessionRuns {
  import opened Bytes
  import opened LinkCodec
  import opened LinkParser
  import opened TxMux
  import opened LinkSession
  import TxRuns

  /** The calls the main loop makes, and what it does to the receive ring in between. */
  datatype Call =
    | Receive(frame: Frame)
    | Consumed(count: nat)                       // the server read some bytes, credit is announced
    | ServerFailed(code: byte, detail: byte)
    | TakeServerTx(serverTx: seq<byte>)
    | ReadOut(max: nat)
    | DropQueuedData
    | ResetConnection                            // receive ring and queued data are dropped
    | TakeReset

  datatype Result = Result(session: Session, bytes: seq<byte>)

  /** `reset_connection_quiet`, as far as the session sees it. */
  function Rewired(s: Session): Session {
    s.(rx := [], mux := DropData(s.mux))
  }

  function Perform(s: Session, call: Call): (r: Result)
    requires s.Valid()
    ensures r.session.Valid()
  {
    match call
    case Receive(f) =>
      HandleKeepsValid(s, f);
      Result(HandleFrame(s, f).session, [])
    case Consumed(n) =>
      var t := s.(rx := s.rx[Min(n, |s.rx|)..]);
      QueueKeepsValid(t, Control, ACK_C2M, 0, 0, Le(Credit(t)));
      Result(CreditConsumed(t), [])
    case ServerFailed(code, detail) =>
      ErrorKeepsValid(s, code, detail);
      Result(ResetAfterError(s, code, detail).session, [])
    case TakeServerTx(serverTx) =>
      QueueKeepsValid(s, Data, DATA_M2C, s.txSeq, s.rxSeq, serverTx[..Min(|serverTx|, s.negotiated)]);
      Result(QueueServerTx(s, serverTx).session, [])
    case ReadOut(max) => var r := Read(s.mux, max); Result(s.(mux := r.mux), r.bytes)
    case DropQueuedData => Result(s.(mux := DropData(s.mux)), [])
    case ResetConnection => Result(Rewired(s), [])
    case TakeReset => Result(s.(resetRequested := false), [])
  }

  lemma ErrorKeepsValid(s: Session, code: byte, detail: byte)
    requires s.Valid()
    ensures ResetAfterError(s, code, detail).session.Valid()
  {
    hide QueueFrame, ReadyPayload, DropQueued;
    QueueKeepsValid(s, Control, ERROR, 0, 0, [code, detail]);
    var t := ResetKeepingControl(QueueError(s, code, detail).session);
    QueueKeepsValid(t, Control, READY, 0, 0, ReadyPayload(t));
  }

  // ----- as multiplexer operations -----

  function PutControl(kind: byte, seqNo: u16, ack: u16, payload: seq<byte>): TxRuns.Op {
    TxRuns.Put(Control, kind, seqNo, ack, payload)
  }

  /** HELLO and RESET empty the rings first; everything else only queues one reply. */
  function FrameOps(s: Session, f: Frame): seq<TxRuns.Op>
    requires s.Valid()
  {
    if f.kind == HELLO then
      var h := HelloSession(s, f);
      if h.None? then [PutControl(ERROR, 0, 0, [ERR_BAD_LENGTH, 0])]
      else [TxRuns.Reset, PutControl(READY, 0, 0, ReadyPayload(h.value))]
    else if f.kind == RESET then
      var r := ResetLink(s).(resetRequested := true);
      [TxRuns.Reset, PutControl(RESET_ACK, f.seqNo, f.ack, [])]
      + if QueueControl(r, RESET_ACK, f.seqNo, f.ack, []).ok then [PutControl(READY, 0, 0, ReadyPayload(s))] else []
    else if f.kind == DATA_C2M then
      var v := JudgeData(s, f);
      [PutControl(v.reply.kind, 0, v.reply.ack, v.reply.payload)]
    else if f.kind == RATE_PROBE then [PutControl(RATE_PROBE_ACK, f.seqNo, f.ack, f.payload)]
    else if f.kind == PING then [PutControl(PONG, f.seqNo, f.ack, f.payload)]
    else [PutControl(ERROR, 0, 0, [ERR_UNEXPECTED_TYPE, f.kind])]
  }

  /** The queueing `mc_link_session_queue_server_tx` attempts, if any. */
  function ServerPut(s: Session, serverTx: seq<byte>): Option<TxRuns.Op>
    requires s.Valid()
  {
    var n := Min(|serverTx|, s.negotiated);
    if !s.ready || n == 0 then None else Some(TxRuns.Put(Data, DATA_M2C, s.txSeq, s.rxSeq, serverTx[..n]))
  }

  function Ops(s: Session, call: Call): seq<TxRuns.Op>
    requires s.Valid()
  {
    match call
    case Receive(f) => FrameOps(s, f)
    case Consumed(n) => [PutControl(ACK_C2M, 0, 0, Le(Credit(s.(rx := s.rx[Min(n, |s.rx|)..]))))]
    case ServerFailed(code, detail) =>
      [PutControl(ERROR, 0, 0, [code, detail])]
      + if QueueError(s, code, detail).ok then [TxRuns.ResetKeeping, PutControl(READY, 0, 0, ReadyPayload(s))] else []
    case TakeServerTx(serverTx) => if ServerPut(s, serverTx).None? then [] else [ServerPut(s, serverTx).value]
    case ReadOut(max) => [TxRuns.Get(max)]
    case DropQueuedData => [TxRuns.Drop]
    case ResetConnection => [TxRuns.Drop]
    case TakeReset => []
  }

  /** Queueing a frame is one Put. */
  lemma QueueIsPut(s: Session, q: Queue, kind: byte, seqNo: u16, ack: u16, payload: seq<byte>)
    ensures var op := TxRuns.Put(q, kind, seqNo, ack, payload);
            && QueueFrame(s, q, kind, seqNo, ack, payload)
               == Handled(s.(mux := TxRuns.Step(s.mux, op).mux), TxRuns.Accepts(s.mux, op))
            && TxRuns.Step(s.mux, op).bytes == []
            && TxRuns.Run(s.mux, [op]) == ReadResult(QueueFrame(s, q, kind, seqNo, ack, payload).session.mux, [])
  {
    hide Wire, Enqueue;
    TxRuns.RunOne(s.mux, TxRuns.Put(q, kind, seqNo, ack, payload));
  }

  /** A silent operation and then a Put. */
  lemma ThenPut(m: Mux, op: TxRuns.Op, s: Session, kind: byte, seqNo: u16, ack: u16, payload: seq<byte>)
    requires TxRuns.Step(m, op) == ReadResult(s.mux, [])
    ensures TxRuns.Run(m, [op, PutControl(kind, seqNo, ack, payload)])
         == ReadResult(QueueControl(s, kind, seqNo, ack, payload).session.mux, [])
  {
    hide TxRuns.Step, TxRuns.Run, QueueFrame;
    TxRuns.RunOne(m, op);
    QueueIsPut(s, Control, kind, seqNo, ack, payload);
    assert [op] + [PutControl(kind, seqNo, ack, payload)] == [op, PutControl(kind, seqNo, ack, payload)];
    TxRuns.RunAppend(m, [op], [PutControl(kind, seqNo, ack, payload)]);
  }

  lemma ResetIsRun(s: Session, f: Frame)
    requires s.Valid() && f.kind == RESET
    ensures TxRuns.Run(s.mux, FrameOps(s, f)) == ReadResult(HandleFrame(s, f).session.mux, [])
  {
    hide TxRuns.Run, QueueFrame, ResetAll, ReadyBytes;
    var r := ResetLink(s).(resetRequested := true);
    ThenPut(s.mux, TxRuns.Reset, r, RESET_ACK, f.seqNo, f.ack, []);
    var first := [TxRuns.Reset, PutControl(RESET_ACK, f.seqNo, f.ack, [])];
    var acked := QueueControl(r, RESET_ACK, f.seqNo, f.ack, []);
    QueueKeepsValid(r, Control, RESET_ACK, f.seqNo, f.ack, []);
    if acked.ok {
      QueueIsPut(acked.session, Control, READY, 0, 0, ReadyPayload(s));
      TxRuns.RunAppend(s.mux, first, [PutControl(READY, 0, 0, ReadyPayload(s))]);
    } else {
      assert first + [] == first;
    }
  }

  lemma HelloIsRun(s: Session, f: Frame)
    requires s.Valid() && f.kind == HELLO
    ensures TxRuns.Run(s.mux, FrameOps(s, f)) == ReadResult(HandleFrame(s, f).session.mux, [])
  {
    hide TxRuns.Run, TxRuns.Accepts, QueueFrame, ResetAll, ReadyPayload, HelloSession, ValidHello;
    QueueIsPut(s, Control, ERROR, 0, 0, [ERR_BAD_LENGTH, 0]);
    var h := HelloSession(s, f);
    if h.Some? {
      ThenPut(s.mux, TxRuns.Reset, h.value, READY, 0, 0, ReadyPayload(h.value));
    }
  }

  lemma FrameIsRun(s: Session, f: Frame)
    requires s.Valid()
    ensures TxRuns.Run(s.mux, FrameOps(s, f)) == ReadResult(HandleFrame(s, f).session.mux, [])
  {
    hide TxRuns.Run, QueueFrame, HandleHello, HandleReset, JudgeData;
    if f.kind == HELLO {
      HelloIsRun(s, f);
    } else if f.kind == RESET {
      ResetIsRun(s, f);
    } else if f.kind == DATA_C2M {
      var v := JudgeData(s, f);
      QueueIsPut(v.session, Control, v.reply.kind, 0, v.reply.ack, v.reply.payload);
    } else if f.kind == RATE_PROBE {
      QueueIsPut(s, Control, RATE_PROBE_ACK, f.seqNo, f.ack, f.payload);
    } else if f.kind == PING {
      QueueIsPut(s, Control, PONG, f.seqNo, f.ack, f.payload);
    } else {
      QueueIsPut(s, Control, ERROR, 0, 0, [ERR_UNEXPECTED_TYPE, f.kind]);
    }
  }

  lemma ErrorIsRun(s: Session, code: byte, detail: byte)
    requires s.Valid()
    ensures TxRuns.Run(s.mux, Ops(s, ServerFailed(code, detail)))
         == ReadResult(ResetAfterError(s, code, detail).session.mux, [])
  {
    hide TxRuns.Run, TxRuns.Accepts, TxRuns.Step, QueueFrame, DropQueued, ReadyBytes;
    var put := [PutControl(ERROR, 0, 0, [code, detail])];
    var reported := QueueError(s, code, detail);
    QueueIsPut(s, Control, ERROR, 0, 0, [code, detail]);
    QueueKeepsValid(s, Control, ERROR, 0, 0, [code, detail]);
    if reported.ok {
      RecoveryIsRun(reported.session);
      TxRuns.RunAppend(s.mux, put, [TxRuns.ResetKeeping, PutControl(READY, 0, 0, ReadyPayload(s))]);
    } else {
      assert put + [] == put;
    }
  }

  lemma RecoveryIsRun(s: Session)
    ensures TxRuns.Run(s.mux, [TxRuns.ResetKeeping, PutControl(READY, 0, 0, ReadyPayload(s))])
         == ReadResult(QueueReady(ResetKeepingControl(s)).session.mux, [])
  {
    hide TxRuns.Run, TxRuns.Accepts, QueueFrame, DropQueued, ReadyBytes;
    ThenPut(s.mux, TxRuns.ResetKeeping, ResetKeepingControl(s), READY, 0, 0, ReadyPayload(s));
  }

  /** Every call on a session acts on its rings as a run of multiplexer operations. */
  lemma CallIsRun(s: Session, call: Call)
    requires s.Valid()
    ensures TxRuns.Run(s.mux, Ops(s, call)) == ReadResult(Perform(s, call).session.mux, Perform(s, call).bytes)
  {
    hide TxRuns.Run, QueueFrame, FrameOps, HandleFrame, DropData, Read;
    match call
    case Receive(f) => FrameIsRun(s, f);
    case Consumed(n) =>
      var t := s.(rx := s.rx[Min(n, |s.rx|)..]);
      QueueIsPut(t, Control, ACK_C2M, 0, 0, Le(Credit(t)));
    case ServerFailed(code, detail) => ErrorIsRun(s, code, detail);
    case TakeServerTx(serverTx) => TakeIsRun(s, serverTx);
    case ReadOut(max) => TxRuns.RunOne(s.mux, TxRuns.Get(max));
    case DropQueuedData => TxRuns.RunOne(s.mux, TxRuns.Drop);
    case ResetConnection => TxRuns.RunOne(s.mux, TxRuns.Drop);
    case TakeReset => TxRuns.NoOps(s.mux);
  }

  lemma RefusedPut(m: Mux, put: TxRuns.Op)
    requires put.Put? && !TxRuns.Accepts(m, put)
    ensures TxRuns.Step(m, put).mux == m
  {
    hide Wire, Enqueue;
  }

  /** Queueing server output is that Put. */
  lemma TakeIsPut(s: Session, serverTx: seq<byte>)
    requires s.Valid()
    ensures var put := ServerPut(s, serverTx);
            && QueueServerTx(s, serverTx).session.mux
               == (if put.Some? then TxRuns.Step(s.mux, put.value).mux else s.mux)
            && QueueServerTx(s, serverTx).session.Valid()
  {
    hide TxRuns.Step, TxRuns.Run, TxRuns.Accepts, QueueFrame;
    var n := Min(|serverTx|, s.negotiated);
    QueueIsPut(s, Data, DATA_M2C, s.txSeq, s.rxSeq, serverTx[..n]);
    var put := TxRuns.Put(Data, DATA_M2C, s.txSeq, s.rxSeq, serverTx[..n]);
    if !TxRuns.Accepts(s.mux, put) {
      RefusedPut(s.mux, put);
    }
    QueueKeepsValid(s, Data, DATA_M2C, s.txSeq, s.rxSeq, serverTx[..n]);
  }

  lemma TakeIsRun(s: Session, serverTx: seq<byte>)
    requires s.Valid()
    ensures TxRuns.Run(s.mux, Ops(s, TakeServerTx(serverTx))) == ReadResult(QueueServerTx(s, serverTx).session.mux, [])
  {
    hide TxRuns.Run, QueueFrame;
    var n := Min(|serverTx|, s.negotiated);
    TxRuns.NoOps(s.mux);
    QueueIsPut(s, Data, DATA_M2C, s.txSeq, s.rxSeq, serverTx[..n]);
  }

  // ----- whole runs -----

  function PerformAll(s: Session, calls: seq<Call>): (r: Result)
    requires s.Valid()
    ensures r.session.Valid()
    decreases |calls|
  {
    if calls == [] then Result(s, [])
    else
      var first := Perform(s, calls[0]);
      var rest := PerformAll(first.session, calls[1..]);
      Result(rest.session, first.bytes + rest.bytes)
  }

  function AllOps(s: Session, calls: seq<Call>): seq<TxRuns.Op>
    requires s.Valid()
    decreases |calls|
  {
    if calls == [] then [] else Ops(s, calls[0]) + AllOps(Perform(s, calls[0]).session, calls[1..])
  }

  lemma {:induction false} CallsAreRun(s: Session, calls: seq<Call>)
    requires s.Valid()
    ensures TxRuns.Run(s.mux, AllOps(s, calls))
         == ReadResult(PerformAll(s, calls).session.mux, PerformAll(s, calls).bytes)
    decreases |calls|
  {
    if calls == [] {
      TxRuns.NoOps(s.mux);
    } else {
      hide TxRuns.Run, Ops, Perform;
      CallIsRun(s, calls[0]);
      var t := Perform(s, calls[0]).session;
      CallsAreRun(t, calls[1..]);
      TxRuns.RunAppend(s.mux, Ops(s, calls[0]), AllOps(t, calls[1..]));
    }
  }

  /** The multiplexer's frame log after a sequence of calls on a session fresh from initialisation. */
  function LogOf(calls: seq<Call>): Log {
    TxRuns.LogRun(INITIAL, EMPTY_LOG, AllOps(BOOTED, calls))
  }

  /**
    Frame atomicity of the session. Over every sequence of handled frames, errors, server output,
    partial reads, drops and resets, the bytes read out are whole frames and a proper prefix of at
    most one more, and a receiver's parser finds exactly the finished frames.
  */
  lemma SessionAtomicity(calls: seq<Call>)
    ensures var r, log := PerformAll(BOOTED, calls), LogOf(calls);
            && Refines(r.session.mux, log)
            && r.bytes == FrameBytes(log.finished) + log.out
            && (log.out != [] ==> log.unsent != [] && Delimited(log.out + log.unsent))
            && EventsOf(r.bytes) == TxRuns.Decoded(log.finished) && Bad !in EventsOf(r.bytes)
  {
    hide TxRuns.Run, TxRuns.LogRun, PerformAll, AllOps, FrameBytes, EventsOf, TxRuns.Decoded, Refines,
      TxRuns.Subsequence, TxRuns.Queued, TxRuns.FromQueue;
    var ops := AllOps(BOOTED, calls);
    CallsAreRun(BOOTED, calls);
    TxRuns.EmptyRefines();
    TxRuns.RunRefines(INITIAL, EMPTY_LOG, ops);
    TxRuns.FrameAtomicity(ops);
    TxRuns.ReceiverFindsFinishedFrames(ops);
  }

  /** In a reachable session at most one frame's worth is still to be sent of the frame begun. */
  lemma ReachableBounded(calls: seq<Call>)
    ensures MuxBounded(PerformAll(BOOTED, calls).session.mux)
    ensures TxRuns.AllDecodable(LogOf(calls))
  {
    hide TxRuns.Run, TxRuns.LogRun, PerformAll, AllOps, FrameBytes, Log.Emitted, Unwire;
    CallsAreRun(BOOTED, calls);
    TxRuns.EmptyRefines();
    TxRuns.RunRefines(INITIAL, EMPTY_LOG, AllOps(BOOTED, calls));
    TxRuns.RunKeepsDecodable(INITIAL, EMPTY_LOG, AllOps(BOOTED, calls));
  }

  /**
    Every reachable session answers RESET: RESET_ACK and READY fit the control ring, directly behind
    the unsent part of a frame already begun, counters and receive ring are cleared, and nothing else
    is left to send.
  */
  lemma ResetAlwaysAnswered(calls: seq<Call>, f: Frame)
    ensures var s := PerformAll(BOOTED, calls).session;
            var t, m := HandleReset(s, f).session, ResetAll(s.mux);
            && HandleReset(s, f).ok
            && t.rxSeq == 0 && t.txSeq == 0 && t.rx == [] && t.ready && t.resetRequested
            && t.mux.data == m.data && |m.data| <= MAX_ENCODED_LEN && |m.control| <= MAX_ENCODED_LEN
            && (s.mux.active != Sending(Data) ==> m.data == [])
            && (s.mux.active != Sending(Control) ==> m.control == [])
            && t.mux.control == m.control + Wire(RESET_ACK, f.seqNo, f.ack, []) + Wire(READY, 0, 0, ReadyPayload(s))
  {
    hide PerformAll, HandleReset, ResetAll, Wire;
    ReachableBounded(calls);
    BoundedAnswersReset(PerformAll(BOOTED, calls).session, f);
  }
}
