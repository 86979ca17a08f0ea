/**
  The handshake's frame queues are what the session's byte rings hold. A received frame does to the
  queues what `handle_frame` and the main loop behind it do to the session; so `Handshake` speaks of
  the firmware's own handlers.
*/
module HandshakeRefines {
  import opened Bytes
  import opened LinkCodec
  import opened TxMux
  import opened LinkSession
  import opened LinkSessionRuns
  import opened Handshake
  import TxRuns

  function WireOf(f: Frame): seq<byte> {
    if |f.payload| <= MAX_PAYLOAD then Wire(f.kind, f.seqNo, f.ack, f.payload) else []
  }

  /** The waiting frames of a ring are the encodings of a queue of frames. */
  ghost predicate Encodes(frames: seq<seq<byte>>, queue: seq<Frame>) {
    |frames| == |queue| && forall i :: 0 <= i < |queue| ==> frames[i] == WireOf(queue[i])
  }

  /** Equal but for the rings and the reset flag, which the queues of the handshake stand for. */
  predicate Same(s: Session, t: Session) {
    s.(mux := t.mux, resetRequested := t.resetRequested) == t
  }

  /** A session with rings, and the handshake's firmware with queues; a frame begun counts as sent. */
  ghost predicate Represents(s: Session, log: Log, w: World) {
    && Refines(s.mux, log)
    && TxRuns.AllDecodable(log)
    && Same(s, w.firmware)
    && Encodes(log.control, ToFrames(w.control))
    && Encodes(log.data, w.data)
  }

  /** `pump_link_rx` behind one frame: a failure or a RESET also resets the connection. */
  function AfterReceive(h: Handled): (r: Session)
    ensures !r.resetRequested
  {
    var s := if h.ok then h.session else Rewired(h.session);
    if s.resetRequested then Rewired(s).(resetRequested := false) else s
  }

  lemma EncodesSnoc(frames: seq<seq<byte>>, queue: seq<Frame>, f: Frame)
    requires Encodes(frames, queue)
    ensures Encodes(frames + [WireOf(f)], queue + [f])
  {
    hide WireOf;
  }

  lemma ToFramesSnoc(ms: seq<Message>, m: Message)
    ensures ToFrames(ms + [m]) == ToFrames(ms) + [ToFrame(m)]
  {
    hide ToFrame;
  }

  /** A reply queued on the ring is a message queued at the end. */
  lemma PutRepresents(s: Session, log: Log, w: World, m: Message)
    requires Represents(s, log, w) && |ToFrame(m).payload| <= MAX_PAYLOAD
    ensures var f := ToFrame(m);
            var h := QueueControl(s, f.kind, f.seqNo, f.ack, f.payload);
            && (h.ok ==> Represents(h.session, LogEnqueue(log, Control, WireOf(f)), w.(control := w.control + [m])))
            && (!h.ok ==> h.session == s)
  {
    hide Refines, TxRuns.AllDecodable, Encodes, ToFrame, ToFrames, TxRuns.Step, WireOf;
    var f := ToFrame(m);
    var op := PutControl(f.kind, f.seqNo, f.ack, f.payload);
    QueueIsPut(s, Control, f.kind, f.seqNo, f.ack, f.payload);
    PutLogs(s.mux, log, f);
    TxRuns.StepRefines(s.mux, log, op);
    LogValid(s.mux, log);
    TxRuns.StepKeepsDecodable(s.mux, log, op);
    EncodesSnoc(log.control, ToFrames(w.control), f);
    ToFramesSnoc(w.control, m);
    hide QueueFrame;
  }

  lemma LogValid(m: Mux, log: Log)
    requires Refines(m, log)
    ensures log.Valid()
  {
  }

  lemma PutLogs(m: Mux, log: Log, f: Frame)
    requires |f.payload| <= MAX_PAYLOAD
    ensures var op := PutControl(f.kind, f.seqNo, f.ack, f.payload);
            && TxRuns.LogStep(m, log, op)
               == (if TxRuns.Accepts(m, op) then LogEnqueue(log, Control, WireOf(f)) else log)
            && var data := TxRuns.Put(Data, f.kind, f.seqNo, f.ack, f.payload);
            TxRuns.LogStep(m, log, data)
            == (if TxRuns.Accepts(m, data) then LogEnqueue(log, Data, WireOf(f)) else log)
  {
    hide Wire, Enqueue;
  }

  /** Resetting the connection empties the receive ring and the data queue. */
  lemma RewiredRepresents(s: Session, log: Log, w: World)
    requires Represents(s, log, w)
    ensures Represents(Rewired(s), log.SetWaiting(Data, []), Handshake.ResetConnection(w))
    ensures Rewired(s).resetRequested == s.resetRequested
  {
    hide Refines, TxRuns.AllDecodable, DropData, ToFrames, WireOf;
    TxRuns.StepRefines(s.mux, log, TxRuns.Drop);
    LogValid(s.mux, log);
    TxRuns.StepKeepsDecodable(s.mux, log, TxRuns.Drop);
  }

  /** `reset_link_state` empties both queues. */
  lemma ResetRepresents(s: Session, log: Log, w: World)
    requires Represents(s, log, w)
    ensures Represents(ResetLink(s), EmptiedLog(log), w.(firmware := ResetLink(w.firmware), control := [], data := []))
  {
    hide Refines, TxRuns.AllDecodable, ResetAll, WireOf;
    TxRuns.StepRefines(s.mux, log, TxRuns.Reset);
    LogValid(s.mux, log);
    TxRuns.StepKeepsDecodable(s.mux, log, TxRuns.Reset);
  }

  function EmptiedLog(log: Log): Log {
    log.SetWaiting(Data, []).SetWaiting(Control, [])
  }

  /** With both queues empty there is room for two short replies. */
  lemma RoomAfterReset(s: Session, log: Log, f: Frame)
    requires Refines(s.mux, log) && TxRuns.AllDecodable(log)
    requires log.control == [] || log.control == [WireOf(f)]
    requires |f.payload| <= MAX_PAYLOAD
    ensures MuxBounded(s.mux) && |s.mux.control| <= 2 * MAX_ENCODED_LEN
  {
    hide Unwire, Wire;
    WireShape(f.kind, f.seqNo, f.ack, f.payload);
    if log.control != [] {
      FlattenSingle(WireOf(f));
      assert log.control == [WireOf(f)];
    }
  }

  lemma PutFits(s: Session, f: Frame)
    requires |s.mux.control| <= 2 * MAX_ENCODED_LEN && |f.payload| <= MAX_PAYLOAD
    ensures QueueControl(s, f.kind, f.seqNo, f.ack, f.payload).ok
  {
    hide Wire;
    WireShape(f.kind, f.seqNo, f.ack, f.payload);
  }

  /** One reply and, if it did not fit, a reset of the connection. */
  lemma ReplyRepresents(s: Session, log: Log, w: World, f: Frame) returns (queued: bool, next: Log)
    requires Represents(s, log, w) && !s.resetRequested && |f.payload| <= MAX_PAYLOAD
    ensures var h := QueueControl(s, f.kind, f.seqNo, f.ack, f.payload);
            && queued == h.ok && !h.session.resetRequested
            && Represents(AfterReceive(h), next, Reply(w, f, queued))
            && (queued ==> Represents(h.session, next, Reply(w, f, queued)))
            && (!queued ==> h.session == s)
  {
    hide Represents, Rewired, QueueFrame;
    PutRepresents(s, log, w, Other(f));
    RewiredRepresents(s, log, w);
    QueueKeepsValid(s, Control, f.kind, f.seqNo, f.ack, f.payload);
    queued := QueueControl(s, f.kind, f.seqNo, f.ack, f.payload).ok;
    next := if queued then LogEnqueue(log, Control, WireOf(f)) else log.SetWaiting(Data, []);
  }

  lemma SameJudged(s: Session, t: Session, f: Frame)
    requires s.Valid() && t.Valid() && Same(s, t)
    ensures JudgeData(s, f).reply == JudgeData(t, f).reply && JudgeData(s, f).failed == JudgeData(t, f).failed
    ensures Same(JudgeData(s, f).session, JudgeData(t, f).session)
    ensures |JudgeData(s, f).reply.payload| <= MAX_PAYLOAD && JudgeData(s, f).reply.flags == 0
    ensures JudgeData(s, f).reply.seqNo == 0
  {
  }

  /** The rings say nothing about the rest of the session. */
  lemma WithSession(s: Session, log: Log, w: World, t: Session, u: Session)
    requires Represents(s, log, w) && t.mux == s.mux && Same(t, u)
    ensures Represents(t, log, w.(firmware := u))
  {
    hide Refines, TxRuns.AllDecodable, Encodes;
  }

  lemma DataRepresents(s: Session, log: Log, w: World, f: Frame) returns (queued: bool, next: Log)
    requires Represents(s, log, w) && s.Valid() && w.firmware.Valid() && !s.resetRequested
    ensures var v := JudgeData(w.firmware, f);
            var u := Reply(w.(firmware := v.session), v.reply, queued);
            Represents(AfterReceive(HandleData(s, f)), next, if v.failed then Handshake.ResetConnection(u) else u)
  {
    hide Represents, JudgeData, QueueFrame, Rewired, Reply, Handshake.ResetConnection;
    RepresentsSame(s, log, w);
    SameJudged(s, w.firmware, f);
    var v, x := JudgeData(w.firmware, f), JudgeData(s, f);
    WithSession(s, log, w, x.session, v.session);
    var mid := w.(firmware := v.session);
    queued, next := ReplyRepresents(x.session, log, mid, v.reply);
    var h := QueueControl(x.session, v.reply.kind, v.reply.seqNo, v.reply.ack, v.reply.payload);
    if v.failed {
      FailedTwice(mid, v.reply, queued);
      if queued {
        RewiredRepresents(h.session, next, Reply(mid, v.reply, queued));
        next := next.SetWaiting(Data, []);
      }
    }
  }

  /** Resetting the connection a second time changes nothing. */
  lemma FailedTwice(w: World, f: Frame, queued: bool)
    ensures !queued ==> Handshake.ResetConnection(Reply(w, f, queued)) == Reply(w, f, queued)
  {
  }

  lemma RepresentsSame(s: Session, log: Log, w: World)
    requires Represents(s, log, w)
    ensures Same(s, w.firmware)
  {
  }

  lemma HelloRepresents(s: Session, log: Log, w: World, f: Frame) returns (next: Log)
    requires Represents(s, log, w) && s.Valid() && w.firmware.Valid() && !s.resetRequested && ValidHello(f)
    ensures var fw := HelloSession(w.firmware, f).value;
            Represents(AfterReceive(HandleHello(s, f)), next,
                       w.(firmware := fw, control := [ReadyMessage(fw)], data := []))
  {
    hide Represents, QueueFrame, Rewired, ReadyBytes, ResetAll;
    RepresentsSame(s, log, w);
    ResetRepresents(s, log, w);
    var t, fw := HelloSession(s, f).value, HelloSession(w.firmware, f).value;
    var empty := w.(firmware := ResetLink(w.firmware), control := [], data := []);
    WithSession(ResetLink(s), EmptiedLog(log), empty, t, fw);
    ReadyRepresents(t, EmptiedLog(log), empty.(firmware := fw));
    QueueKeepsValid(t, Control, READY, 0, 0, ReadyPayload(t));
    next := LogEnqueue(EmptiedLog(log), Control, WireOf(ToFrame(ReadyMessage(fw))));
    assert [] + [ReadyMessage(fw)] == [ReadyMessage(fw)];
  }

  /** READY fits behind at most one other reply. */
  lemma ReadyRepresents(s: Session, log: Log, w: World)
    requires Represents(s, log, w) && |w.control| <= 1
    requires w.control == [] || (w.control[0].Other? && |w.control[0].frame.payload| <= MAX_PAYLOAD)
    ensures QueueReady(s).ok
    ensures Represents(QueueReady(s).session, LogEnqueue(log, Control, WireOf(ToFrame(ReadyMessage(w.firmware)))),
                       w.(control := w.control + [ReadyMessage(w.firmware)]))
  {
    hide QueueFrame, ReadyPayload, WireOf, Refines, TxRuns.AllDecodable;
    var m := ReadyMessage(w.firmware);
    ReadyFields(s, w.firmware);
    RoomAfterReset(s, log, if w.control == [] then ToFrame(m) else w.control[0].frame);
    hide ToFrame, Represents;
    PutFits(s, ToFrame(m));
    PutRepresents(s, log, w, m);
  }

  lemma ReadyFields(s: Session, fw: Session)
    requires Same(s, fw)
    ensures ToFrame(ReadyMessage(fw)) == Frame(READY, 0, 0, 0, ReadyPayload(s)) && |ReadyPayload(s)| <= MAX_PAYLOAD
  {
  }

  lemma ResetFrameRepresents(s: Session, log: Log, w: World, f: Frame) returns (next: Log)
    requires Represents(s, log, w) && s.Valid() && w.firmware.Valid() && !s.resetRequested
    ensures var fw := ResetLink(w.firmware);
            Represents(AfterReceive(HandleReset(s, f)), next,
                       Handshake.ResetConnection(
                         w.(firmware := fw,
                            control := [Other(Frame(RESET_ACK, 0, f.seqNo, f.ack, [])), ReadyMessage(fw)])))
  {
    hide Represents, QueueFrame, Rewired, ReadyBytes, ResetLink, LogEnqueue, Handshake.ResetConnection;
    var ack := Frame(RESET_ACK, 0, f.seqNo, f.ack, []);
    ResetRepresents(s, log, w);
    var fw := ResetLink(w.firmware);
    var empty := w.(firmware := fw, control := [], data := []);
    RepresentsSame(ResetLink(s), EmptiedLog(log), empty);
    var t := ResetLink(s).(resetRequested := true);
    WithSession(ResetLink(s), EmptiedLog(log), empty, t, fw);
    next := TwoReplies(t, EmptiedLog(log), empty, ack);
    var last := QueueReady(QueueControl(t, RESET_ACK, f.seqNo, f.ack, []).session).session;
    var done := empty.(control := [Other(ack), ReadyMessage(fw)]);
    next := ResetTaken(last, next, done);
    DataGoesAnyway(w.(firmware := fw, control := [Other(ack), ReadyMessage(fw)]), done);
  }

  lemma DataGoesAnyway(w: World, done: World)
    requires done == w.(data := [])
    ensures Handshake.ResetConnection(done) == Handshake.ResetConnection(w)
  {
  }

  /** RESET_ACK and READY into empty queues. */
  lemma TwoReplies(t: Session, log: Log, w: World, ack: Frame) returns (next: Log)
    requires Represents(t, log, w) && w.control == [] && ack.payload == [] && ack.flags == 0
    ensures var acked := QueueControl(t, ack.kind, ack.seqNo, ack.ack, []);
            && acked.ok && QueueReady(acked.session).ok
            && QueueReady(acked.session).session.resetRequested == t.resetRequested
            && Represents(QueueReady(acked.session).session, next,
                          w.(control := [Other(ack), ReadyMessage(w.firmware)]))
  {
    hide Represents, QueueFrame, ReadyPayload, LogEnqueue, WireOf;
    AckFits(t, log, w, ack);
    PutRepresents(t, log, w, Other(ack));
    var acked := QueueControl(t, ack.kind, ack.seqNo, ack.ack, []);
    QueueKeepsValid(t, Control, ack.kind, ack.seqNo, ack.ack, []);
    var one := LogEnqueue(log, Control, WireOf(ack));
    assert [] + [Other(ack)] == [Other(ack)];
    assert [Other(ack)] + [ReadyMessage(w.firmware)] == [Other(ack), ReadyMessage(w.firmware)];
    ReadyRepresents(acked.session, one, w.(control := [Other(ack)]));
    QueueKeepsValid(acked.session, Control, READY, 0, 0, ReadyPayload(acked.session));
    next := LogEnqueue(one, Control, WireOf(ToFrame(ReadyMessage(w.firmware))));
  }

  /** The main loop takes the reset request and resets the connection. */
  lemma ResetTaken(s: Session, log: Log, w: World) returns (next: Log)
    requires Represents(s, log, w) && s.resetRequested
    ensures Represents(AfterReceive(Handled(s, true)), next, Handshake.ResetConnection(w))
  {
    hide Represents, Rewired;
    RewiredRepresents(s, log, w);
    next := log.SetWaiting(Data, []);
    var after := Handshake.ResetConnection(w);
    RepresentsSame(Rewired(s), next, after);
    WithSession(Rewired(s), next, after, Rewired(s).(resetRequested := false), after.firmware);
  }

  lemma AckFits(s: Session, log: Log, w: World, ack: Frame)
    requires Represents(s, log, w) && w.control == [] && |ack.payload| <= MAX_PAYLOAD
    ensures QueueControl(s, ack.kind, ack.seqNo, ack.ack, ack.payload).ok
  {
    hide QueueFrame, WireOf, Refines, TxRuns.AllDecodable;
    RoomAfterReset(s, log, ack);
    PutFits(s, ack);
  }

  /**
    Refinement. If the session's rings hold the encodings of the handshake's queues, they still do
    after any received frame has been handled, with the same reply, the same reset of the connection
    and the same counters; whether a reply fitted is the step's own choice.
  */
  lemma HandlerRefines(s: Session, log: Log, w: World) returns (queued: bool, next: Log)
    requires Represents(s, log, w) && s.Valid() && w.firmware.Valid() && !s.resetRequested
    requires w.toFirmware != [] && |w.toFirmware[0].payload| <= MAX_PAYLOAD
    ensures Represents(AfterReceive(HandleFrame(s, w.toFirmware[0])), next, FirmwareStep(w, queued))
  {
    hide Represents, AfterReceive, QueueFrame, HandleReset, HandleHello, HandleData, JudgeData, HelloSession,
      ValidHello, Reply, Handshake.ResetConnection, ResetLink;
    var f := w.toFirmware[0];
    var t := w.(toFirmware := w.toFirmware[1..]);
    SameQueues(s, log, w, t);
    queued := true;
    if f.kind == RESET {
      var noted := t.(handled := t.handled || f.seqNo == t.resetSeq);
      SameQueues(s, log, t, noted);
      next := ResetFrameRepresents(s, log, noted, f);
    } else if f.kind == HELLO {
      if ValidHello(f) {
        next := HelloRepresents(s, log, t, f);
      } else {
        BadHello(s, f);
        queued, next := ReplyRepresents(s, log, t, ErrorFrame(ERR_BAD_LENGTH, 0));
      }
    } else if f.kind == DATA_C2M {
      queued, next := DataRepresents(s, log, t, f);
    } else if f.kind == RATE_PROBE {
      queued, next := ReplyRepresents(s, log, t, Frame(RATE_PROBE_ACK, 0, f.seqNo, f.ack, f.payload));
    } else if f.kind == PING {
      queued, next := ReplyRepresents(s, log, t, Frame(PONG, 0, f.seqNo, f.ack, f.payload));
    } else {
      queued, next := ReplyRepresents(s, log, t, ErrorFrame(ERR_UNEXPECTED_TYPE, f.kind));
    }
  }

  lemma BadHello(s: Session, f: Frame)
    requires !ValidHello(f)
    ensures HandleHello(s, f) == QueueError(s, ERR_BAD_LENGTH, 0)
  {
    hide QueueFrame;
  }

  /** Only the queues and the firmware's fields matter. */
  lemma SameQueues(s: Session, log: Log, w: World, t: World)
    requires Represents(s, log, w)
    requires t.firmware == w.firmware && t.control == w.control && t.data == w.data
    ensures Represents(s, log, t)
  {
    hide Refines, TxRuns.AllDecodable, Encodes;
  }

  // ----- the firmware's other steps -----

  /** The server reads n bytes and credit is announced, if the frame fits. */
  lemma ConsumedRefines(s: Session, log: Log, w: World, n: nat, output: seq<byte>) returns (queued: bool, next: Log)
    requires Represents(s, log, w) && s.Valid() && w.firmware.Valid() && 0 < n <= |s.rx|
    ensures Represents(LinkSessionRuns.Perform(s, Consumed(n)).session, next, Next(w, ServerReads(n, output, queued)))
  {
    hide Represents, QueueFrame, WireOf, LogEnqueue;
    RepresentsSame(s, log, w);
    var t, fw := s.(rx := s.rx[n..]), w.firmware.(rx := w.firmware.rx[n..]);
    WithSession(s, log, w, t, fw);
    var m := Other(AckFrame(fw, 0));
    var mid := w.(firmware := fw);
    PutRepresents(t, log, mid, m);
    queued := QueueAck(t, 0).ok;
    next := if queued then LogEnqueue(log, Control, WireOf(AckFrame(fw, 0))) else log;
    SameQueues(QueueAck(t, 0).session, next, mid.(control := if queued then mid.control + [m] else mid.control),
               Next(w, ServerReads(n, output, queued)));
  }

  /** `reset_link_state_preserving_control_tx` empties the data queue only. */
  lemma KeepingRepresents(s: Session, log: Log, w: World)
    requires Represents(s, log, w)
    ensures Represents(ResetKeepingControl(s), log.SetWaiting(Data, []),
                       w.(firmware := ResetKeepingControl(w.firmware), data := []))
  {
    hide Refines, TxRuns.AllDecodable, DropQueued, ToFrames, WireOf;
    TxRuns.StepRefines(s.mux, log, TxRuns.ResetKeeping);
    LogValid(s.mux, log);
    TxRuns.StepKeepsDecodable(s.mux, log, TxRuns.ResetKeeping);
  }

  lemma ReadyQueued(s: Session, log: Log, w: World) returns (queued: bool, next: Log)
    requires Represents(s, log, w)
    ensures Represents(QueueReady(s).session, next,
                       w.(control := w.control + if queued then [ReadyMessage(w.firmware)] else []))
  {
    hide Represents, QueueFrame, ReadyPayload, WireOf, ToFrame;
    RepresentsSame(s, log, w);
    var m := ReadyMessage(w.firmware);
    ReadyFields(s, w.firmware);
    PutRepresents(s, log, w, m);
    queued := QueueReady(s).ok;
    next := if queued then LogEnqueue(log, Control, WireOf(ToFrame(m))) else log;
    assert w.control + [] == w.control;
  }

  /** A packet the server cannot parse: ERROR and READY are queued as far as they fit, all else is reset. */
  lemma FailureRefines(s: Session, log: Log, w: World, n: nat) returns (first: bool, second: bool, next: Log)
    requires Represents(s, log, w) && s.Valid() && w.firmware.Valid() && 0 < n <= |w.firmware.rx|
    ensures Represents(Rewired(ResetAfterError(s, ERR_PROTOCOL_STATE, 0).session), next,
                       Next(w, ServerFails(n, first, second)))
  {
    hide Represents, QueueFrame, Rewired, ReadyBytes, ResetKeepingControl, Handshake.ResetConnection, WireOf;
    var m := Other(ErrorFrame(ERR_PROTOCOL_STATE, 0));
    PutRepresents(s, log, w, m);
    var h := QueueError(s, ERR_PROTOCOL_STATE, 0);
    first, second := h.ok, false;
    if first {
      var one, mid := LogEnqueue(log, Control, WireOf(m.frame)), w.(control := w.control + [m]);
      KeepingRepresents(h.session, one, mid);
      var kept := mid.(firmware := ResetKeepingControl(mid.firmware), data := []);
      second, next := ReadyQueued(ResetKeepingControl(h.session), one.SetWaiting(Data, []), kept);
      KeepsCapabilities(w.firmware);
      RewiredRepresents(QueueReady(ResetKeepingControl(h.session)).session, next,
                        kept.(control := kept.control + if second then [ReadyMessage(w.firmware)] else []));
      next := next.SetWaiting(Data, []);
    } else {
      RewiredRepresents(s, log, w);
      next := log.SetWaiting(Data, []);
    }
  }

  lemma KeepsCapabilities(s: Session)
    ensures ReadyMessage(ResetKeepingControl(s)) == ReadyMessage(s)
  {
  }

  /** Server output becomes the next data frame whenever it fits. */
  lemma QueueDataRefines(s: Session, log: Log, w: World)
    requires Represents(s, log, w) && s.Valid() && w.firmware.Valid() && s.ready && w.serverTx != []
    requires QueueServerTx(s, w.serverTx).ok
    ensures var n := Min(|w.serverTx|, s.negotiated);
            Represents(QueueServerTx(s, w.serverTx).session,
                       LogEnqueue(log, Data, WireOf(Frame(DATA_M2C, 0, s.txSeq, s.rxSeq, w.serverTx[..n]))),
                       Next(w, QueueData))
  {
    hide Represents, QueueFrame, WireOf, LogEnqueue;
    RepresentsSame(s, log, w);
    var n := Min(|w.serverTx|, s.negotiated);
    var f := Frame(DATA_M2C, 0, s.txSeq, s.rxSeq, w.serverTx[..n]);
    DataPutRepresents(s, log, w, f);
    var h := QueueFrame(s, Data, DATA_M2C, s.txSeq, s.rxSeq, w.serverTx[..n]);
    QueueKeepsValid(s, Data, DATA_M2C, s.txSeq, s.rxSeq, w.serverTx[..n]);
    var next, mid := LogEnqueue(log, Data, WireOf(f)), w.(data := w.data + [f]);
    WithSession(h.session, next, mid, h.session.(txSeq := Succ(s.txSeq)), w.firmware.(txSeq := Succ(w.firmware.txSeq)));
    SameQueues(h.session.(txSeq := Succ(s.txSeq)), next, mid.(firmware := w.firmware.(txSeq := Succ(w.firmware.txSeq))),
               Next(w, QueueData));
  }

  lemma DataPutRepresents(s: Session, log: Log, w: World, f: Frame)
    requires Represents(s, log, w) && |f.payload| <= MAX_PAYLOAD
    requires QueueFrame(s, Data, f.kind, f.seqNo, f.ack, f.payload).ok
    ensures Represents(QueueFrame(s, Data, f.kind, f.seqNo, f.ack, f.payload).session, LogEnqueue(log, Data, WireOf(f)),
                       w.(data := w.data + [f]))
  {
    hide Refines, TxRuns.AllDecodable, Encodes, ToFrames, TxRuns.Step, WireOf, QueueFrame;
    var op := TxRuns.Put(Data, f.kind, f.seqNo, f.ack, f.payload);
    QueueIsPut(s, Data, f.kind, f.seqNo, f.ack, f.payload);
    PutLogs(s.mux, log, f);
    TxRuns.StepRefines(s.mux, log, op);
    LogValid(s.mux, log);
    TxRuns.StepKeepsDecodable(s.mux, log, op);
    EncodesSnoc(log.data, w.data, f);
  }

  /** The server asked for its output to be dropped: what is queued goes, a frame begun does not. */
  lemma OutputResetRefines(s: Session, log: Log, w: World)
    requires Represents(s, log, w) && w.firmware.Valid() && !w.serverIdle
    ensures Represents(s.(mux := DropData(s.mux)), TxRuns.LogStep(s.mux, log, TxRuns.Drop), Next(w, OutputReset))
  {
    hide Refines, TxRuns.AllDecodable, DropData, ToFrames, WireOf;
    TxRuns.StepRefines(s.mux, log, TxRuns.Drop);
    LogValid(s.mux, log);
    TxRuns.StepKeepsDecodable(s.mux, log, TxRuns.Drop);
  }

  /** The frame a selection begins carries the message the queues put on the wire. */
  ghost predicate Begins(log: Log, w: World, t: World) {
    if w.control == [] && w.data == [] then t == w && LogSelect(log) == log
    else
      && |t.wire| == |w.wire| + 1 && t.wire[..|w.wire|] == w.wire
      && LogSelect(log).out == [] && LogSelect(log).unsent == WireOf(ToFrame(t.wire[|w.wire|]))
  }

  /** Beginning the next frame, control before data, is the queue's emission onto the wire. */
  lemma EmitRefines(s: Session, log: Log, w: World)
    requires Represents(s, log, w) && w.firmware.Valid() && log.unsent == []
    ensures Represents(s.(mux := Select(s.mux)), LogSelect(log), Next(w, Emit))
    ensures Begins(log, w, Next(w, Emit))
  {
    hide Refines, TxRuns.AllDecodable, Select, WireOf, ToFrame;
    SelectRefines(s.mux, log);
    LogValid(s.mux, log);
    TxRuns.SelectKeepsDecodable(log);
    SelectEncodes(log, w);
    hide LogSelect, Encodes, ToFrames, Begins;
  }

  lemma SelectEncodes(log: Log, w: World)
    requires w.firmware.Valid() && log.unsent == []
    requires Encodes(log.control, ToFrames(w.control)) && Encodes(log.data, w.data)
    ensures Encodes(LogSelect(log).control, ToFrames(Next(w, Emit).control))
    ensures Encodes(LogSelect(log).data, Next(w, Emit).data) && Next(w, Emit).firmware == w.firmware
    ensures Begins(log, w, Next(w, Emit))
  {
    hide WireOf;
    assert |ToFrames(w.control)| == |w.control|;
    if w.control != [] {
      assert ToFrames(w.control)[0] == ToFrame(w.control[0]);
      assert ToFrames(w.control)[1..] == ToFrames(w.control[1..]);
    }
  }
}
