/**
  The client-to-firmware protocol over whole runs of one epoch: the bridge's stop-and-wait sender
  against the firmware's DATA_C2M handler, over two first-in first-out channels that may lose any
  frame. An epoch starts when the reset handshake completes and ends at the next reset, error, or
  failed receive call.
*/
module C2mProtocol {
  import opened Bytes
  import opened LinkCodec
  import opened LinkSession
  import opened C2mSender

  datatype World = World(
    sender: Sender,
    toFirmware: seq<Frame>,
    firmware: Session,
    toBridge: seq<Frame>,
    pushed: seq<byte>,   // every byte given to the sender
    written: seq<byte>,  // every byte written to the firmware's receive ring
    served: seq<byte>,   // every byte the server has read from that ring
    errors: seq<Frame>,  // ERROR frames the firmware raised
    alive: bool)         // the epoch has not ended

  datatype Step =
    | Push(data: seq<byte>)
    | Transmit
    | Retransmit
    | LoseToFirmware(i: nat)
    | LoseToBridge(i: nat)
    | FirmwareTakes(queued: bool)       // whether the reply fitted the control ring
    | ServerReads(n: nat, queued: bool) // consuming emits an unsolicited credit frame with ack 0
    | BridgeTakes
    | Probe(frame: Frame)               // RATE_PROBE and PING traffic towards the firmware
    | Other(frame: Frame)               // DATA_M2C and other traffic towards the bridge

  function Remove<T>(s: seq<T>, i: nat): seq<T>
    requires i < |s|
  {
    s[..i] + s[i + 1..]
  }

  function FirmwareStep(w: World, queued: bool): World
    requires w.firmware.Valid() && w.toFirmware != []
  {
    var f, rest := w.toFirmware[0], w.toFirmware[1..];
    if f.kind == DATA_C2M then
      var v := JudgeData(w.firmware, f);
      w.(toFirmware := rest,
         firmware := v.session,
         written := w.written + v.session.rx[|w.firmware.rx|..],
         errors := if v.reply.kind == ERROR then w.errors + [v.reply] else w.errors,
         toBridge := if queued then w.toBridge + [v.reply] else w.toBridge,
         alive := queued && !v.failed && v.reply.kind != ERROR)
    else
      w.(toFirmware := rest,
         toBridge := if !queued then w.toBridge
                     else w.toBridge + [f.(kind := if f.kind == PING then PONG else RATE_PROBE_ACK)],
         alive := queued)
  }

  function BridgeStep(w: World): World
    requires w.toBridge != []
  {
    var g, rest := w.toBridge[0], w.toBridge[1..];
    if g.kind == ACK_C2M then
      var o := HandleAckFrame(w.sender, g);
      w.(toBridge := rest, sender := o.sender, alive := o.ok)
    else if g.kind == READY || g.kind == ERROR then w.(toBridge := rest, alive := false)
    else w.(toBridge := rest)
  }

  function Next(w: World, step: Step): World
    requires w.firmware.Valid()
  {
    if !w.alive then w
    else match step
      case Push(data) => w.(sender := C2mSender.Push(w.sender, data), pushed := w.pushed + data)
      case Transmit =>
        var next := NextFrame(w.sender);
        if next.Send? then
          w.(sender := MarkSent(w.sender, next.frame).sender, toFirmware := w.toFirmware + [next.frame])
        else if next.Exhausted? then w.(alive := false)
        else w
      case Retransmit =>
        if w.sender.outstanding.Some? && Unwire(w.sender.outstanding.value.encoded).Some?
        then w.(toFirmware := w.toFirmware + [Unwire(w.sender.outstanding.value.encoded).value])
        else w
      case LoseToFirmware(i) => if i < |w.toFirmware| then w.(toFirmware := Remove(w.toFirmware, i)) else w
      case LoseToBridge(i) => if i < |w.toBridge| then w.(toBridge := Remove(w.toBridge, i)) else w
      case FirmwareTakes(queued) => if w.toFirmware != [] then FirmwareStep(w, queued) else w
      case ServerReads(n, queued) =>
        if 0 < n <= |w.firmware.rx| then
          var after := w.firmware.(rx := w.firmware.rx[n..]);
          w.(firmware := after,
             served := w.served + w.firmware.rx[..n],
             toBridge := if queued then w.toBridge + [AckFrame(after, 0)] else w.toBridge)
        else w
      case BridgeTakes => if w.toBridge != [] then BridgeStep(w) else w
      case Probe(f) => if f.kind == RATE_PROBE || f.kind == PING then w.(toFirmware := w.toFirmware + [f]) else w
      case Other(g) =>
        if g.kind != ACK_C2M && g.kind != READY && g.kind != ERROR then w.(toBridge := w.toBridge + [g]) else w
  }

  // ----- the invariant -----

  function Free(w: World): int {
    RX_CAP - |w.firmware.rx|
  }

  /** Bytes the sender has given up because their frame was acknowledged. */
  function Acked(w: World): int {
    |w.pushed| - |w.sender.pending|
  }

  /** The outstanding frame has already been written to the receive ring. */
  predicate Accepted(w: World) {
    w.sender.outstanding.Some? && w.firmware.rxSeq == w.sender.nextSeq
  }

  predicate InFlight(w: World) {
    w.sender.outstanding.Some? && w.firmware.rxSeq != w.sender.nextSeq
  }

  ghost predicate Agreed(w: World) {
    var s, fw := w.sender, w.firmware;
    && fw.Valid() && fw.ready && s.negotiated == fw.negotiated
    && Acked(w) >= 0 && s.pending == w.pushed[Acked(w)..]
    && (s.outstanding.None? ==> fw.rxSeq == s.nextSeq)
    && (s.outstanding.Some? ==>
          var o := s.outstanding.value;
          && o.seqNo + 1 == s.nextSeq && (fw.rxSeq == s.nextSeq || fw.rxSeq + 1 == s.nextSeq)
          && 1 <= o.payloadLen <= |s.pending| && o.payloadLen <= s.negotiated
          && o.encoded == Wire(DATA_C2M, o.seqNo, 0, s.pending[..o.payloadLen]))
  }

  /** Exactly once, in order: the ring got a prefix, and only accepted bytes have left the sender. */
  ghost predicate Delivered(w: World) {
    && w.written <= w.pushed
    && w.served + w.firmware.rx == w.written
    && |w.written| == Acked(w) + (if Accepted(w) then w.sender.outstanding.value.payloadLen else 0)
  }

  ghost predicate DataFrameOk(w: World, f: Frame) {
    || f.kind == RATE_PROBE
    || f.kind == PING
    || (f.kind == DATA_C2M
        && if InFlight(w) then f.seqNo + 2 == w.sender.nextSeq
                               || (f.seqNo + 1 == w.sender.nextSeq
                                   && w.sender.outstanding.value.payloadLen <= |w.sender.pending|
                                   && f.payload == w.sender.pending[..w.sender.outstanding.value.payloadLen])
           else f.seqNo + 1 == w.sender.nextSeq)
  }

  ghost predicate DataChannelOk(w: World) {
    && (forall i :: 0 <= i < |w.toFirmware| ==> DataFrameOk(w, w.toFirmware[i]))
    && (forall i, j ::
          0 <= i < j < |w.toFirmware| && w.toFirmware[i].kind == DATA_C2M && w.toFirmware[j].kind == DATA_C2M
          ==> w.toFirmware[i].seqNo <= w.toFirmware[j].seqNo)
  }

  predicate IsAck(g: Frame) {
    g.kind == ACK_C2M && |g.payload| == 2
  }

  function Granted(g: Frame): u16
    requires IsAck(g)
  {
    Word(g.payload[0], g.payload[1])
  }

  /** Credits in flight never promise more than the ring has, except ahead of a pending acceptance. */
  ghost predicate AckChannelOk(w: World) {
    && (forall i :: 0 <= i < |w.toBridge| ==>
          w.toBridge[i].kind != READY && w.toBridge[i].kind != ERROR
          && (w.toBridge[i].kind == ACK_C2M ==> IsAck(w.toBridge[i]) && w.toBridge[i].ack <= w.firmware.rxSeq))
    && (forall j :: 0 <= j < |w.toBridge| && IsAck(w.toBridge[j]) && !Accepted(w) ==> Granted(w.toBridge[j]) <= Free(w))
    && (forall i, j ::
          0 <= i <= j < |w.toBridge| && IsAck(w.toBridge[i]) && IsAck(w.toBridge[j])
          && Accepted(w) && w.toBridge[i].ack == w.sender.nextSeq
          ==> Granted(w.toBridge[j]) <= Free(w))
  }

  predicate CreditOk(w: World) {
    && (w.sender.outstanding.None? ==> w.sender.credit <= Free(w))
    && (InFlight(w) ==> w.sender.outstanding.value.payloadLen <= Free(w))
  }

  ghost predicate Inv(w: World) {
    && Agreed(w)
    && Delivered(w)
    && DataChannelOk(w)
    && AckChannelOk(w)
    && CreditOk(w)
    && w.errors == []
  }

  /** The world a completed reset handshake leaves: fresh counters, an empty ring, no credit overdrawn. */
  ghost predicate Fresh(w: World) {
    && w.firmware.Valid() && w.firmware.ready && w.firmware.rxSeq == 0 && w.firmware.rx == []
    && w.sender.outstanding.None? && w.sender.nextSeq == 0
    && w.sender.negotiated == w.firmware.negotiated
    && w.sender.credit == w.firmware.creditCap
    && w.pushed == w.sender.pending && w.written == [] && w.served == [] && w.errors == []
    && (forall i :: 0 <= i < |w.toFirmware| ==> w.toFirmware[i].kind == RATE_PROBE || w.toFirmware[i].kind == PING)
    && (forall i :: 0 <= i < |w.toBridge| ==>
          w.toBridge[i].kind != ACK_C2M && w.toBridge[i].kind != READY && w.toBridge[i].kind != ERROR)
  }

  lemma FreshInv(w: World)
    requires Fresh(w)
    ensures Inv(w)
  {
  }

  // ----- every step keeps it -----

  lemma PushKeeps(w: World, data: seq<byte>)
    requires Inv(w) && w.alive
    ensures Inv(Next(w, Push(data)))
  {
    hide Wire;
    var t := Next(w, Push(data));
    assert t.sender.pending == t.pushed[Acked(t)..];
    if w.sender.outstanding.Some? {
      var n := w.sender.outstanding.value.payloadLen;
      assert t.sender.pending[..n] == w.sender.pending[..n];
    }
  }

  lemma TransmitKeeps(w: World)
    requires Inv(w) && w.alive
    ensures Inv(Next(w, Transmit))
  {
    hide Wire;
  }

  lemma RetransmitKeeps(w: World)
    requires Inv(w) && w.alive
    ensures Inv(Next(w, Retransmit))
  {
    hide Wire, Unwire;
    if w.sender.outstanding.Some? {
      var o := w.sender.outstanding.value;
      UnwireWire(DATA_C2M, o.seqNo, 0, w.sender.pending[..o.payloadLen]);
    }
  }

  lemma LoseToFirmwareKeeps(w: World, i: nat)
    requires Inv(w) && w.alive
    ensures Inv(Next(w, LoseToFirmware(i)))
  {
    hide Wire;
  }

  lemma LoseToBridgeKeeps(w: World, i: nat)
    requires Inv(w) && w.alive
    ensures Inv(Next(w, LoseToBridge(i)))
  {
    hide Wire;
  }

  /** A frame that was already accepted: acknowledged again, nothing written. */
  lemma DuplicateKeeps(w: World, queued: bool)
    requires Inv(w) && w.alive && w.toFirmware != []
    requires w.toFirmware[0].kind == DATA_C2M && w.toFirmware[0].seqNo + 1 == w.firmware.rxSeq
    ensures Inv(FirmwareStep(w, queued))
  {
    hide Wire, JudgeData, AckChannelOk, AckFrame;
    DuplicateEffect(w);
    DuplicateReplies(w, queued);
  }

  lemma DuplicateReplies(w: World, queued: bool)
    requires Inv(w) && w.alive && w.toFirmware != []
    requires w.toFirmware[0].kind == DATA_C2M && w.toFirmware[0].seqNo + 1 == w.firmware.rxSeq
    ensures AckChannelOk(FirmwareStep(w, queued))
  {
    hide Wire, JudgeData, DataChannelOk;
    DuplicateEffect(w);
    CreditWord(w.firmware);
  }

  lemma DuplicateEffect(w: World)
    requires Inv(w) && w.toFirmware != [] && w.toFirmware[0].seqNo + 1 == w.firmware.rxSeq
    ensures JudgeData(w.firmware, w.toFirmware[0]) == Verdict(w.firmware, AckFrame(w.firmware, w.firmware.rxSeq), false)
    ensures AckFrame(w.firmware, w.firmware.rxSeq).kind == ACK_C2M
    ensures w.written + w.firmware.rx[|w.firmware.rx|..] == w.written
  {
    hide Wire;
  }

  lemma CreditWord(s: Session)
    requires s.Valid()
    ensures forall ack: u16 :: IsAck(AckFrame(s, ack)) && Granted(AckFrame(s, ack)) == RX_CAP - |s.rx|
  {
    WordSplit(Credit(s));
  }

  /** The outstanding frame, arriving for the first time. */
  lemma AcceptKeeps(w: World, queued: bool)
    requires Inv(w) && w.alive && w.toFirmware != []
    requires w.toFirmware[0].kind == DATA_C2M && w.toFirmware[0].seqNo == w.firmware.rxSeq
    ensures Inv(FirmwareStep(w, queued))
  {
    hide Wire, JudgeData;
    var t := FirmwareStep(w, queued);
    AcceptEffect(w);
    AcceptDelivers(w, queued);
    AcceptReplies(w, queued);
  }

  /** The frame passes all of the handler's checks. */
  lemma AcceptEffect(w: World)
    requires Inv(w) && w.alive && w.toFirmware != []
    requires w.toFirmware[0].kind == DATA_C2M && w.toFirmware[0].seqNo == w.firmware.rxSeq
    ensures InFlight(w) && w.firmware.rxSeq + 1 == w.sender.nextSeq
    ensures var f, v := w.toFirmware[0], JudgeData(w.firmware, w.toFirmware[0]);
            && f.payload == w.sender.pending[..w.sender.outstanding.value.payloadLen]
            && v.session == w.firmware.(rx := w.firmware.rx + f.payload, rxSeq := w.sender.nextSeq)
            && v.session.Valid()
            && v.reply == AckFrame(v.session, w.sender.nextSeq) && !v.failed
            && v.session.rx[|w.firmware.rx|..] == f.payload
  {
    hide Wire;
    assert DataFrameOk(w, w.toFirmware[0]);
  }

  lemma AcceptDelivers(w: World, queued: bool)
    requires Inv(w) && w.alive && w.toFirmware != []
    requires w.toFirmware[0].kind == DATA_C2M && w.toFirmware[0].seqNo == w.firmware.rxSeq
    ensures var t := FirmwareStep(w, queued);
            Agreed(t) && Delivered(t) && CreditOk(t) && DataChannelOk(t)
  {
    hide Wire, JudgeData, AckFrame, AckChannelOk;
    AcceptEffect(w);
    var f, n := w.toFirmware[0], w.sender.outstanding.value.payloadLen;
    AppendPrefix(w.written, w.pushed, Acked(w), n);
    assert w.served + (w.firmware.rx + f.payload) == w.served + w.firmware.rx + f.payload;
  }

  lemma AcceptReplies(w: World, queued: bool)
    requires Inv(w) && w.alive && w.toFirmware != []
    requires w.toFirmware[0].kind == DATA_C2M && w.toFirmware[0].seqNo == w.firmware.rxSeq
    ensures AckChannelOk(FirmwareStep(w, queued))
  {
    hide Wire, JudgeData, DataChannelOk;
    AcceptEffect(w);
    CreditWord(FirmwareStep(w, queued).firmware);
  }

  lemma AppendPrefix(written: seq<byte>, pushed: seq<byte>, acked: nat, n: nat)
    requires written <= pushed && |written| == acked && acked + n <= |pushed|
    ensures written + pushed[acked..][..n] <= pushed
  {
  }

  lemma FirmwareTakesKeeps(w: World, queued: bool)
    requires Inv(w) && w.alive
    ensures Inv(Next(w, FirmwareTakes(queued)))
  {
    hide Wire, JudgeData, AckFrame;
    if w.toFirmware != [] {
      var f := w.toFirmware[0];
      assert DataFrameOk(w, f);
      if f.kind == DATA_C2M {
        if f.seqNo + 1 == w.firmware.rxSeq {
          DuplicateKeeps(w, queued);
        } else {
          AcceptKeeps(w, queued);
        }
      }
    }
  }

  lemma ServerReadsKeeps(w: World, n: nat, queued: bool)
    requires Inv(w) && w.alive
    ensures Inv(Next(w, ServerReads(n, queued)))
  {
    hide Wire, Unwire;
    if 0 < n <= |w.firmware.rx| {
      var t := Next(w, ServerReads(n, queued));
      assert w.served + w.firmware.rx[..n] + w.firmware.rx[n..] == w.served + w.firmware.rx;
      CreditWord(t.firmware);
    }
  }

  /** An acknowledgement that does not match only overwrites the credit. */
  lemma StaleAckKeeps(w: World)
    requires Inv(w) && w.alive && w.toBridge != [] && w.toBridge[0].kind == ACK_C2M
    requires w.sender.outstanding.Some? ==> w.toBridge[0].ack != w.sender.nextSeq
    ensures Inv(BridgeStep(w))
  {
    hide Wire;
    assert IsAck(w.toBridge[0]);
    assert BridgeStep(w).sender == w.sender.(credit := Granted(w.toBridge[0]));
  }

  /** The matching acknowledgement releases exactly the bytes of the accepted frame. */
  lemma MatchingAckKeeps(w: World)
    requires Inv(w) && w.alive && w.toBridge != [] && w.toBridge[0].kind == ACK_C2M
    requires w.sender.outstanding.Some? && w.toBridge[0].ack == w.sender.nextSeq
    ensures Inv(BridgeStep(w)) && Accepted(w)
  {
    hide Wire;
    assert IsAck(w.toBridge[0]);
    var t, n := BridgeStep(w), w.sender.outstanding.value.payloadLen;
    assert t.sender.pending == w.sender.pending[n..];
    assert w.pushed[Acked(w)..][n..] == w.pushed[Acked(w) + n..];
  }

  lemma OtherFrameKeeps(w: World)
    requires Inv(w) && w.alive && w.toBridge != [] && w.toBridge[0].kind != ACK_C2M
    ensures Inv(BridgeStep(w))
  {
    hide Wire;
  }

  lemma BridgeTakesKeeps(w: World)
    requires Inv(w) && w.alive
    ensures Inv(Next(w, BridgeTakes))
  {
    hide Inv, BridgeStep;
    if w.toBridge != [] {
      if w.toBridge[0].kind != ACK_C2M {
        OtherFrameKeeps(w);
      } else if w.sender.outstanding.Some? && w.toBridge[0].ack == w.sender.nextSeq {
        MatchingAckKeeps(w);
      } else {
        StaleAckKeeps(w);
      }
    }
  }

  lemma ProbeKeeps(w: World, f: Frame)
    requires Inv(w) && w.alive
    ensures Inv(Next(w, Probe(f)))
  {
    hide Wire;
  }

  lemma OtherKeeps(w: World, g: Frame)
    requires Inv(w) && w.alive
    ensures Inv(Next(w, Other(g)))
  {
    hide Wire;
  }

  /** Every step of the protocol keeps the invariant. */
  lemma NextKeeps(w: World, step: Step)
    requires Inv(w)
    ensures Inv(Next(w, step))
  {
    if w.alive {
      hide Inv, Next;
      match step
      case Push(data) => PushKeeps(w, data);
      case Transmit => TransmitKeeps(w);
      case Retransmit => RetransmitKeeps(w);
      case LoseToFirmware(i) => LoseToFirmwareKeeps(w, i);
      case LoseToBridge(i) => LoseToBridgeKeeps(w, i);
      case FirmwareTakes(queued) => FirmwareTakesKeeps(w, queued);
      case ServerReads(n, queued) => ServerReadsKeeps(w, n, queued);
      case BridgeTakes => BridgeTakesKeeps(w);
      case Probe(f) => ProbeKeeps(w, f);
      case Other(g) => OtherKeeps(w, g);
    }
  }

  // ----- whole epochs -----

  lemma NextValid(w: World, step: Step)
    requires w.firmware.Valid()
    ensures Next(w, step).firmware.Valid()
  {
    hide Wire, Unwire, HandleAckFrame, MarkSent, NextFrame;
  }

  function Run(w: World, steps: seq<Step>): (t: World)
    requires w.firmware.Valid()
    decreases |steps|
  {
    if steps == [] then w
    else
      NextValid(w, steps[0]);
      Run(Next(w, steps[0]), steps[1..])
  }

  lemma InvValid(w: World)
    requires Inv(w)
    ensures w.firmware.Valid()
  {
  }

  lemma {:induction false} RunKeeps(w: World, steps: seq<Step>)
    requires Inv(w)
    ensures Inv(Run(w, steps))
    decreases |steps|
  {
    InvValid(w);
    hide Next, Inv;
    if steps == [] {
    } else {
      NextKeeps(w, steps[0]);
      NextValid(w, steps[0]);
      RunKeeps(Next(w, steps[0]), steps[1..]);
    }
  }

  /**
    Delivery safety of an epoch. However frames and acknowledgements are lost, repeated or delayed:
    the bytes written to the receive ring are a prefix of the bytes pushed, each exactly once and in
    order; the server reads them in that order; a byte leaves the sender only after it was written;
    and the firmware never raises an error for a data frame.
  */
  lemma EpochDelivery(w: World, steps: seq<Step>)
    requires Fresh(w)
    ensures var t := Run(w, steps);
            && t.written <= t.pushed
            && t.served <= t.written
            && |t.sender.pending| <= |t.pushed|
            && t.pushed[..|t.pushed| - |t.sender.pending|] <= t.written
            && t.errors == []
            && (t.sender.outstanding.None? ==> t.sender.credit <= RX_CAP - |t.firmware.rx|)
  {
    hide Run, Inv;
    FreshInv(w);
    RunKeeps(w, steps);
    InvMeans(Run(w, steps));
  }

  lemma InvMeans(t: World)
    requires Inv(t)
    ensures && t.written <= t.pushed
            && t.served <= t.written
            && |t.sender.pending| <= |t.pushed|
            && t.pushed[..|t.pushed| - |t.sender.pending|] <= t.written
            && t.errors == []
            && (t.sender.outstanding.None? ==> t.sender.credit <= RX_CAP - |t.firmware.rx|)
  {
    hide Wire, AckChannelOk, DataChannelOk;
    assert t.written == t.pushed[..|t.written|];
  }

  /**
    Every acknowledgement brings its credit, whatever else it does: also a repeated one, one that
    matches nothing, and the unsolicited ones the server's reading causes. Only the one that carries
    the next number releases the outstanding bytes.
  */
  lemma CreditTaken(w: World)
    requires Inv(w) && w.alive && w.toBridge != [] && IsAck(w.toBridge[0])
    ensures var t := Next(w, BridgeTakes);
            && t.alive && t.toBridge == w.toBridge[1..]
            && t.sender.credit == Granted(w.toBridge[0])
            && (if w.sender.outstanding.Some? && w.toBridge[0].ack == w.sender.nextSeq
                then t.sender.outstanding == None
                     && w.sender.pending == w.sender.pending[..w.sender.outstanding.value.payloadLen] + t.sender.pending
                else t.sender == w.sender.(credit := Granted(w.toBridge[0])))
  {
    hide Wire, DataChannelOk, AckChannelOk, CreditOk, Delivered;
  }

  /**
    Exactly what ends an epoch from inside: the sender has used up its numbers, or an acknowledgement
    did not fit the firmware's control ring. No frame that is lost, late or repeated ever does.
  */
  lemma EndsExactly(w: World, step: Step)
    requires Inv(w) && w.alive
    ensures w.firmware.Valid()
    ensures !Next(w, step).alive
       <==> (step == Transmit && w.sender.outstanding.None? && w.sender.pending != [] && w.sender.credit > 0
             && w.sender.nextSeq == 0xffff)
            || (step == FirmwareTakes(false) && w.toFirmware != [])
  {
    hide Inv, FirmwareStep, BridgeStep, Unwire;
    InvValid(w);
    if step.FirmwareTakes? {
      if w.toFirmware != [] && w.toFirmware[0].kind == DATA_C2M {
        DataTaken(w, step.queued);
      } else {
        OtherTaken(w, step.queued);
      }
    } else if step == BridgeTakes {
      AnswerTaken(w);
    }
  }

  lemma OtherTaken(w: World, queued: bool)
    requires w.firmware.Valid() && w.alive && (w.toFirmware != [] ==> w.toFirmware[0].kind != DATA_C2M)
    ensures Next(w, FirmwareTakes(queued)).alive <==> queued || w.toFirmware == []
  {
    hide JudgeData;
  }

  lemma AnswerTaken(w: World)
    requires Inv(w) && w.alive
    ensures w.firmware.Valid() && Next(w, BridgeTakes).alive
  {
    hide Wire, DataChannelOk, Delivered, CreditOk;
    if w.toBridge != [] {
      assert w.toBridge[0].kind == ACK_C2M ==> IsAck(w.toBridge[0]);
    }
  }

  lemma DataTaken(w: World, queued: bool)
    requires Inv(w) && w.alive && w.toFirmware != [] && w.toFirmware[0].kind == DATA_C2M
    ensures w.firmware.Valid() && (Next(w, FirmwareTakes(queued)).alive <==> queued)
  {
    InvValid(w);
    hide Wire, JudgeData, AckChannelOk, CreditOk, Delivered;
    assert DataFrameOk(w, w.toFirmware[0]);
    if w.toFirmware[0].seqNo + 1 == w.firmware.rxSeq {
      DuplicateEffect(w);
    } else {
      AcceptEffect(w);
    }
  }

  /** Sequence number 65535 is never sent, so an unsolicited ack of 0 never releases a frame. */
  lemma CreditFrameReleasesNothing(w: World)
    requires Inv(w) && w.alive && w.toBridge != []
    requires IsAck(w.toBridge[0]) && w.toBridge[0].ack == 0
    ensures BridgeStep(w).sender.pending == w.sender.pending
    ensures BridgeStep(w).sender.outstanding == w.sender.outstanding
  {
    hide Wire;
  }

  /** A frame accepted at most once: nothing but the outstanding frame is ever written. */
  lemma WritesOnlyOutstanding(w: World, step: Step)
    requires Inv(w)
    ensures var t := Next(w, step);
            t.written == w.written
            || (InFlight(w) && step.FirmwareTakes?
                && t.written == w.written + w.sender.pending[..w.sender.outstanding.value.payloadLen])
  {
    hide Wire, Unwire;
    if w.alive && step.FirmwareTakes? && w.toFirmware != [] {
      var f := w.toFirmware[0];
      assert DataFrameOk(w, f);
      assert w.firmware.rx[|w.firmware.rx|..] == [];
      assert (w.firmware.rx + f.payload)[|w.firmware.rx|..] == f.payload;
    }
  }

  /**
    Exactly when an acknowledgement of 0, which is what every unsolicited credit frame carries, would
    release a frame: only if that frame had the reserved sequence number.
  */
  lemma ZeroAckReleases(s: Sender, credit: u16)
    requires s.outstanding.Some? && 0 < s.outstanding.value.payloadLen <= |s.pending|
    ensures HandleAck(s, 0, credit).sender.pending != s.pending <==> s.outstanding.value.seqNo == 0xffff
    ensures NextFrame(s.(outstanding := None)).Send? ==> NextFrame(s.(outstanding := None)).frame.seqNo != 0xffff
  {
    assert |s.pending[s.outstanding.value.payloadLen..]| < |s.pending|;
  }
}
