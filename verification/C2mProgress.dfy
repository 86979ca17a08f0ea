/**
  The protocols are not safe by standing still. Nothing here promises that frames arrive; it says
  what can still happen: from every live state of an epoch the outstanding frame, or the next one,
  can be completed, and a reset handshake can be completed from every state it can start in.
*/
module C2mProgress {
  import opened Bytes
  import opened LinkCodec
  import opened LinkSession
  import C2mSender
  import opened C2mProtocol
  import Handshake

  /** The outstanding frame is alone on the line to the firmware and nothing comes back yet. */
  ghost predicate OnItsWay(w: World) {
    && Inv(w) && w.alive && w.sender.outstanding.Some? && w.toBridge == []
    && w.sender.outstanding.value.payloadLen <= |w.sender.pending|
    && w.toFirmware == [Frame(DATA_C2M, 0, w.sender.outstanding.value.seqNo, 0,
                              w.sender.pending[..w.sender.outstanding.value.payloadLen])]
  }

  /** Whether the firmware had it already or not, it has it now and says so. */
  lemma TakenAndAcknowledged(w: World)
    requires OnItsWay(w)
    ensures var t := Next(w, FirmwareTakes(true));
            && t.alive && t.toFirmware == [] && t.sender == w.sender && t.firmware.Valid()
            && t.firmware.rxSeq == w.sender.nextSeq
            && t.toBridge == [AckFrame(t.firmware, t.firmware.rxSeq)]
            && t.written == if InFlight(w) then w.written + w.toFirmware[0].payload else w.written
  {
    hide Wire, Unwire, DataChannelOk, AckChannelOk;
    var f := w.toFirmware[0];
    assert w.firmware.rx[|w.firmware.rx|..] == [];
    assert (w.firmware.rx + f.payload)[|w.firmware.rx|..] == f.payload;
  }

  /** The acknowledgement releases the frame and leaves the sender ready for the next. */
  lemma AcknowledgementReleases(w: World, t: World)
    requires w.sender.outstanding.Some? && 1 <= w.sender.outstanding.value.payloadLen <= |w.sender.pending|
    requires w.sender.outstanding.value.seqNo + 1 == w.sender.nextSeq
    requires t.alive && t.sender == w.sender && t.firmware.Valid() && t.firmware.rxSeq == w.sender.nextSeq
    requires t.toBridge == [AckFrame(t.firmware, t.firmware.rxSeq)]
    ensures var u := Next(t, BridgeTakes);
            && u.alive && u.toBridge == [] && u.toFirmware == t.toFirmware && u.written == t.written
            && u.sender == w.sender.(pending := w.sender.pending[w.sender.outstanding.value.payloadLen..],
                                     outstanding := None, credit := Credit(t.firmware))
  {
    CreditWord(t.firmware);
  }

  /** The frame reaches the firmware and its answer reaches the bridge. */
  ghost function Arrival(w: World): World
    requires w.firmware.Valid()
  {
    NextValid(w, FirmwareTakes(true));
    Next(Next(w, FirmwareTakes(true)), BridgeTakes)
  }

  /** One frame sent, or sent again, that arrives and is answered. */
  ghost function Exchange(w: World, send: Step): World
    requires w.firmware.Valid()
  {
    NextValid(w, send);
    Arrival(Next(w, send))
  }

  /** The first n pending bytes have been delivered, once, and nothing is outstanding. */
  ghost predicate Completed(w: World, t: World, n: nat) {
    && n <= |w.sender.pending|
    && t.alive && t.sender.outstanding == None && t.pushed == w.pushed
    && t.sender.pending == w.sender.pending[n..]
    && |t.sender.pending| <= |w.pushed|
    && t.written == w.pushed[..|w.pushed| - |t.sender.pending|]
  }

  /** Delivery of the outstanding frame, given the two arrivals. */
  lemma ArrivalCompletes(w: World)
    requires OnItsWay(w)
    ensures Completed(w, Arrival(w), w.sender.outstanding.value.payloadLen)
  {
    hide Inv, Next;
    InvValid(w);
    AgreedBounds(w);
    TakenAndAcknowledged(w);
    var t := Next(w, FirmwareTakes(true));
    AcknowledgementReleases(w, t);
    var u := Next(t, BridgeTakes);
    SamePushed(w, t, u);
    NextKeeps(w, FirmwareTakes(true));
    NextKeeps(t, BridgeTakes);
    DeliveredExactly(u);
  }

  /** With nothing outstanding, what was written is what the sender no longer holds. */
  lemma DeliveredExactly(u: World)
    requires Inv(u) && u.sender.outstanding.None?
    ensures |u.sender.pending| <= |u.pushed| && u.written == u.pushed[..|u.pushed| - |u.sender.pending|]
  {
    hide DataChannelOk, AckChannelOk, CreditOk;
    PrefixByLength(u.written, u.pushed);
  }

  lemma AgreedBounds(w: World)
    requires OnItsWay(w)
    ensures var o := w.sender.outstanding.value;
            1 <= o.payloadLen <= |w.sender.pending| && o.seqNo + 1 == w.sender.nextSeq
  {
    hide Wire;
  }

  lemma PrefixByLength(a: seq<byte>, b: seq<byte>)
    requires a <= b
    ensures a == b[..|a|]
  {
  }

  lemma SamePushed(w: World, t: World, u: World)
    requires Inv(w) && w.alive && w.toFirmware != [] && t == Next(w, FirmwareTakes(true)) && t.firmware.Valid()
    requires t.toBridge != [] && u == Next(t, BridgeTakes)
    ensures t.pushed == w.pushed && u.pushed == w.pushed
  {
    hide Inv, JudgeData, C2mSender.HandleAckFrame;
    InvValid(w);
  }

  /** Over quiet channels one undisturbed exchange delivers the next frame's bytes. */
  lemma ExchangeDelivers(w: World)
    requires Inv(w) && w.alive && w.toFirmware == [] && w.toBridge == []
    requires C2mSender.NextFrame(w.sender).Send?
    ensures C2mSender.NextPayloadLen(w.sender) > 0
    ensures Completed(w, Exchange(w, Transmit), C2mSender.NextPayloadLen(w.sender))
  {
    hide Inv, Next, OnItsWay, Arrival;
    InvValid(w);
    NextKeeps(w, Transmit);
    InvValid(Next(w, Transmit));
    SentIsOnItsWay(w);
    ArrivalCompletes(Next(w, Transmit));
  }

  lemma SentIsOnItsWay(w: World)
    requires Inv(w) && w.alive && w.toFirmware == [] && w.toBridge == [] && C2mSender.NextFrame(w.sender).Send?
    requires Inv(Next(w, Transmit))
    ensures var t := Next(w, Transmit);
            && OnItsWay(t) && t.pushed == w.pushed && t.sender.pending == w.sender.pending
            && t.sender.outstanding.value.payloadLen == C2mSender.NextPayloadLen(w.sender)
  {
    hide Inv, Wire;
    InvValid(w);
  }

  /**
    Over quiet channels, whatever was lost before, one retransmission that gets through and its answer
    complete the frame: once, also if the firmware had accepted it before.
  */
  lemma RetransmissionRepairs(w: World)
    requires Inv(w) && w.alive && w.sender.outstanding.Some? && w.toFirmware == [] && w.toBridge == []
    ensures Completed(w, Exchange(w, Retransmit), w.sender.outstanding.value.payloadLen)
  {
    hide Inv, Next, OnItsWay, Arrival;
    InvValid(w);
    NextKeeps(w, Retransmit);
    InvValid(Next(w, Retransmit));
    RetransmittedIsOnItsWay(w);
    ArrivalCompletes(Next(w, Retransmit));
  }

  lemma RetransmittedIsOnItsWay(w: World)
    requires Inv(w) && w.alive && w.sender.outstanding.Some? && w.toFirmware == [] && w.toBridge == []
    requires Inv(Next(w, Retransmit))
    ensures var t := Next(w, Retransmit);
            OnItsWay(t) && t.pushed == w.pushed && t.sender == w.sender
  {
    hide Wire, Unwire, DataChannelOk, AckChannelOk, CreditOk, Delivered;
    var o := w.sender.outstanding.value;
    UnwireWire(DATA_C2M, o.seqNo, 0, w.sender.pending[..o.payloadLen]);
  }

  // ----- from any state -----

  lemma {:induction false} RunAppend(w: World, a: seq<Step>, b: seq<Step>)
    requires w.firmware.Valid()
    ensures Run(w, a).firmware.Valid() && Run(w, a + b) == Run(Run(w, a), b)
    decreases |a|
  {
    hide Next;
    if a == [] {
      assert a + b == b;
    } else {
      NextValid(w, a[0]);
      assert (a + b)[1..] == a[1..] + b;
      RunAppend(Next(w, a[0]), a[1..], b);
    }
  }

  /** Everything still under way, in both directions, can be lost. */
  lemma {:induction false} LoseAll(w: World) returns (steps: seq<Step>)
    requires w.firmware.Valid() && w.alive
    ensures Run(w, steps) == w.(toFirmware := [], toBridge := [])
    decreases |w.toFirmware| + |w.toBridge|
  {
    if w.toFirmware == [] && w.toBridge == [] {
      steps := [];
    } else {
      var lose := if w.toFirmware != [] then LoseToFirmware(0) else LoseToBridge(0);
      var rest := LoseAll(Next(w, lose));
      steps := [lose] + rest;
      assert steps[1..] == rest;
    }
  }

  /** A sent frame, its arrival and its answer, as steps of the protocol. */
  lemma ExchangeIsRun(w: World, send: Step)
    requires w.firmware.Valid()
    ensures Run(w, [send, FirmwareTakes(true), BridgeTakes]) == Exchange(w, send)
  {
    hide Next;
    var sent := Next(w, send);
    NextValid(w, send);
    NextValid(sent, FirmwareTakes(true));
    var all := [send, FirmwareTakes(true), BridgeTakes];
    assert all[1..] == [FirmwareTakes(true), BridgeTakes] && all[1..][1..] == [BridgeTakes];
    assert [BridgeTakes][1..] == [];
    assert Run(Next(sent, FirmwareTakes(true)), [BridgeTakes]) == Arrival(sent);
    assert Run(sent, [FirmwareTakes(true), BridgeTakes]) == Arrival(sent);
  }

  lemma LossesKeep(w: World, steps: seq<Step>, t: World)
    requires Inv(w) && w.firmware.Valid() && Run(w, steps) == t
    ensures Inv(t)
  {
    hide Inv, Run;
    RunKeeps(w, steps);
  }

  lemma SameStart(w: World, t: World, u: World, n: nat)
    requires t == w.(toFirmware := [], toBridge := []) && Completed(t, u, n)
    ensures Completed(w, u, n)
  {
  }

  /**
    From every live state of an epoch with a frame outstanding, whatever is under way, has been
    accepted or was lost, some course of events completes that frame, exactly once.
  */
  lemma OutstandingCanComplete(w: World) returns (steps: seq<Step>)
    requires Inv(w) && w.alive && w.sender.outstanding.Some?
    ensures w.firmware.Valid() && Completed(w, Run(w, steps), w.sender.outstanding.value.payloadLen)
  {
    InvValid(w);
    hide Inv, Run, Next, Completed, Exchange;
    var losses := LoseAll(w);
    var t := w.(toFirmware := [], toBridge := []);
    LossesKeep(w, losses, t);
    RetransmissionRepairs(t);
    ExchangeIsRun(t, Retransmit);
    steps := losses + [Retransmit, FirmwareTakes(true), BridgeTakes];
    SameStart(w, t, Exchange(t, Retransmit), w.sender.outstanding.value.payloadLen);
    RunAppend(w, losses, [Retransmit, FirmwareTakes(true), BridgeTakes]);
  }

  // ----- credit -----

  /**
    No credit is left, and none can come: the receive ring is empty, so the server has nothing to
    read; no frame is under way that the firmware would acknowledge; and no acknowledgement under way
    grants anything.
  */
  ghost predicate Stalled(w: World) {
    && w.sender.outstanding.None? && w.sender.credit == 0 && w.firmware.rx == []
    && (forall i :: 0 <= i < |w.toFirmware| ==> w.toFirmware[i].kind != DATA_C2M)
    && (forall i :: 0 <= i < |w.toBridge| && IsAck(w.toBridge[i]) ==> Granted(w.toBridge[i]) == 0)
  }

  /** The same sender, but for its credit. */
  ghost predicate Refilled(w: World, t: World) {
    && Inv(t) && t.alive && t.pushed == w.pushed
    && t.sender == w.sender.(credit := t.sender.credit) && t.sender.credit > 0
  }

  lemma OneStep(w: World, step: Step, steps: seq<Step>)
    requires w.firmware.Valid()
    ensures Next(w, step).firmware.Valid() && Run(w, [step] + steps) == Run(Next(w, step), steps)
  {
    hide Next;
    NextValid(w, step);
    assert ([step] + steps)[1..] == steps;
  }

  /** A positive acknowledgement at the front of the line is all it takes. */
  lemma TakeCredit(w: World)
    requires Inv(w) && w.alive && w.sender.outstanding.None?
    requires w.toBridge != [] && IsAck(w.toBridge[0]) && Granted(w.toBridge[0]) > 0
    ensures Refilled(w, Next(w, BridgeTakes))
  {
    hide Inv;
    CreditTaken(w);
    NextKeeps(w, BridgeTakes);
    BridgePushesNothing(w);
  }

  lemma BridgePushesNothing(w: World)
    requires Inv(w)
    ensures w.firmware.Valid() && Next(w, BridgeTakes).pushed == w.pushed
  {
    hide C2mSender.HandleAckFrame, DataChannelOk, AckChannelOk, Delivered, Wire;
  }

  /** The server reads its ring empty and the credit frame that causes arrives. */
  lemma ServerRefills(w: World)
    requires Inv(w) && w.alive && w.sender.outstanding.None? && w.toBridge == [] && w.firmware.rx != []
    ensures w.firmware.Valid()
    ensures var t := Next(w, ServerReads(|w.firmware.rx|, true));
            && Inv(t) && t.alive && t.sender == w.sender && t.pushed == w.pushed
            && t.toBridge != [] && IsAck(t.toBridge[0]) && Granted(t.toBridge[0]) > 0
  {
    InvValid(w);
    NextKeeps(w, ServerReads(|w.firmware.rx|, true));
    var t := Next(w, ServerReads(|w.firmware.rx|, true));
    assert t.firmware.Valid();
    CreditWord(t.firmware);
    hide Inv;
  }

  /** A frame the firmware already has is acknowledged again, with whatever credit there is by then. */
  lemma DuplicateRefills(w: World)
    requires Inv(w) && w.alive && w.sender.outstanding.None? && w.toBridge == [] && w.firmware.rx == []
    requires w.toFirmware != [] && w.toFirmware[0].kind == DATA_C2M
    ensures w.firmware.Valid()
    ensures var t := Next(w, FirmwareTakes(true));
            && Inv(t) && t.alive && t.sender == w.sender && t.pushed == w.pushed
            && t.toBridge != [] && IsAck(t.toBridge[0]) && Granted(t.toBridge[0]) > 0
  {
    InvValid(w);
    hide Inv, Next;
    OnlyDuplicates(w);
    DuplicateEffect(w);
    DuplicateStep(w);
    CreditWord(w.firmware);
    NextKeeps(w, FirmwareTakes(true));
  }

  lemma DuplicateStep(w: World)
    requires w.firmware.Valid() && w.alive && w.toBridge == []
    requires w.toFirmware != [] && w.toFirmware[0].kind == DATA_C2M
    requires JudgeData(w.firmware, w.toFirmware[0])
          == Verdict(w.firmware, AckFrame(w.firmware, w.firmware.rxSeq), false)
    ensures var t := Next(w, FirmwareTakes(true));
            && t.alive && t.sender == w.sender && t.pushed == w.pushed
            && t.toBridge == [AckFrame(w.firmware, w.firmware.rxSeq)]
  {
    hide JudgeData, Credit;
    assert [] + [AckFrame(w.firmware, w.firmware.rxSeq)] == [AckFrame(w.firmware, w.firmware.rxSeq)];
  }

  /** With nothing outstanding, every data frame still under way is one the firmware has. */
  lemma OnlyDuplicates(w: World)
    requires Inv(w) && w.sender.outstanding.None? && w.toFirmware != [] && w.toFirmware[0].kind == DATA_C2M
    ensures w.toFirmware[0].seqNo + 1 == w.firmware.rxSeq
  {
    hide Wire, AckChannelOk, CreditOk, Delivered;
    assert DataFrameOk(w, w.toFirmware[0]);
  }

  lemma LoseFirstKeeps(w: World)
    requires Inv(w) && w.alive
    ensures w.firmware.Valid()
    ensures w.toFirmware != [] ==>
      var t := Next(w, LoseToFirmware(0)); Inv(t) && t == w.(toFirmware := w.toFirmware[1..])
    ensures w.toBridge != [] ==>
      var t := Next(w, LoseToBridge(0)); Inv(t) && t == w.(toBridge := w.toBridge[1..])
  {
    InvValid(w);
    NextKeeps(w, LoseToFirmware(0));
    NextKeeps(w, LoseToBridge(0));
    hide Inv;
    assert w.toFirmware != [] ==> Remove(w.toFirmware, 0) == w.toFirmware[1..];
    assert w.toBridge != [] ==> Remove(w.toBridge, 0) == w.toBridge[1..];
  }

  /** Unless it is stalled, a sender with nothing outstanding can come by credit. */
  lemma {:induction false} CreditCanCome(w: World) returns (steps: seq<Step>)
    requires Inv(w) && w.alive && w.sender.outstanding.None? && !Stalled(w)
    ensures w.firmware.Valid() && Refilled(w, Run(w, steps))
    decreases |w.toFirmware| + |w.toBridge|
  {
    InvValid(w);
    hide Inv, Next, Wire;
    if w.sender.credit > 0 {
      steps := [];
    } else if w.toBridge != [] && IsAck(w.toBridge[0]) && Granted(w.toBridge[0]) > 0 {
      TakeCredit(w);
      steps := [BridgeTakes] + [];
      OneStep(w, BridgeTakes, []);
    } else if w.toBridge != [] {
      LoseFirstKeeps(w);
      var t := Next(w, LoseToBridge(0));
      if Stalled(t) {
        StalledBefore(w, t);
      }
      var rest := CreditCanCome(t);
      steps := [LoseToBridge(0)] + rest;
      OneStep(w, LoseToBridge(0), rest);
    } else if w.firmware.rx != [] {
      ServerRefills(w);
      steps := TwoStepsRefill(w, ServerReads(|w.firmware.rx|, true));
    } else if w.toFirmware[0].kind == DATA_C2M {
      DuplicateRefills(w);
      steps := TwoStepsRefill(w, FirmwareTakes(true));
    } else {
      LoseFirstKeeps(w);
      var t := Next(w, LoseToFirmware(0));
      if Stalled(t) {
        StalledBefore(w, t);
      }
      var rest := CreditCanCome(t);
      steps := [LoseToFirmware(0)] + rest;
      OneStep(w, LoseToFirmware(0), rest);
    }
  }

  /** Losing a frame that carries no credit and asks for none does not stall a sender. */
  lemma StalledBefore(w: World, t: World)
    requires Stalled(t)
    requires (w.toBridge != [] && t == w.(toBridge := w.toBridge[1..])
              && !(IsAck(w.toBridge[0]) && Granted(w.toBridge[0]) > 0))
          || (w.toFirmware != [] && t == w.(toFirmware := w.toFirmware[1..]) && w.toFirmware[0].kind != DATA_C2M)
    ensures Stalled(w)
  {
    hide Granted;
    if t.toBridge != w.toBridge {
      assert forall i :: 0 < i < |w.toBridge| ==> w.toBridge[i] == t.toBridge[i - 1];
    }
    if t.toFirmware != w.toFirmware {
      assert forall i :: 0 < i < |w.toFirmware| ==> w.toFirmware[i] == t.toFirmware[i - 1];
    }
  }

  lemma TwoStepsRefill(w: World, step: Step) returns (steps: seq<Step>)
    requires w.firmware.Valid()
    requires var t := Next(w, step);
             && Inv(t) && t.alive && t.sender == w.sender && t.pushed == w.pushed && t.sender.outstanding.None?
             && t.toBridge != [] && IsAck(t.toBridge[0]) && Granted(t.toBridge[0]) > 0
    ensures Refilled(w, Run(w, steps))
  {
    hide Inv, Next;
    var t := Next(w, step);
    InvValid(t);
    TakeCredit(t);
    steps := [step] + ([BridgeTakes] + []);
    OneStep(w, step, [BridgeTakes] + []);
    OneStep(t, BridgeTakes, []);
  }

  /** From every live state whose sender has credit, bytes and a number left, the next bytes can be delivered. */
  lemma SendableCanComplete(w: World) returns (steps: seq<Step>)
    requires Inv(w) && w.alive && C2mSender.NextFrame(w.sender).Send?
    ensures w.firmware.Valid() && C2mSender.NextPayloadLen(w.sender) > 0
            && Completed(w, Run(w, steps), C2mSender.NextPayloadLen(w.sender))
  {
    InvValid(w);
    hide Inv, Run, Next, Completed, Exchange;
    var losses := LoseAll(w);
    var t := w.(toFirmware := [], toBridge := []);
    LossesKeep(w, losses, t);
    ExchangeDelivers(t);
    ExchangeIsRun(t, Transmit);
    steps := losses + [Transmit, FirmwareTakes(true), BridgeTakes];
    SameStart(w, t, Exchange(t, Transmit), C2mSender.NextPayloadLen(w.sender));
    RunAppend(w, losses, [Transmit, FirmwareTakes(true), BridgeTakes]);
  }

  lemma SameBytes(w: World, t: World, u: World, n: nat)
    requires Refilled(w, t) && Completed(t, u, n)
    ensures Completed(w, u, n)
  {
    hide Inv;
  }

  /**
    From every live state of an epoch with nothing outstanding, bytes pending and a number left, some
    course of events delivers the next bytes, once, unless the sender is stalled. With credit in hand
    it is as many as pending bytes, negotiated payload and credit allow.
  */
  lemma NextCanComplete(w: World) returns (steps: seq<Step>, n: nat)
    requires Inv(w) && w.alive && w.sender.outstanding.None? && w.sender.pending != [] && w.sender.nextSeq != 0xffff
    requires !Stalled(w)
    ensures w.firmware.Valid() && n > 0 && Completed(w, Run(w, steps), n)
    ensures w.sender.credit > 0 ==> n == Min(Min(|w.sender.pending|, w.sender.negotiated), w.sender.credit)
  {
    InvValid(w);
    NegotiatedBounds(w);
    hide Inv, Run, Next, Completed, Stalled;
    if w.sender.credit > 0 {
      n := C2mSender.NextPayloadLen(w.sender);
      steps := SendableCanComplete(w);
    } else {
      var first := CreditCanCome(w);
      var t := Run(w, first);
      n := C2mSender.NextPayloadLen(t.sender);
      var rest := SendableCanComplete(t);
      steps := first + rest;
      RunAppend(w, first, rest);
      SameBytes(w, t, Run(t, rest), n);
    }
  }

  lemma NegotiatedBounds(w: World)
    requires Inv(w)
    ensures 1 <= w.sender.negotiated <= MAX_PAYLOAD
  {
    hide Wire, DataChannelOk, AckChannelOk, CreditOk, Delivered;
  }

  /** And a stalled sender stays stalled: whatever happens from there, no byte is ever delivered. */
  lemma {:induction false} StalledForever(w: World, steps: seq<Step>)
    requires w.firmware.Valid() && Stalled(w)
    ensures Stalled(Run(w, steps)) && Run(w, steps).written == w.written
    decreases |steps|
  {
    hide Next, Stalled;
    if steps != [] {
      NextValid(w, steps[0]);
      StalledStays(w, steps[0]);
      StalledForever(Next(w, steps[0]), steps[1..]);
    }
  }

  lemma StalledStays(w: World, step: Step)
    requires w.firmware.Valid() && Stalled(w)
    ensures Stalled(Next(w, step)) && Next(w, step).written == w.written
  {
    hide Wire, Unwire, JudgeData;
  }

  // ----- the reset handshake -----

  /** From every state in which RESET has just been sent, some course of events completes the handshake. */
  lemma {:induction false} HandshakeCanComplete(w: Handshake.World) returns (steps: seq<Handshake.Step>)
    requires Handshake.ResetSent(w)
    ensures Handshake.Run(w, steps).bridge.result.Some?
    decreases |w.toFirmware| + |w.wire|
  {
    if |w.toFirmware| > 1 {
      LoseOneKeeps(w);
      var rest := HandshakeCanComplete(Handshake.Next(w, Handshake.LoseToFirmware(0)));
      steps := [Handshake.LoseToFirmware(0)] + rest;
      assert steps[1..] == rest;
    } else if w.wire != [] {
      LoseReplyKeeps(w);
      var rest := HandshakeCanComplete(Handshake.Next(w, Handshake.LoseOnWire(0)));
      steps := [Handshake.LoseOnWire(0)] + rest;
      assert steps[1..] == rest;
    } else {
      steps := [Handshake.FirmwareTakes(true), Handshake.Emit, Handshake.Emit,
                Handshake.BridgeTakes, Handshake.BridgeTakes];
      QuietHandshake(w);
      FiveSteps(w, steps[0], steps[1], steps[2], steps[3], steps[4]);
    }
  }

  lemma LoseOneKeeps(w: Handshake.World)
    requires Handshake.ResetSent(w) && |w.toFirmware| > 1
    ensures var t := Handshake.Next(w, Handshake.LoseToFirmware(0));
            Handshake.ResetSent(t) && |t.toFirmware| == |w.toFirmware| - 1 && t.wire == w.wire
  {
    assert Remove(w.toFirmware, 0) == w.toFirmware[1..];
  }

  lemma LoseReplyKeeps(w: Handshake.World)
    requires Handshake.ResetSent(w) && w.wire != []
    ensures var t := Handshake.Next(w, Handshake.LoseOnWire(0));
            Handshake.ResetSent(t) && |t.wire| == |w.wire| - 1 && t.toFirmware == w.toFirmware
  {
    assert Remove(w.wire, 0) == w.wire[1..];
  }

  /** RESET arrives, RESET_ACK and READY go out, and the bridge reads both. */
  lemma QuietHandshake(w: Handshake.World)
    requires Handshake.ResetSent(w) && |w.toFirmware| == 1 && w.wire == []
    ensures var a := Handshake.Next(w, Handshake.FirmwareTakes(true));
            && a.firmware.Valid()
            && var b := Handshake.Next(a, Handshake.Emit);
            && b.firmware.Valid()
            && var c := Handshake.Next(b, Handshake.Emit);
            && c.firmware.Valid()
            && var d := Handshake.Next(c, Handshake.BridgeTakes);
            && d.firmware.Valid()
            && Handshake.Next(d, Handshake.BridgeTakes).bridge.result.Some?
  {
  }

  lemma {:induction false} FiveSteps(
    w: Handshake.World, p: Handshake.Step, q: Handshake.Step, r: Handshake.Step, s: Handshake.Step, t: Handshake.Step)
    requires w.firmware.Valid() && w.firmware.rateMask % 2 == 1
    ensures var a := Handshake.Next(w, p);
            && a.firmware.Valid()
            && var b := Handshake.Next(a, q);
            && b.firmware.Valid()
            && var c := Handshake.Next(b, r);
            && c.firmware.Valid()
            && var d := Handshake.Next(c, s);
            && d.firmware.Valid()
            && Handshake.Run(w, [p, q, r, s, t]) == Handshake.Next(d, t)
  {
    hide Handshake.Next;
    var a := Handshake.Next(w, p);
    Handshake.NextValid(w, p);
    var b := Handshake.Next(a, q);
    Handshake.NextValid(a, q);
    var c := Handshake.Next(b, r);
    Handshake.NextValid(b, r);
    var d := Handshake.Next(c, s);
    Handshake.NextValid(c, s);
    Handshake.NextValid(d, t);
    var all := [p, q, r, s, t];
    assert all[1..] == [q, r, s, t] && [q, r, s, t][1..] == [r, s, t] && [r, s, t][1..] == [s, t] && [s, t][1..] == [t];
    assert [t][1..] == [];
    assert Handshake.Run(d, [t]) == Handshake.Next(d, t);
    assert Handshake.Run(c, [s, t]) == Handshake.Run(d, [t]);
    assert Handshake.Run(b, [r, s, t]) == Handshake.Run(c, [s, t]);
  }
}
