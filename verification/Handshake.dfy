/**
  The reset handshake: the bridge sends RESET with a fresh sequence number and waits for the matching
  RESET_ACK and then READY, over channels still full of frames from earlier. When it returns, both
  ends agree and nothing stale is left anywhere; that is the state the delivery proof of
  `C2mProtocol` starts from.
*/
module Handshake {
  import opened Bytes
  import opened LinkCodec
  import opened LinkParser
  import opened LinkSession
  import TxMux
  import C2mSender
  import C2mProtocol

  // ----- READY payloads -----

  datatype ReadyFields = ReadyFields(
    negotiated: u16, creditCap: u16, initialCredit: u16, rateMask: u16, profile: byte, flags: u16)

  datatype ReadyState = ReadyState(negotiated: nat, initialCredit: u16, rateMask: u16)

  /** `parse_ready` */
  function ParseReady(p: seq<byte>): Option<ReadyFields> {
    if |p| != 11 then None
    else Some(ReadyFields(Word(p[0], p[1]), Word(p[2], p[3]), Word(p[4], p[5]), Word(p[6], p[7]), p[8],
                          Word(p[9], p[10])))
  }

  /** `normalize_ready` */
  function Normalize(r: ReadyFields): Option<ReadyState> {
    if r.negotiated == 0 || r.creditCap == 0 || r.initialCredit == 0 then None
    else if r.initialCredit > r.creditCap then None
    else if r.profile != 0 then None
    else if r.rateMask % 2 == 0 then None  // the bit of profile 0
    else Some(ReadyState(Min(r.negotiated, MAX_PAYLOAD), r.initialCredit, r.rateMask))
  }

  function Accepted(payload: seq<byte>): Option<ReadyState> {
    match ParseReady(payload)
    case None => None
    case Some(fields) => Normalize(fields)
  }

  /** The eleven bytes read back as the fields they were made from. */
  lemma ReadyBytesRead(negotiated: u16, creditCap: u16, rateMask: u16)
    ensures ParseReady(ReadyBytes(negotiated, creditCap, rateMask))
         == Some(ReadyFields(negotiated, creditCap, creditCap, rateMask, 0, 0))
  {
    var p := ReadyBytes(negotiated, creditCap, rateMask);
    assert |p| == 11 && p[8] == 0 && p[9] == 0 && p[10] == 0;
    assert Word(p[0], p[1]) == negotiated && Word(p[2], p[3]) == creditCap;
    assert Word(p[4], p[5]) == creditCap && Word(p[6], p[7]) == rateMask;
  }

  /** Every READY the firmware sends is accepted, and carries its own negotiated values. */
  lemma FirmwareReadyAccepted(s: Session)
    requires s.Valid() && s.rateMask % 2 == 1
    ensures Accepted(ReadyPayload(s)) == Some(ReadyState(s.negotiated, s.creditCap, s.rateMask))
  {
    hide ReadyBytes, ParseReady;
    ReadyBytesRead(s.negotiated, s.creditCap, s.rateMask);
  }

  /**
    Which READY the bridge takes, by its six fields: no limit and no credit may be 0, the credit to start
    with may not exceed the credit limit, and the profile must be 0 and be among those offered. It then
    takes over the credit and the profiles, and of the payload at most its own limit.
  */
  lemma ReadyUsable(payload: u16, cap: u16, initial: u16, mask: u16, profile: byte, flags: u16)
    ensures Accepted(Le(payload) + Le(cap) + Le(initial) + Le(mask) + [profile] + Le(flags))
         == if payload > 0 && 0 < initial <= cap && profile == 0 && Offers(mask, 0)
            then Some(ReadyState(Min(payload, MAX_PAYLOAD), initial, mask)) else None
  {
    var p := Le(payload) + Le(cap) + Le(initial) + Le(mask) + [profile] + Le(flags);
    assert |p| == 11 && p[8] == profile;
    assert Word(p[0], p[1]) == payload && Word(p[2], p[3]) == cap;
    assert Word(p[4], p[5]) == initial && Word(p[6], p[7]) == mask;
  }

  // ----- the bridge's wait -----

  datatype Waiting = Waiting(sawAck: bool, result: Option<ReadyState>)

  /** One decoded frame, as `reset_link_and_wait_ready_with_seq` treats it; frames after success are not looked at. */
  function OnFrame(resetSeq: u16, st: Waiting, f: Frame): Waiting {
    if st.result.Some? then st
    else if f.kind == RESET_ACK && f.seqNo == resetSeq then st.(sawAck := true)
    else if f.kind == READY && st.sawAck then st.(result := Accepted(f.payload))
    else st
  }

  function OnFrames(resetSeq: u16, st: Waiting, frames: seq<Frame>): Waiting
    decreases |frames|
  {
    if frames == [] then st else OnFrames(resetSeq, OnFrame(resetSeq, st, frames[0]), frames[1..])
  }

  /** The event loop, up to the first usable READY; decode errors are logged and skipped. */
  method AwaitReady(resetSeq: u16, events: seq<Event>) returns (result: Option<ReadyState>)
    ensures result == OnFrames(resetSeq, Waiting(false, None), FramesIn(events)).result
  {
    hide Accepted;
    var sawAck := false;
    var i := 0;
    assert events[0..] == events;
    while i < |events|
      invariant 0 <= i <= |events|
      invariant OnFrames(resetSeq, Waiting(sawAck, None), FramesIn(events[i..])).result
             == OnFrames(resetSeq, Waiting(false, None), FramesIn(events)).result
    {
      assert events[i..][0] == events[i] && events[i..][1..] == events[i + 1..];
      if events[i].Got? {
        var f := events[i].frame;
        assert FramesIn(events[i..])[0] == f && FramesIn(events[i..])[1..] == FramesIn(events[i + 1..]);
        if f.kind == RESET_ACK && f.seqNo == resetSeq {
          sawAck := true;
        } else if f.kind == READY && sawAck {
          var ready := Accepted(f.payload);
          if ready.Some? {
            DoneStays(resetSeq, Waiting(true, ready), FramesIn(events[i + 1..]));
            return ready;
          }
        }
      } else {
        assert FramesIn(events[i..]) == FramesIn(events[i + 1..]);
      }
      i := i + 1;
    }
    assert events[i..] == [];
    return None;
  }

  lemma {:induction false} DoneStays(resetSeq: u16, st: Waiting, frames: seq<Frame>)
    requires st.result.Some?
    ensures OnFrames(resetSeq, st, frames) == st
    decreases |frames|
  {
    if frames != [] {
      DoneStays(resetSeq, st, frames[1..]);
    }
  }

  // ----- messages -----

  /** A frame on its way to the bridge; a READY of the firmware by its fields, not its bytes. */
  datatype Message = Ready(negotiated: u16, creditCap: u16, rateMask: u16) | Other(frame: Frame)

  function ToFrame(m: Message): Frame {
    match m
    case Ready(negotiated, creditCap, rateMask) => Frame(READY, 0, 0, 0, ReadyBytes(negotiated, creditCap, rateMask))
    case Other(f) => f
  }

  function ToFrames(ms: seq<Message>): seq<Frame> {
    seq(|ms|, i requires 0 <= i < |ms| => ToFrame(ms[i]))
  }

  function OnMessage(resetSeq: u16, st: Waiting, m: Message): Waiting {
    match m
    case Other(f) => OnFrame(resetSeq, st, f)
    case Ready(negotiated, creditCap, rateMask) =>
      if st.result.Some? || !st.sawAck then st
      else st.(result := Normalize(ReadyFields(negotiated, creditCap, creditCap, rateMask, 0, 0)))
  }

  /** The bridge treats a message as it treats the frame that carries it. */
  lemma MessageIsFrame(resetSeq: u16, st: Waiting, m: Message)
    ensures OnMessage(resetSeq, st, m) == OnFrame(resetSeq, st, ToFrame(m))
  {
    hide ReadyBytes, ParseReady;
    if m.Ready? {
      ReadyBytesRead(m.negotiated, m.creditCap, m.rateMask);
    }
  }

  // ----- both ends and the two channels -----

  /**
    The firmware's outgoing frames are two queues, control ahead of data, feeding the wire; a frame
    whose transmission has begun counts as being on the wire.
  */
  datatype World = World(
    resetSeq: u16,
    bridge: Waiting,
    toFirmware: seq<Frame>,
    firmware: Session,
    control: seq<Message>,
    data: seq<Frame>,
    wire: seq<Message>,
    serverTx: seq<byte>,   // bytes the Minecraft server wants to send
    serverIdle: bool,      // freshly initialised: it has read nothing and so writes nothing
    handled: bool)         // our RESET has reached the firmware

  datatype Step =
    | FirmwareTakes(queued: bool)                   // whether the reply fitted the control ring
    | ServerReads(n: nat, output: seq<byte>, queued: bool)
    | ServerFails(n: nat, errorQueued: bool, readyQueued: bool)  // a packet the server cannot parse
    | ServerTicks(output: seq<byte>)
    | ServerEmpties                                 // a client's handshake empties the server's own ring
    | OutputReset                                   // and the main loop drops what it had queued
    | QueueData
    | Emit
    | LoseToFirmware(i: nat)
    | LoseOnWire(i: nat)
    | BridgeTakes

  /** `reset_connection_quiet`: rings emptied, server initialised, queued data dropped. */
  function ResetConnection(w: World): World {
    w.(firmware := w.firmware.(rx := []), serverTx := [], serverIdle := true, data := [])
  }

  function ReadyMessage(s: Session): Message {
    Ready(s.negotiated, s.creditCap, s.rateMask)
  }

  /** Queue a reply; if the ring is full the receive call fails and the main loop resets the connection. */
  function Reply(w: World, f: Frame, queued: bool): World {
    if queued then w.(control := w.control + [Other(f)]) else ResetConnection(w)
  }

  function FirmwareStep(w: World, queued: bool): World
    requires w.firmware.Valid() && w.toFirmware != []
  {
    var f := w.toFirmware[0];
    var t := w.(toFirmware := w.toFirmware[1..]);
    if f.kind == RESET then
      var fw := ResetLink(t.firmware);
      ResetConnection(t.(firmware := fw, handled := t.handled || f.seqNo == t.resetSeq,
                         control := [Other(Frame(RESET_ACK, 0, f.seqNo, f.ack, [])), ReadyMessage(fw)]))
    else if f.kind == HELLO then
      match HelloSession(t.firmware, f)
      case None => Reply(t, ErrorFrame(ERR_BAD_LENGTH, 0), queued)
      case Some(fw) => t.(firmware := fw, control := [ReadyMessage(fw)], data := [])
    else if f.kind == DATA_C2M then
      var v := JudgeData(t.firmware, f);
      var u := Reply(t.(firmware := v.session), v.reply, queued);
      if v.failed then ResetConnection(u) else u
    else if f.kind == RATE_PROBE then Reply(t, Frame(RATE_PROBE_ACK, 0, f.seqNo, f.ack, f.payload), queued)
    else if f.kind == PING then Reply(t, Frame(PONG, 0, f.seqNo, f.ack, f.payload), queued)
    else Reply(t, ErrorFrame(ERR_UNEXPECTED_TYPE, f.kind), queued)
  }

  function Next(w: World, step: Step): World
    requires w.firmware.Valid()
  {
    match step
    case FirmwareTakes(queued) => if w.toFirmware != [] then FirmwareStep(w, queued) else w
    case ServerReads(n, output, queued) =>
      if 0 < n <= |w.firmware.rx| then
        var fw := w.firmware.(rx := w.firmware.rx[n..]);
        w.(firmware := fw, serverTx := w.serverTx + output, serverIdle := false,
           control := if queued then w.control + [Other(AckFrame(fw, 0))] else w.control)
      else w
    case ServerFails(n, errorQueued, readyQueued) =>
      if 0 < n <= |w.firmware.rx| then
        ResetConnection(
          if errorQueued then
            w.(firmware := ResetKeepingControl(w.firmware), data := [],
               control := w.control + [Other(ErrorFrame(ERR_PROTOCOL_STATE, 0))]
                          + if readyQueued then [ReadyMessage(w.firmware)] else [])
          else w)
      else w
    case ServerTicks(output) => if w.serverIdle then w else w.(serverTx := w.serverTx + output)
    case ServerEmpties => if w.serverIdle then w else w.(serverTx := [])
    case OutputReset => if w.serverIdle then w else w.(data := [])
    case QueueData =>
      var n := Min(|w.serverTx|, w.firmware.negotiated);
      if n == 0 then w
      else w.(data := w.data + [Frame(DATA_M2C, 0, w.firmware.txSeq, w.firmware.rxSeq, w.serverTx[..n])],
              serverTx := w.serverTx[n..],
              firmware := w.firmware.(txSeq := Succ(w.firmware.txSeq)))
    case Emit =>
      if w.control != [] then w.(wire := w.wire + [w.control[0]], control := w.control[1..])
      else if w.data != [] then w.(wire := w.wire + [Other(w.data[0])], data := w.data[1..])
      else w
    case LoseToFirmware(i) =>
      if i < |w.toFirmware| then w.(toFirmware := C2mProtocol.Remove(w.toFirmware, i)) else w
    case LoseOnWire(i) => if i < |w.wire| then w.(wire := C2mProtocol.Remove(w.wire, i)) else w
    case BridgeTakes =>
      if w.wire != [] && w.bridge.result.None?
      then w.(bridge := OnMessage(w.resetSeq, w.bridge, w.wire[0]), wire := w.wire[1..])
      else w
  }

  // ----- agreement -----

  predicate OurReset(w: World, f: Frame) {
    f.kind == RESET && f.seqNo == w.resetSeq
  }

  predicate OurAck(w: World, m: Message) {
    m.Other? && m.frame.kind == RESET_ACK && m.frame.seqNo == w.resetSeq
  }

  /** Frames still on their way to the bridge, in the order it will see them. */
  function Coming(w: World): seq<Message> {
    w.wire + w.control
  }

  /** Before our RESET arrives: nothing answers to its number. */
  ghost predicate Stale(w: World) {
    && !w.bridge.sawAck && w.bridge.result.None?
    && (forall i :: 0 <= i < |w.toFirmware| && OurReset(w, w.toFirmware[i]) ==> i == |w.toFirmware| - 1)
    && (forall i :: 0 <= i < |w.wire| ==> !OurAck(w, w.wire[i]))
    && (forall i :: 0 <= i < |w.control| ==> !OurAck(w, w.control[i]))
    && (forall i :: 0 <= i < |w.data| ==> w.data[i].kind == DATA_M2C)
  }

  function Agreed(s: Session): ReadyState {
    ReadyState(s.negotiated, s.creditCap, s.rateMask)
  }

  /** Both counters zero, nothing buffered, nothing to send. */
  ghost predicate Quiet(w: World) {
    && w.toFirmware == [] && w.data == [] && w.serverTx == [] && w.serverIdle
    && w.firmware.rxSeq == 0 && w.firmware.txSeq == 0 && w.firmware.rx == [] && w.firmware.ready
  }

  /** After it: only the READY behind our RESET_ACK is still of interest, and nothing else can follow. */
  ghost predicate Answered(w: World) {
    && Quiet(w)
    && (w.bridge.sawAck && w.bridge.result.None? ==> Coming(w) == [] || Coming(w) == [ReadyMessage(w.firmware)])
    && (w.bridge.result.Some? ==> w.bridge.sawAck && Coming(w) == []
                                  && w.bridge.result == Some(Agreed(w.firmware)))
    && (!w.bridge.sawAck ==>
          && w.bridge.result.None?
          && forall i :: 0 <= i < |Coming(w)| && OurAck(w, Coming(w)[i]) ==>
               Coming(w)[i + 1..] == [] || Coming(w)[i + 1..] == [ReadyMessage(w.firmware)])
  }

  ghost predicate Inv(w: World) {
    && w.firmware.Valid() && w.firmware.rateMask % 2 == 1
    && if w.handled then Answered(w) else Stale(w)
  }

  lemma ReceiveValid(w: World, queued: bool)
    requires w.firmware.Valid() && w.firmware.rateMask % 2 == 1 && w.toFirmware != []
    ensures FirmwareStep(w, queued).firmware.Valid() && FirmwareStep(w, queued).firmware.rateMask % 2 == 1
  {
    hide JudgeData, HelloSession, TxMux.ResetAll;
  }

  lemma NextValid(w: World, step: Step)
    requires w.firmware.Valid() && w.firmware.rateMask % 2 == 1
    ensures Next(w, step).firmware.Valid() && Next(w, step).firmware.rateMask % 2 == 1
  {
    hide OnMessage, FirmwareStep;
    if step.FirmwareTakes? && w.toFirmware != [] {
      ReceiveValid(w, step.queued);
    }
  }

  lemma StaleStep(w: World, step: Step)
    requires Inv(w) && !w.handled && !step.FirmwareTakes?
    ensures Inv(Next(w, step))
  {
    NextValid(w, step);
    if step == BridgeTakes {
      StaleTaken(w);
    } else if step.ServerReads? || step.ServerFails? {
      StaleServed(w, step);
    } else {
      StaleMoved(w, step);
    }
  }

  lemma StaleServed(w: World, step: Step)
    requires Inv(w) && !w.handled && (step.ServerReads? || step.ServerFails?)
    ensures Stale(Next(w, step)) && !Next(w, step).handled
  {
    hide OnMessage, FirmwareStep, TxMux.DropQueued;
  }

  lemma StaleMoved(w: World, step: Step)
    requires Inv(w) && !w.handled
    requires !step.FirmwareTakes? && !step.ServerReads? && !step.ServerFails? && !step.BridgeTakes?
    ensures Stale(Next(w, step)) && !Next(w, step).handled
  {
    hide OnMessage, FirmwareStep;
  }

  /** Nothing that comes is our RESET_ACK, so the bridge goes on waiting. */
  lemma StaleTaken(w: World)
    requires Inv(w) && !w.handled
    ensures Stale(Next(w, BridgeTakes)) && !Next(w, BridgeTakes).handled
  {
    hide Accepted, Normalize;
  }

  lemma StaleReceive(w: World, queued: bool)
    requires Inv(w) && !w.handled && w.toFirmware != []
    ensures Inv(FirmwareStep(w, queued))
  {
    ReceiveValid(w, queued);
    if OurReset(w, w.toFirmware[0]) {
      OurResetHandled(w, queued);
    } else if w.toFirmware[0].kind == DATA_C2M {
      StaleData(w, queued);
    } else {
      StaleOther(w, queued);
    }
  }

  lemma StaleData(w: World, queued: bool)
    requires Inv(w) && !w.handled && w.toFirmware != [] && w.toFirmware[0].kind == DATA_C2M
    ensures Stale(FirmwareStep(w, queued)) && !FirmwareStep(w, queued).handled
  {
    hide JudgeData;
  }

  lemma StaleOther(w: World, queued: bool)
    requires Inv(w) && !w.handled && w.toFirmware != [] && w.toFirmware[0].kind != DATA_C2M
    requires !OurReset(w, w.toFirmware[0])
    ensures Stale(FirmwareStep(w, queued)) && !FirmwareStep(w, queued).handled
  {
    hide HelloSession, TxMux.ResetAll;
  }

  /** Our RESET is the last frame under way, so handling it leaves the firmware quiet. */
  lemma OurResetHandled(w: World, queued: bool)
    requires Inv(w) && !w.handled && w.toFirmware != [] && OurReset(w, w.toFirmware[0])
    ensures Answered(FirmwareStep(w, queued))
  {
    var t := FirmwareStep(w, queued);
    assert t.toFirmware == [];
    assert t.control == [Other(Frame(RESET_ACK, 0, w.resetSeq, w.toFirmware[0].ack, [])), ReadyMessage(t.firmware)];
    assert Coming(t)[|w.wire| + 1..] == [ReadyMessage(t.firmware)];
  }

  lemma EmitAnswered(w: World)
    requires Inv(w) && w.handled
    ensures Inv(Next(w, Emit))
  {
    assert Coming(Next(w, Emit)) == Coming(w);
    hide Coming;
  }

  /** Losing one of the frames still coming leaves no more than there was behind our RESET_ACK. */
  lemma LoseAnswered(w: World, i: nat)
    requires Inv(w) && w.handled
    ensures Inv(Next(w, LoseOnWire(i)))
  {
    if i < |w.wire| {
      var t := Next(w, LoseOnWire(i));
      RemoveFromFront(w.wire, w.control, i);
      assert Coming(t) == C2mProtocol.Remove(Coming(w), i);
      hide Coming;
      forall k | 0 <= k < |Coming(t)| && !w.bridge.sawAck && OurAck(t, Coming(t)[k])
        ensures Coming(t)[k + 1..] == [] || Coming(t)[k + 1..] == [ReadyMessage(t.firmware)]
      {
        RemoveTail(Coming(w), i, k);
      }
    }
  }

  lemma RemoveFromFront<T>(a: seq<T>, b: seq<T>, i: nat)
    requires i < |a|
    ensures C2mProtocol.Remove(a, i) + b == C2mProtocol.Remove(a + b, i)
  {
  }

  lemma RemoveTail<T>(s: seq<T>, i: nat, k: nat)
    requires i < |s| && k < |s| - 1
    ensures var t := C2mProtocol.Remove(s, i);
            && (k < i ==> t[k] == s[k] && |t[k + 1..]| + 1 == |s[k + 1..]|)
            && (k >= i ==> t[k] == s[k + 1] && t[k + 1..] == s[k + 2..])
  {
  }

  lemma TakeAnswered(w: World)
    requires Inv(w) && w.handled
    ensures Inv(Next(w, BridgeTakes))
  {
    if w.wire != [] && w.bridge.result.None? {
      var t, c := Next(w, BridgeTakes), Coming(w);
      assert Coming(t) == c[1..] && c[0] == w.wire[0];
      hide Coming;
      if w.bridge.sawAck {
        assert c == [ReadyMessage(w.firmware)];
        assert t == w.(bridge := Waiting(true, Some(Agreed(w.firmware))), wire := w.wire[1..]);
      } else if !OurAck(w, c[0]) {
        assert t == w.(wire := w.wire[1..]);
        TailOf(c);
      } else {
        assert t == w.(bridge := Waiting(true, None), wire := w.wire[1..]);
      }
    }
  }

  lemma TailOf<T>(c: seq<T>)
    requires c != []
    ensures forall k :: 0 <= k < |c| - 1 ==> c[1..][k] == c[k + 1] && c[1..][k + 1..] == c[k + 2..]
  {
  }

  lemma AnsweredStep(w: World, step: Step)
    requires Inv(w) && w.handled
    ensures Inv(Next(w, step))
  {
    if step == Emit {
      EmitAnswered(w);
    } else if step.LoseOnWire? {
      LoseAnswered(w, step.i);
    } else if step == BridgeTakes {
      TakeAnswered(w);
    } else {
      NothingElseMoves(w, step);
    }
  }

  /** Once the firmware is quiet no other step does anything. */
  lemma NothingElseMoves(w: World, step: Step)
    requires Inv(w) && w.handled && !step.Emit? && !step.LoseOnWire? && !step.BridgeTakes?
    ensures Next(w, step) == w
  {
  }

  lemma NextKeeps(w: World, step: Step)
    requires Inv(w)
    ensures Inv(Next(w, step))
  {
    if w.handled {
      AnsweredStep(w, step);
    } else if step.FirmwareTakes? {
      if w.toFirmware != [] {
        StaleReceive(w, step.queued);
      }
    } else {
      StaleStep(w, step);
    }
  }

  function Run(w: World, steps: seq<Step>): World
    requires w.firmware.Valid() && w.firmware.rateMask % 2 == 1
    decreases |steps|
  {
    if steps == [] then w
    else
      NextValid(w, steps[0]);
      Run(Next(w, steps[0]), steps[1..])
  }

  lemma {:induction false} RunKeeps(w: World, steps: seq<Step>)
    requires Inv(w)
    ensures Inv(Run(w, steps))
    decreases |steps|
  {
    if steps == [] {
    } else {
      NextKeeps(w, steps[0]);
      RunKeeps(Next(w, steps[0]), steps[1..]);
    }
  }

  /**
    The bridge has just written RESET behind whatever was in flight, and no frame still under way
    carries the same reset number.
  */
  ghost predicate ResetSent(w: World) {
    && w.firmware.Valid() && w.firmware.rateMask % 2 == 1
    && !w.handled && !w.bridge.sawAck && w.bridge.result.None?
    && w.toFirmware != [] && OurReset(w, w.toFirmware[|w.toFirmware| - 1])
    && (forall i :: 0 <= i < |w.toFirmware| - 1 ==> !OurReset(w, w.toFirmware[i]))
    && (forall i :: 0 <= i < |w.wire| ==> !OurAck(w, w.wire[i]))
    && (forall i :: 0 <= i < |w.control| ==> !OurAck(w, w.control[i]))
    && (forall i :: 0 <= i < |w.data| ==> w.data[i].kind == DATA_M2C)
  }

  /** The delivery protocol's starting world, built from what the handshake returned and the bridge's sender. */
  function Epoch(w: World, sender: C2mSender.Sender): C2mProtocol.World
    requires w.bridge.result.Some?
  {
    var ready := w.bridge.result.value;
    C2mProtocol.World(
      C2mSender.ResetPreservingPending(sender, ready.negotiated, ready.initialCredit),
      w.toFirmware, w.firmware, ToFrames(Coming(w)), sender.pending, [], [], [], true)
  }

  /**
    Agreement. Whatever is lost and whatever stale frames are handled on the way: if the bridge
    returns a ReadyState, the firmware's counters are zero, its rings are empty, no frame of an
    earlier epoch is left in either direction, and the negotiated values are the firmware's own. So
    the delivery guarantee holds from there, whatever the sender was in the middle of: its bytes that
    were not acknowledged are pending again.
  */
  lemma ResetAgreement(w: World, steps: seq<Step>, sender: C2mSender.Sender)
    requires ResetSent(w)
    requires Run(w, steps).bridge.result.Some?
    ensures var t := Run(w, steps);
            && t.firmware.rxSeq == 0 && t.firmware.txSeq == 0 && t.firmware.rx == []
            && t.toFirmware == [] && t.data == [] && t.serverTx == [] && Coming(t) == []
            && t.bridge.result.value == Agreed(t.firmware)
            && C2mProtocol.Fresh(Epoch(t, sender)) && Epoch(t, sender).pushed == sender.pending
  {
    RunKeeps(w, steps);
    hide Run;
  }
}
