/**
  The firmware's link session: what each received frame does to the sequence counters, the server's
  receive ring and the transmit rings. The functions here are the transitions; `LinkSessionLoops`
  holds the object that performs them in place.
*/
module LinkSession {
  import opened Arith
  import opened Bytes
  import opened LinkCodec
  import opened TxMux

  const RX_CAP := 8192
  const INITIAL_CREDIT: u16 := 512
  const RATE_MASK: u16 := 0x03ff

  const ERR_BAD_LENGTH: byte := 2
  const ERR_UNEXPECTED_TYPE: byte := 4
  const ERR_SEQUENCE: byte := 5
  const ERR_RX_OVERFLOW: byte := 6
  const ERR_PROTOCOL_STATE: byte := 7

  datatype Session = Session(
    mux: Mux,            // control_tx, tx, active_tx_queue, active_tx_remaining
    rx: seq<byte>,       // the server's receive ring
    rxSeq: u16,
    txSeq: u16,
    negotiated: u16,
    creditCap: u16,
    rateMask: u16,
    ready: bool,
    resetRequested: bool)
  {
    predicate Valid() {
      && |rx| <= RX_CAP
      && 1 <= negotiated <= MAX_PAYLOAD
      && 1 <= creditCap <= INITIAL_CREDIT
    }
  }

  /** `mc_link_session_init`. */
  const BOOTED := Session(TxMux.INITIAL, [], 0, 0, MAX_PAYLOAD, INITIAL_CREDIT, RATE_MASK, true, false)

  function Le(w: u16): seq<byte> {
    [Lo(w), Hi(w)]
  }

  function Succ(w: u16): u16 {
    if w == 0xffff then 0 else w + 1
  }

  function Pred(w: u16): u16 {
    if w == 0 then 0xffff else w - 1
  }

  /** A handler's new state and its return value. */
  datatype Handled = Handled(session: Session, ok: bool)

  // ----- queueing -----

  function QueueFrame(s: Session, q: Queue, kind: byte, seqNo: u16, ack: u16, payload: seq<byte>): Handled {
    if |payload| > MAX_PAYLOAD then Handled(s, false)
    else match Enqueue(s.mux, q, Wire(kind, seqNo, ack, payload))
      case None => Handled(s, false)
      case Some(m) => Handled(s.(mux := m), true)
  }

  function QueueControl(s: Session, kind: byte, seqNo: u16, ack: u16, payload: seq<byte>): Handled {
    QueueFrame(s, Control, kind, seqNo, ack, payload)
  }

  /** Negotiated payload, credit limit, initial credit, rate profiles, active profile and flags. */
  function ReadyBytes(negotiated: u16, creditCap: u16, rateMask: u16): seq<byte> {
    Le(negotiated) + Le(creditCap) + Le(creditCap) + Le(rateMask) + [0] + Le(0)
  }

  function ReadyPayload(s: Session): seq<byte> {
    ReadyBytes(s.negotiated, s.creditCap, s.rateMask)
  }

  function QueueReady(s: Session): Handled {
    QueueControl(s, READY, 0, 0, ReadyPayload(s))
  }

  /** `rx_free_credit`: free space of the receive ring, which is far below 0xffff. */
  function Credit(s: Session): u16
    requires |s.rx| <= RX_CAP
  {
    RX_CAP - |s.rx|
  }

  function QueueAck(s: Session, ack: u16): Handled
    requires s.Valid()
  {
    QueueControl(s, ACK_C2M, 0, ack, Le(Credit(s)))
  }

  function QueueError(s: Session, code: byte, detail: byte): Handled {
    QueueControl(s, ERROR, 0, 0, [code, detail])
  }

  // ----- resets -----

  /** `reset_link_state_preserving_control_tx` */
  function ResetKeepingControl(s: Session): Session {
    s.(rxSeq := 0, txSeq := 0, ready := true, mux := DropQueued(s.mux, Data), rx := [])
  }

  /** `reset_link_state` */
  function ResetLink(s: Session): Session {
    s.(rxSeq := 0, txSeq := 0, ready := true, mux := ResetAll(s.mux), rx := [])
  }

  // ----- frame handlers -----

  function WordAt(payload: seq<byte>, i: nat): u16
    requires i + 1 < |payload|
  {
    Word(payload[i], payload[i + 1])
  }

  /** What a valid HELLO resets and negotiates. */
  function HelloSession(s: Session, f: Frame): (t: Option<Session>)
    ensures t.Some? && s.Valid() ==> t.value.Valid()
    ensures t.Some? ==> t.value.mux == ResetAll(s.mux) && t.value.rateMask % 2 == 1
    ensures t.Some? <==> ValidHello(f)
  {
    if !ValidHello(f) then None
    else
      var offered := WordAt(f.payload, 4) % 0x400;
      Some(ResetLink(s).(
        negotiated := Min(WordAt(f.payload, 0), MAX_PAYLOAD),
        creditCap := Min(WordAt(f.payload, 2), INITIAL_CREDIT),
        rateMask := if offered % 2 == 1 then offered else offered + 1))
  }

  predicate ValidHello(f: Frame) {
    |f.payload| == 6 && WordAt(f.payload, 0) != 0 && WordAt(f.payload, 2) != 0
  }

  function HandleHello(s: Session, f: Frame): Handled {
    match HelloSession(s, f)
    case None => QueueError(s, ERR_BAD_LENGTH, 0)
    case Some(t) => QueueReady(t)
  }

  function HandleReset(s: Session, f: Frame): Handled {
    var acked := QueueControl(ResetLink(s).(resetRequested := true), RESET_ACK, f.seqNo, f.ack, []);
    if !acked.ok then acked else QueueReady(acked.session)
  }

  /** What a DATA_C2M frame does before the reply is queued; `failed` if the handler gives up regardless. */
  datatype Verdict = Verdict(session: Session, reply: Frame, failed: bool)

  function AckFrame(s: Session, ack: u16): Frame
    requires s.Valid()
  {
    Frame(ACK_C2M, 0, 0, ack, Le(Credit(s)))
  }

  function ErrorFrame(code: byte, detail: byte): Frame {
    Frame(ERROR, 0, 0, 0, [code, detail])
  }

  function JudgeData(s: Session, f: Frame): (v: Verdict)
    requires s.Valid()
    ensures v.session.Valid() && v.session.rateMask == s.rateMask && v.session.mux == s.mux
    ensures v.session.txSeq == s.txSeq && v.session.resetRequested == s.resetRequested
    ensures v.reply.kind == ACK_C2M || v.reply.kind == ERROR
  {
    if !s.ready then Verdict(s, ErrorFrame(ERR_PROTOCOL_STATE, f.kind), false)
    else if f.seqNo == Pred(s.rxSeq) then Verdict(s, AckFrame(s, s.rxSeq), false)
    else if f.seqNo != s.rxSeq then Verdict(s, ErrorFrame(ERR_SEQUENCE, Lo(f.seqNo)), true)
    else if |f.payload| == 0 || |f.payload| > s.negotiated
    then Verdict(s, ErrorFrame(ERR_BAD_LENGTH, |f.payload| % 0x100), false)
    else if RX_CAP - |s.rx| < |f.payload|
    then Verdict(s, ErrorFrame(ERR_RX_OVERFLOW, |f.payload| % 0x100), true)
    else
      var accepted := s.(rx := s.rx + f.payload, rxSeq := Succ(s.rxSeq));
      Verdict(accepted, AckFrame(accepted, accepted.rxSeq), false)
  }

  function HandleData(s: Session, f: Frame): Handled
    requires s.Valid()
  {
    var v := JudgeData(s, f);
    var queued := QueueControl(v.session, v.reply.kind, 0, v.reply.ack, v.reply.payload);
    Handled(queued.session, queued.ok && !v.failed)
  }

  function HandleFrame(s: Session, f: Frame): Handled
    requires s.Valid()
  {
    if f.kind == HELLO then HandleHello(s, f)
    else if f.kind == RESET then HandleReset(s, f)
    else if f.kind == DATA_C2M then HandleData(s, f)
    else if f.kind == RATE_PROBE then QueueControl(s, RATE_PROBE_ACK, f.seqNo, f.ack, f.payload)
    else if f.kind == PING then QueueControl(s, PONG, f.seqNo, f.ack, f.payload)
    else QueueError(s, ERR_UNEXPECTED_TYPE, f.kind)
  }

  /** Frames whose handler also empties the parser's buffer, and with it the rest of the chunk. */
  predicate Clears(f: Frame) {
    f.kind == RESET || (f.kind == HELLO && ValidHello(f))
  }

  /**
    The frames of one received chunk: handled in order up to and including the first whose handler
    fails or clears the parser; the ones behind it are lost.
  */
  ghost function HandleChunk(s: Session, frames: seq<Frame>): (h: Handled)
    requires s.Valid()
    decreases |frames|
  {
    if frames == [] then Handled(s, true)
    else
      var h := HandleFrame(s, frames[0]);
      HandleKeepsValid(s, frames[0]);
      if !h.ok || Clears(frames[0]) then h else HandleChunk(h.session, frames[1..])
  }

  /** Whether a chunk that was handled without failure ended with a cleared parser. */
  ghost predicate ChunkClears(s: Session, frames: seq<Frame>)
    requires s.Valid()
    decreases |frames|
  {
    frames != [] &&
      var h := HandleFrame(s, frames[0]);
      HandleKeepsValid(s, frames[0]);
      h.ok && (Clears(frames[0]) || ChunkClears(h.session, frames[1..]))
  }

  // ----- calls from the main loop -----

  /** `mc_link_session_credit_consumed`: the result of queueing is ignored. */
  function CreditConsumed(s: Session): Session
    requires s.Valid()
  {
    QueueAck(s, 0).session
  }

  function ResetAfterError(s: Session, code: byte, detail: byte): Handled {
    var reported := QueueError(s, code, detail);
    if !reported.ok then reported else QueueReady(ResetKeepingControl(reported.session))
  }

  datatype Served = Served(session: Session, serverTx: seq<byte>, ok: bool)

  /** `mc_link_session_queue_server_tx`: one data frame's worth of the server's transmit ring. */
  function QueueServerTx(s: Session, serverTx: seq<byte>): Served
    requires s.Valid()
  {
    var n := Min(|serverTx|, s.negotiated);
    if !s.ready then Served(s, serverTx, false)
    else if n == 0 then Served(s, serverTx, true)
    else
      var h := QueueFrame(s, Data, DATA_M2C, s.txSeq, s.rxSeq, serverTx[..n]);
      if !h.ok then Served(s, serverTx, false)
      else Served(h.session.(txSeq := Succ(s.txSeq)), serverTx[n..], true)
  }

  // ----- what a HELLO negotiates and how a data frame is answered -----

  /** Rate profile k is among those a mask offers. */
  predicate Offers(mask: nat, k: nat)
    decreases k
  {
    if k == 0 then mask % 2 == 1 else Offers(mask / 2, k - 1)
  }

  /**
    HELLO carries the client's largest payload, its credit limit and its rate profiles, in this order.
    It is accepted unless one of the first two is 0; the session then takes the smaller of its own and
    the client's payload and credit, the profiles both have and always profile 0, and starts over.
  */
  lemma HelloNegotiates(s: Session, f: Frame, maxPayload: u16, credit: u16, rates: u16)
    requires f.payload == Le(maxPayload) + Le(credit) + Le(rates)
    ensures HelloSession(s, f).Some? <==> maxPayload > 0 && credit > 0
    ensures HelloSession(s, f).Some? ==>
      var t := HelloSession(s, f).value;
      && t.negotiated == Min(maxPayload, 497)
      && t.creditCap == Min(credit, 512)
      && (forall k: nat :: Offers(t.rateMask, k) <==> k == 0 || (k < 10 && Offers(rates, k)))
      && t.rxSeq == 0 && t.txSeq == 0 && t.rx == [] && t.ready
  {
    HelloFields(s, f, maxPayload, credit, rates);
    hide HelloSession, ResetAll;
    forall k: nat
      ensures Offers(WithProfileZero(rates % 0x400), k) <==> k == 0 || (k < 10 && Offers(rates, k))
    {
      ProfilesKept(rates, k);
    }
  }

  /** Profile 0 is always there. */
  function WithProfileZero(mask: nat): nat {
    if mask % 2 == 1 then mask else mask + 1
  }

  lemma HelloFields(s: Session, f: Frame, maxPayload: u16, credit: u16, rates: u16)
    requires f.payload == Le(maxPayload) + Le(credit) + Le(rates)
    ensures HelloSession(s, f).Some? <==> maxPayload > 0 && credit > 0
    ensures HelloSession(s, f).Some? ==>
      var t := HelloSession(s, f).value;
      && t.negotiated == Min(maxPayload, MAX_PAYLOAD) && t.creditCap == Min(credit, INITIAL_CREDIT)
      && t.rateMask == WithProfileZero(rates % 0x400)
      && t.rxSeq == 0 && t.txSeq == 0 && t.rx == [] && t.ready
  {
    hide ResetAll;
    WordSplit(maxPayload);
    WordSplit(credit);
    WordSplit(rates);
  }

  /** Refused are a HELLO of any other length than six, and one with a payload or credit of 0. */
  lemma HelloRefused(s: Session, f: Frame)
    ensures HelloSession(s, f) == None
       <==> |f.payload| != 6 || f.payload[..2] == [0, 0] || f.payload[2..4] == [0, 0]
  {
    if |f.payload| == 6 {
      assert f.payload[..2] == [f.payload[0], f.payload[1]] && f.payload[2..4] == [f.payload[2], f.payload[3]];
    }
  }

  lemma {:induction false} LowProfiles(v: nat, n: nat, k: nat)
    ensures Offers(v % Pow2(n), k) <==> k < n && Offers(v, k)
    decreases k
  {
    if n == 0 {
      NoProfiles(k);
    } else {
      HalfOfRest(v, Pow2(n - 1));
      if k > 0 {
        LowProfiles(v / 2, n - 1, k - 1);
      }
    }
  }

  lemma HalfOfRest(v: nat, p: nat)
    requires p > 0
    ensures v % (2 * p) / 2 == v / 2 % p && v % (2 * p) % 2 == v % 2
  {
    var h := v / 2;
    DivMod(h, p);
    QuotientNatural(h, p);
    MulAssoc(2, h / p, p);
    assert h / p * (2 * p) == 2 * (h / p * p);
    DivUnique(v, 2 * p, h / p, 2 * (h % p) + v % 2);
    assert v % (2 * p) == 2 * (h % p) + v % 2;
  }

  lemma {:induction false} NoProfiles(k: nat)
    ensures !Offers(0, k)
    decreases k
  {
    if k > 0 {
      NoProfiles(k - 1);
    }
  }

  lemma ProfilesKept(rates: u16, k: nat)
    ensures Offers(WithProfileZero(rates % 0x400), k) <==> k == 0 || (k < 10 && Offers(rates, k))
  {
    TenProfiles();
    hide Pow2;
    LowProfiles(rates, 10, k);
    if k > 0 {
      assert WithProfileZero(rates % 0x400) / 2 == rates % 0x400 / 2;
    }
  }

  lemma TenProfiles()
    ensures Pow2(10) == 0x400
  {
    Pow2Add(5, 5);
    assert Pow2(5) == 32;
  }

  /** The frame that was accepted last, again. */
  predicate Repeats(s: Session, f: Frame) {
    (f.seqNo + 1) % 0x1_0000 == s.rxSeq
  }

  predicate RightSize(s: Session, f: Frame) {
    1 <= |f.payload| <= s.negotiated
  }

  /**
    How a data frame is answered. It is written and acknowledged with the next number if it is the
    expected one, of legal size, and fits; a repeated one is acknowledged again; and every other frame
    changes nothing and gets the error of what is wrong with it: 7 if the link is not up, 5 out of
    sequence, 2 for its size and 6 for lack of room. Out of sequence and overflow end the receive call
    as well.
  */
  lemma DataAnswered(s: Session, f: Frame)
    requires s.Valid()
    ensures var v, fits := JudgeData(s, f), |s.rx| + |f.payload| <= 8192;
            if s.ready && f.seqNo == s.rxSeq && RightSize(s, f) && fits
            then v.session == s.(rx := s.rx + f.payload, rxSeq := (s.rxSeq + 1) % 0x1_0000)
                 && v.reply == Frame(ACK_C2M, 0, 0, v.session.rxSeq, Le(8192 - |v.session.rx|)) && !v.failed
            else v.session == s
                 && (s.ready && Repeats(s, f) <==> v.reply == Frame(ACK_C2M, 0, 0, s.rxSeq, Le(8192 - |s.rx|)))
                 && (!s.ready <==> v.reply == ErrorFrame(7, f.kind))
                 && (s.ready && f.seqNo != s.rxSeq && !Repeats(s, f)
                     <==> v.reply == ErrorFrame(5, f.seqNo % 0x100))
                 && (s.ready && f.seqNo == s.rxSeq && !RightSize(s, f)
                     <==> v.reply == ErrorFrame(2, |f.payload| % 0x100))
                 && (s.ready && f.seqNo == s.rxSeq && RightSize(s, f)
                     <==> v.reply == ErrorFrame(6, |f.payload| % 0x100))
                 && (v.failed <==> s.ready && !Repeats(s, f) && (f.seqNo != s.rxSeq || RightSize(s, f)))
  {
  }

  // ----- a chunk of frames -----

  /** Frames are handled one after the other; what comes behind a failure or a cleared parser is lost. */
  lemma {:induction false} ChunkGoesOn(s: Session, a: seq<Frame>, b: seq<Frame>)
    requires s.Valid()
    ensures var h := HandleChunk(s, a);
            && h.session.Valid()
            && HandleChunk(s, a + b) == if h.ok && !ChunkClears(s, a) then HandleChunk(h.session, b) else h
    decreases |a|
  {
    hide HandleFrame;
    if a == [] {
      assert a + b == b;
    } else {
      HandleKeepsValid(s, a[0]);
      assert (a + b)[1..] == a[1..] + b;
      var h := HandleFrame(s, a[0]);
      if h.ok && !Clears(a[0]) {
        ChunkGoesOn(h.session, a[1..], b);
      }
    }
  }

  /** A RESET that is answered and a HELLO that is accepted and answered clear the parser, and nothing else does. */
  lemma ChunkOfOne(s: Session, f: Frame)
    requires s.Valid()
    ensures HandleChunk(s, [f]) == HandleFrame(s, f)
    ensures ChunkClears(s, [f])
       <==> HandleFrame(s, f).ok && (f.kind == RESET || (f.kind == HELLO && HelloSession(s, f).Some?))
  {
    HandleKeepsValid(s, f);
    hide HandleFrame;
    assert [f][1..] == [];
  }

  // ----- what every handler keeps -----

  /** Whatever is queued, RESET_ACK and READY fit behind the unsent part of a frame already begun. */
  lemma BoundedAnswersReset(s: Session, f: Frame)
    requires MuxBounded(s.mux)
    ensures HandleReset(s, f).ok
    ensures var t, m := HandleReset(s, f).session, ResetAll(s.mux);
            && t.rxSeq == 0 && t.txSeq == 0 && t.rx == [] && t.ready && t.resetRequested
            && t.mux.data == m.data && |m.data| <= MAX_ENCODED_LEN && |m.control| <= MAX_ENCODED_LEN
            && (s.mux.active != Sending(Data) ==> m.data == [])
            && (s.mux.active != Sending(Control) ==> m.control == [])
            && t.mux.control == m.control + Wire(RESET_ACK, f.seqNo, f.ack, []) + Wire(READY, 0, 0, ReadyPayload(s))
  {
    hide Wire;
    WireShape(RESET_ACK, f.seqNo, f.ack, []);
    WireShape(READY, 0, 0, ReadyPayload(s));
    var r := ResetLink(s).(resetRequested := true);
    assert ReadyPayload(r) == ReadyPayload(s);
  }

  /** A frame being sent has at most 512 bytes left. */
  predicate MuxBounded(m: Mux) {
    m.active != Idle ==> m.remaining <= MAX_ENCODED_LEN
  }

  lemma HandleKeepsValid(s: Session, f: Frame)
    requires s.Valid()
    ensures HandleFrame(s, f).session.Valid()
  {
    hide QueueFrame, ResetAll, DropQueued;
    if f.kind == HELLO {
      HelloKeepsValid(s, f);
    } else if f.kind == RESET {
      QueueKeepsValid(ResetLink(s).(resetRequested := true), Control, RESET_ACK, f.seqNo, f.ack, []);
      var acked := QueueControl(ResetLink(s).(resetRequested := true), RESET_ACK, f.seqNo, f.ack, []);
      QueueKeepsValid(acked.session, Control, READY, 0, 0, ReadyPayload(acked.session));
    } else if f.kind == DATA_C2M {
      var v := JudgeData(s, f);
      QueueKeepsValid(v.session, Control, v.reply.kind, 0, v.reply.ack, v.reply.payload);
    } else if f.kind == RATE_PROBE {
      QueueKeepsValid(s, Control, RATE_PROBE_ACK, f.seqNo, f.ack, f.payload);
    } else if f.kind == PING {
      QueueKeepsValid(s, Control, PONG, f.seqNo, f.ack, f.payload);
    } else {
      QueueKeepsValid(s, Control, ERROR, 0, 0, [ERR_UNEXPECTED_TYPE, f.kind]);
    }
  }

  /** Queueing touches nothing but the rings. */
  lemma QueueKeepsValid(s: Session, q: Queue, kind: byte, seqNo: u16, ack: u16, payload: seq<byte>)
    ensures QueueFrame(s, q, kind, seqNo, ack, payload).session
         == s.(mux := QueueFrame(s, q, kind, seqNo, ack, payload).session.mux)
  {
    hide Wire, Enqueue;
  }

  lemma HelloKeepsValid(s: Session, f: Frame)
    requires s.Valid()
    ensures HandleHello(s, f).session.Valid()
  {
    hide QueueFrame, ResetAll, ReadyPayload;
    QueueKeepsValid(s, Control, ERROR, 0, 0, [ERR_BAD_LENGTH, 0]);
    var t := HelloSession(s, f);
    if t.Some? {
      QueueKeepsValid(t.value, Control, READY, 0, 0, ReadyPayload(t.value));
    }
  }
}
