/**
  The bridge's client-to-firmware sender: one unacknowledged frame at a time, sized by the credit
  the firmware last granted.
*/
module C2mSender {
  import opened Bytes
  import opened LinkCodec

  datatype Outstanding = Outstanding(seqNo: u16, payloadLen: nat, encoded: seq<byte>)

  datatype Sender = Sender(
    pending: seq<byte>,
    outstanding: Option<Outstanding>,
    nextSeq: u16,
    negotiated: nat,
    credit: u16)

  /** `C2mSender::new` */
  function New(negotiated: nat, credit: u16): Sender {
    Sender([], None, 0, negotiated, credit)
  }

  function Push(s: Sender, data: seq<byte>): Sender {
    s.(pending := s.pending + data)
  }

  /** `reset_link_state_preserving_pending` */
  function ResetPreservingPending(s: Sender, negotiated: nat, credit: u16): Sender {
    s.(outstanding := None, nextSeq := 0, negotiated := negotiated, credit := credit)
  }

  /** `next_payload_len`, 0 for no frame to send. */
  function NextPayloadLen(s: Sender): (n: nat)
    ensures n <= |s.pending| && n <= s.credit && n <= MAX_PAYLOAD
    ensures n > 0 <==> s.outstanding.None? && s.pending != [] && s.credit > 0
    ensures s.negotiated > 0 ==> n <= s.negotiated
  {
    if s.outstanding.Some? || s.pending == [] || s.credit == 0 then 0
    else
      var cap := Min(if s.negotiated < 1 then 1 else s.negotiated, MAX_PAYLOAD);
      Min(Min(|s.pending|, cap), s.credit)
  }

  datatype Next = Nothing | Exhausted | Send(frame: Frame)

  /** `next_frame_to_send`: sequence number 65535 is never used. */
  function NextFrame(s: Sender): Next {
    var n := NextPayloadLen(s);
    if n == 0 then Nothing
    else if s.nextSeq == 0xffff then Exhausted
    else Send(Frame(DATA_C2M, 0, s.nextSeq, 0, s.pending[..n]))
  }

  datatype Outcome = Outcome(sender: Sender, ok: bool)

  /** `mark_sent` */
  function MarkSent(s: Sender, f: Frame): Outcome {
    var n := NextPayloadLen(s);
    if n == 0 then Outcome(s, true)
    else if f.seqNo != s.nextSeq || |f.payload| != n || !Known(f.kind) then Outcome(s, false)
    else
      Outcome(s.(
        credit := s.credit - n,
        outstanding := Some(Outstanding(s.nextSeq, n, Wire(f.kind, f.seqNo, f.ack, f.payload))),
        nextSeq := if s.nextSeq == 0xffff then 0 else s.nextSeq + 1), true)
  }

  /** `handle_ack`: the credit is taken over whether or not the acknowledgement matches. */
  function HandleAck(s: Sender, ack: u16, credit: u16): Outcome {
    var t := s.(credit := credit);
    if s.outstanding.None? then Outcome(t, true)
    else
      var o := s.outstanding.value;
      if ack != (if o.seqNo == 0xffff then 0 else o.seqNo + 1) then Outcome(t, true)
      else if |s.pending| < o.payloadLen then Outcome(t, false)
      else Outcome(t.(pending := s.pending[o.payloadLen..], outstanding := None), true)
  }

  /** `ack_credit` */
  function AckCredit(payload: seq<byte>): Option<u16> {
    if |payload| != 2 then None else Some(Word(payload[0], payload[1]))
  }

  /** `handle_ack_c2m` */
  function HandleAckFrame(s: Sender, f: Frame): Outcome {
    match AckCredit(f.payload)
    case None => Outcome(s, false)
    case Some(credit) => HandleAck(s, f.ack, credit)
  }

  // ----- what is outstanding -----

  /** The outstanding bytes are the encoding of the first pending bytes under the outstanding number. */
  ghost predicate Sound(s: Sender) {
    s.outstanding.Some? ==>
      var o := s.outstanding.value;
      && 1 <= o.payloadLen <= |s.pending| && o.payloadLen <= MAX_PAYLOAD
      && o.encoded == Wire(DATA_C2M, o.seqNo, 0, s.pending[..o.payloadLen])
  }

  /** Every operation of the sender keeps it so. */
  lemma SoundKept(s: Sender, data: seq<byte>, ack: u16, negotiated: nat, credit: u16)
    requires Sound(s)
    ensures Sound(Push(s, data)) && Sound(HandleAck(s, ack, credit).sender)
    ensures Sound(ResetPreservingPending(s, negotiated, credit)) && Sound(New(negotiated, credit))
    ensures NextFrame(s).Send? ==> Sound(MarkSent(s, NextFrame(s).frame).sender)
  {
    hide Wire;
    if s.outstanding.Some? {
      var n := s.outstanding.value.payloadLen;
      assert (s.pending + data)[..n] == s.pending[..n];
    }
  }

  /**
    A frame that is sent is outstanding as it was sent, under the next number, and the bytes it carries,
    the first ones pending, stay pending and are paid for out of the credit.
  */
  lemma SentFrame(s: Sender)
    requires NextFrame(s).Send?
    ensures var f, o := NextFrame(s).frame, MarkSent(s, NextFrame(s).frame);
            && o.ok && o.sender.outstanding.Some?
            && Unwire(o.sender.outstanding.value.encoded) == Some(f)
            && f.payload != [] && f.payload <= s.pending && f.seqNo == s.nextSeq
            && o.sender.pending == s.pending && o.sender.credit + |f.payload| == s.credit
            && o.sender.nextSeq == s.nextSeq + 1 && o.sender.negotiated == s.negotiated
  {
    hide Wire, Unwire;
    var f := NextFrame(s).frame;
    UnwireWire(f.kind, f.seqNo, f.ack, f.payload);
  }

  /** The first frame of a new sender has number 0. */
  lemma FirstFrame(negotiated: nat, credit: u16, data: seq<byte>)
    requires data != [] && credit > 0
    ensures var next := NextFrame(Push(New(negotiated, credit), data));
            next.Send? && next.frame.seqNo == 0 && next.frame.payload <= data
  {
  }

  /** Marking any other frame as sent changes nothing, and is an error if there was a frame to send. */
  lemma MarkOther(s: Sender, f: Frame)
    requires NextFrame(s).Send? ==> f.seqNo != NextFrame(s).frame.seqNo || |f.payload| != |NextFrame(s).frame.payload|
    requires !NextFrame(s).Exhausted?
    ensures MarkSent(s, f) == Outcome(s, NextFrame(s) == Nothing)
  {
  }

  /** An acknowledgement whose payload is no credit is an error and grants nothing. */
  lemma MalformedAck(s: Sender, f: Frame)
    requires |f.payload| != 2
    ensures HandleAckFrame(s, f) == Outcome(s, false)
  {
  }

  /** Whatever an acknowledgement matches, its credit replaces the old one; only the next number releases bytes. */
  lemma AckGrants(s: Sender, ack: u16, credit: u16)
    ensures var o := HandleAck(s, ack, credit);
            && o.sender.credit == credit && o.sender.nextSeq == s.nextSeq && o.sender.negotiated == s.negotiated
            && (s.outstanding.Some? && ack == (s.outstanding.value.seqNo + 1) % 0x1_0000
                && s.outstanding.value.payloadLen <= |s.pending| ==>
                  o.ok && o.sender.outstanding == None
                  && o.sender.pending == s.pending[s.outstanding.value.payloadLen..])
            && (s.outstanding.None? || ack != (s.outstanding.value.seqNo + 1) % 0x1_0000 ==>
                  o.ok && o.sender.outstanding == s.outstanding && o.sender.pending == s.pending)
  {
  }

  // ----- the object -----

  class Bridge {
    var pending: seq<byte>
    var outstanding: Option<Outstanding>
    var nextSeq: u16
    var negotiated: nat
    var credit: u16

    ghost function State(): Sender
      reads this
    {
      Sender(pending, outstanding, nextSeq, negotiated, credit)
    }

    constructor (negotiated: nat, credit: u16)
      ensures State() == New(negotiated, credit)
    {
      pending, outstanding, nextSeq := [], None, 0;
      this.negotiated, this.credit := negotiated, credit;
    }

    method ResetLinkStatePreservingPending(negotiated: nat, credit: u16)
      modifies this`outstanding, this`nextSeq, this`negotiated, this`credit
      ensures State() == ResetPreservingPending(old(State()), negotiated, credit)
    {
      outstanding, nextSeq := None, 0;
      this.negotiated, this.credit := negotiated, credit;
    }

    method PayloadLen() returns (n: nat)
      ensures n == NextPayloadLen(State())
    {
      if outstanding.Some? || pending == [] || credit == 0 {
        return 0;
      }
      var cap := negotiated;
      if cap < 1 {
        cap := 1;
      }
      if cap > MAX_PAYLOAD {
        cap := MAX_PAYLOAD;
      }
      n := |pending|;
      if n > cap {
        n := cap;
      }
      if n > credit {
        n := credit;
      }
    }

    method NextFrameToSend() returns (next: Next)
      ensures next == NextFrame(State())
    {
      var n := PayloadLen();
      if n == 0 {
        return Nothing;
      }
      if nextSeq == 0xffff {
        return Exhausted;
      }
      return Send(Frame(DATA_C2M, 0, nextSeq, 0, pending[..n]));
    }

    method Sent(f: Frame) returns (ok: bool)
      modifies this`outstanding, this`nextSeq, this`credit
      ensures Outcome(State(), ok) == MarkSent(old(State()), f)
    {
      hide Wire;
      var n := PayloadLen();
      if n == 0 {
        return true;
      }
      if f.seqNo != nextSeq || |f.payload| != n {
        return false;
      }
      var encoded := EncodeVector(f.kind, f.seqNo, f.ack, f.payload);
      if encoded.None? {
        return false;
      }
      credit := credit - n;
      outstanding := Some(Outstanding(nextSeq, n, encoded.value));
      nextSeq := if nextSeq == 0xffff then 0 else nextSeq + 1;
      return true;
    }

    method Acked(ack: u16, credit: u16) returns (ok: bool)
      modifies this`pending, this`outstanding, this`credit
      ensures Outcome(State(), ok) == HandleAck(old(State()), ack, credit)
    {
      this.credit := credit;
      if outstanding.None? {
        return true;
      }
      var o := outstanding.value;
      if ack != (if o.seqNo == 0xffff then 0 else o.seqNo + 1) {
        return true;
      }
      if |pending| < o.payloadLen {
        return false;
      }
      PopFront(o.payloadLen);
      outstanding := None;
      return true;
    }

    method PopFront(n: nat)
      requires n <= |pending|
      modifies this`pending
      ensures pending == old(pending)[n..]
    {
      for i := 0 to n
        invariant pending == old(pending)[i..]
      {
        pending := pending[1..];
      }
    }

    /**
      `retransmit_if_due`; `due` says that the timeout has passed. Decoding what is sent again gives
      the data frame with the outstanding number and the first pending bytes.
    */
    method Retransmission(due: bool) returns (bytes: Option<seq<byte>>)
      requires Sound(State())
      ensures bytes.Some? <==> due && outstanding.Some?
      ensures bytes.Some? ==>
        Unwire(bytes.value)
        == Some(Frame(DATA_C2M, 0, outstanding.value.seqNo, 0, pending[..outstanding.value.payloadLen]))
    {
      if outstanding.None? || !due {
        return None;
      }
      hide Wire, Unwire;
      var o := outstanding.value;
      UnwireWire(DATA_C2M, o.seqNo, 0, pending[..o.payloadLen]);
      return Some(o.encoded);
    }
  }
}
