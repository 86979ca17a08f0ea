/**
  The check on incomplete frames. A receive call that ends inside a frame looks at as much of its
  packet id as is there, and gives up on ids above 0x7f, on deflated packets and on numbers that do
  not end. For every frame and every place to cut it, exactly when it does so is stated.
*/
module ServerPartial {
  import opened Bytes
  import opened Packet
  import opened Server
  import ServerFolds
  import VarInt

  // ----- a number cut short -----

  lemma {:induction false} GroupsShort(v: u32, k: nat, max: nat)
    requires k < |VarInt.Encode(v)|
    ensures VarInt.Groups(VarInt.Encode(v)[..k], max) == None
    decreases k
  {
    if k > 0 && max > 0 {
      var e := VarInt.Encode(v);
      assert v >= 0x80 && e == [v % 0x80 + 0x80] + VarInt.Encode(v / 0x80);
      assert e[..k][1..] == VarInt.Encode(v / 0x80)[..k - 1];
      GroupsShort(v / 0x80, k - 1, max - 1);
    }
  }

  /** The number is there exactly if all of its bytes are. */
  lemma PrefixDecodes(v: u32, rest: seq<byte>, k: nat)
    requires k <= |VarInt.Encode(v) + rest|
    ensures var part := (VarInt.Encode(v) + rest)[..k];
            && (k < |VarInt.Encode(v)| ==> VarInt.Decode(part) == None && VarInt.Groups(part, 5) == None && k < 5)
            && (k >= |VarInt.Encode(v)| ==>
                  && VarInt.Decode(part) == Some(VarInt.Decoded(v, |VarInt.Encode(v)|))
                  && VarInt.Groups(part, 5).Some?
                  && part[|VarInt.Encode(v)|..] == rest[..k - |VarInt.Encode(v)|])
  {
    var e := VarInt.Encode(v);
    VarInt.EncodeLength(v);
    if k < |e| {
      GroupsShort(v, k, 5);
      assert (e + rest)[..k] == e[..k];
    } else {
      assert (e + rest)[..k] == e + rest[..k - |e|];
      VarInt.DecodeEncode(v, rest[..k - |e|]);
      hide VarInt.Encode;
    }
  }

  lemma BadIdPrefix(id: u32, rest: seq<byte>, k: nat)
    requires k <= |VarInt.Encode(id) + rest|
    ensures BadId((VarInt.Encode(id) + rest)[..k]) <==> id > 0x7f && k >= |VarInt.Encode(id)|
  {
    hide VarInt.Encode, VarInt.Decode, VarInt.Groups;
    PrefixDecodes(id, rest, k);
  }

  // ----- a frame cut short -----

  lemma PrefixNeedsMore(inner: seq<byte>, k: nat)
    requires |inner| <= MAX_BODY && k < |Framed(inner)|
    ensures Classify(Framed(inner)[..k]) == NeedMore
  {
    hide VarInt.Encode, VarInt.Decode, VarInt.Groups;
    PrefixDecodes(|inner|, inner, k);
  }

  /** Without compression the packet id is what the frame begins with. */
  lemma PartialPlain(id: u32, rest: seq<byte>, k: nat)
    requires |VarInt.Encode(id) + rest| <= MAX_BODY
    requires k <= |Framed(VarInt.Encode(id) + rest)|
    ensures var body := VarInt.Encode(id) + rest;
            PartialBad(false, Framed(body)[..k])
            <==> id > 0x7f && k >= |VarInt.Encode(|body|)| + |VarInt.Encode(id)|
  {
    hide VarInt.Encode, VarInt.Decode, BadId;
    var body := VarInt.Encode(id) + rest;
    PrefixDecodes(|body|, body, k);
    var l := |VarInt.Encode(|body|)|;
    if k > l {
      BadIdPrefix(id, rest, k - l);
    }
  }

  /** With compression it is behind the data length, which must be 0. */
  lemma PartialCompressed(dataLength: u32, id: u32, rest: seq<byte>, k: nat)
    requires |VarInt.Encode(dataLength) + (VarInt.Encode(id) + rest)| <= MAX_BODY
    requires k <= |Framed(VarInt.Encode(dataLength) + (VarInt.Encode(id) + rest))|
    ensures var inner := VarInt.Encode(dataLength) + (VarInt.Encode(id) + rest);
            var ahead := |VarInt.Encode(|inner|)| + |VarInt.Encode(dataLength)|;
            PartialBad(true, Framed(inner)[..k])
            <==> k >= ahead && (dataLength != 0 || (id > 0x7f && k >= ahead + |VarInt.Encode(id)|))
  {
    hide VarInt.Encode, VarInt.Decode, BadId;
    var body := VarInt.Encode(id) + rest;
    var inner := VarInt.Encode(dataLength) + body;
    PrefixDecodes(|inner|, inner, k);
    var l := |VarInt.Encode(|inner|)|;
    if k > l {
      PrefixDecodes(dataLength, body, k - l);
      if k - l > |VarInt.Encode(dataLength)| {
        BadIdPrefix(id, rest, k - l - |VarInt.Encode(dataLength)|);
      }
    }
  }

  ghost predicate Endless(x: seq<byte>) {
    |x| >= 5 && forall i :: 0 <= i < 5 ==> x[i] >= 0x80
  }

  lemma EndlessNumber(x: seq<byte>)
    requires Endless(x)
    ensures VarInt.Decode(x) == None && BadId(x)
  {
    VarInt.GroupsStuck(x, 5);
  }

  /** A packet id or a data length that does not end after five bytes is refused. */
  lemma EndlessRefused(length: nat, x: seq<byte>)
    requires length <= MAX_BODY && Endless(x)
    ensures PartialBad(false, VarInt.Encode(length) + x) && PartialBad(true, VarInt.Encode(length) + x)
    ensures PartialBad(true, VarInt.Encode(length) + ([0] + x))
  {
    EndlessNumber(x);
    VarInt.DecodeEncode(length, x);
    VarInt.DecodeEncode(length, [0] + x);
    assert VarInt.Encode(0) == [0];
    VarInt.DecodeEncode(0, x);
    hide VarInt.Encode, VarInt.Decode, BadId;
    var e := VarInt.Encode(length);
    assert (e + x)[|e|..] == x && (e + ([0] + x))[|e|..] == [0] + x && ([0] + x)[1..] == x;
  }

  /** Neither can the length of a frame go on for more than five bytes. */
  lemma EndlessLengthFails(c: Config, s: Session, x: seq<byte>)
    requires Endless(x) && |x| <= MAX_ACCUM
    ensures Receive(c, s, [], x) == Received(false, s, [])
  {
    VarInt.GroupsStuck(x, 5);
    assert [] + x == x;
    hide HandleFrame, TryRead, PartialBad, VarInt.Decode;
  }

  // ----- the call that ends inside a frame -----

  /**
    Outside play. A call that brings the beginning of a frame keeps it for the next call, unless the
    whole packet id is there and is above 0x7f: then the call fails.
  */
  lemma PlainPartArrives(c: Config, s: Session, id: u32, rest: seq<byte>, k: nat)
    requires !s.srv.compressed && |VarInt.Encode(id) + rest| <= MAX_BODY
    requires k < |Framed(VarInt.Encode(id) + rest)|
    ensures var body := VarInt.Encode(id) + rest;
            var part := Framed(body)[..k];
            Receive(c, s, [], part)
            == if id > 0x7f && k >= |VarInt.Encode(|body|)| + |VarInt.Encode(id)| then Received(false, s, [])
               else Received(true, s, part)
  {
    hide VarInt.Encode, PartialBad, Classify, HandleFrame, TryRead;
    PrefixNeedsMore(VarInt.Encode(id) + rest, k);
    PartialPlain(id, rest, k);
    FrameSmall(VarInt.Encode(id) + rest);
    PartReceived(c, s, Framed(VarInt.Encode(id) + rest)[..k]);
  }

  /** In play: the same behind the data length, and a call also fails once a data length is known not to be 0. */
  lemma CompressedPartArrives(c: Config, s: Session, dataLength: u32, id: u32, rest: seq<byte>, k: nat)
    requires s.srv.compressed && |VarInt.Encode(dataLength) + (VarInt.Encode(id) + rest)| <= MAX_BODY
    requires k < |Framed(VarInt.Encode(dataLength) + (VarInt.Encode(id) + rest))|
    ensures var inner := VarInt.Encode(dataLength) + (VarInt.Encode(id) + rest);
            var part, ahead := Framed(inner)[..k], |VarInt.Encode(|inner|)| + |VarInt.Encode(dataLength)|;
            Receive(c, s, [], part)
            == if k >= ahead && (dataLength != 0 || (id > 0x7f && k >= ahead + |VarInt.Encode(id)|))
               then Received(false, s, [])
               else Received(true, s, part)
  {
    hide VarInt.Encode, PartialBad, Classify, HandleFrame, TryRead;
    var inner := VarInt.Encode(dataLength) + (VarInt.Encode(id) + rest);
    PrefixNeedsMore(inner, k);
    PartialCompressed(dataLength, id, rest, k);
    FrameSmall(inner);
    PartReceived(c, s, Framed(inner)[..k]);
  }

  lemma FrameSmall(inner: seq<byte>)
    requires |inner| <= MAX_BODY
    ensures |Framed(inner)| <= MAX_ACCUM
  {
    VarInt.EncodeLength(|inner|);
  }

  lemma PartReceived(c: Config, s: Session, part: seq<byte>)
    requires Classify(part) == NeedMore && |part| <= MAX_ACCUM
    ensures Receive(c, s, [], part)
         == if PartialBad(s.srv.compressed, part) then Received(false, s, []) else Received(true, s, part)
  {
    hide PartialBad, Classify, HandleFrame, TryRead;
    assert [] + part == part;
    ServerFolds.DrainSteps(c, s, part, 0, s);
  }
}
