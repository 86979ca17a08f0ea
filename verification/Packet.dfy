/**
  Minecraft packet framing: a VarInt length in front of every packet, and, once compression has been
  negotiated, a second VarInt that is 0 for a packet sent as it is and the inflated size otherwise.
*/
module Packet {
  import opened Bytes
  import VarInt

  const MAX_BODY := 32768

  /** Any length a VarInt of the protocol can announce. */
  predicate Announced(inner: seq<byte>) {
    |inner| < 0x8000_0000
  }

  /** One frame on the wire. */
  function Framed(inner: seq<byte>): seq<byte>
    requires Announced(inner)
  {
    VarInt.Encode(|inner|) + inner
  }

  // ----- reading -----

  datatype Packet = Packet(body: seq<byte>, frameLen: nat)

  /** `mc_packet_try_read`. A negative length is, as an unsigned one, beyond the largest body too. */
  function TryRead(src: seq<byte>): (p: Option<Packet>)
    ensures p.Some? ==> 1 <= p.value.frameLen <= |src| && |p.value.body| <= MAX_BODY
  {
    match VarInt.Decode(src)
    case None => None
    case Some(d) =>
      if d.value > MAX_BODY || |src| < d.used + d.value then None
      else Some(Packet(src[d.used..d.used + d.value], d.used + d.value))
  }

  datatype Status = NeedMore | Invalid | Ready(frameLen: nat)

  /** What can be said of a buffer that holds the beginning of a frame. */
  function Classify(src: seq<byte>): (s: Status)
    ensures s.Ready? ==> 1 <= s.frameLen <= |src|
  {
    if VarInt.Groups(src, 5).None? then
      if |src| >= 5 then Invalid else NeedMore
    else
      match VarInt.Decode(src)
      case None => Invalid
      case Some(d) =>
        if d.value > MAX_BODY then Invalid
        else if |src| >= d.used + d.value then Ready(d.used + d.value)
        else NeedMore
  }

  /** A frame is ready exactly when it can be read, and then with the same length. */
  lemma ReadyReads(src: seq<byte>, n: nat)
    ensures Classify(src) == Ready(n) <==> TryRead(src).Some? && TryRead(src).value.frameLen == n
  {
  }

  /** `classify_frame`: finds the end of the length before decoding it. */
  method ClassifyFrame(src: seq<byte>) returns (s: Status)
    ensures s == Classify(src)
    ensures s.Ready? <==> TryRead(src).Some?
    ensures s.Ready? ==> TryRead(src).value.frameLen == s.frameLen
  {
    var i := 0;
    while i < |src| && i < 5
      invariant 0 <= i <= |src| && i <= 5
      invariant forall k :: 0 <= k < i ==> src[k] >= 0x80
    {
      if src[i] < 0x80 {
        LengthEnds(src, i);
        var d := VarInt.DecodeLoop(src[..i + 1]);
        if d.None? || d.value.value > MAX_BODY {
          return Invalid;
        }
        var frameLen := d.value.used + d.value.value;
        return if |src| >= frameLen then Ready(frameLen) else NeedMore;
      }
      i := i + 1;
    }
    NoEnd(src);
    return if |src| >= 5 then Invalid else NeedMore;
  }

  lemma LengthEnds(src: seq<byte>, i: nat)
    requires i < |src| && i < 5 && src[i] < 0x80 && forall k :: 0 <= k < i ==> src[k] >= 0x80
    ensures VarInt.Groups(src, 5).Some? && VarInt.Decode(src[..i + 1]) == VarInt.Decode(src)
  {
    var front, more := src[..i + 1], src[i + 1..];
    assert src == front + more;
    GroupsEnd(front, i, 5);
    VarInt.GroupsExtend(front, more, 5);
  }

  lemma {:induction false} GroupsEnd(src: seq<byte>, i: nat, max: nat)
    requires |src| == i + 1 && i < max && src[i] < 0x80 && forall k :: 0 <= k < i ==> src[k] >= 0x80
    ensures VarInt.Groups(src, max).Some?
    decreases i
  {
    if i > 0 {
      GroupsEnd(src[1..], i - 1, max - 1);
    }
  }

  lemma NoEnd(src: seq<byte>)
    requires forall k :: 0 <= k < |src| && k < 5 ==> src[k] >= 0x80
    ensures VarInt.Groups(src, 5) == None
  {
    if VarInt.Groups(src, 5).Some? {
      GroupsLast(src, 5);
    }
  }

  lemma {:induction false} GroupsLast(src: seq<byte>, max: nat)
    requires VarInt.Groups(src, max).Some?
    ensures src[VarInt.Groups(src, max).value.used - 1] < 0x80
    decreases max
  {
    if src[0] >= 0x80 {
      GroupsLast(src[1..], max - 1);
    }
  }

  /** A verdict other than "need more" does not change when more bytes arrive. */
  lemma ClassifyExtend(src: seq<byte>, more: seq<byte>)
    requires !Classify(src).NeedMore?
    ensures Classify(src + more) == Classify(src)
  {
    if VarInt.Groups(src, 5).Some? {
      VarInt.GroupsExtend(src, more, 5);
      var d := VarInt.Groups(src, 5).value;
      assert d.used == 5 ==> (src + more)[4] == src[4];
    } else {
      VarInt.GroupsNone(src, 5);
      VarInt.GroupsStuck(src + more, 5);
    }
  }

  /** A framed body of legal size is ready, whatever follows, and reads back as it was. */
  lemma ReadFramed(body: seq<byte>, rest: seq<byte>)
    requires |body| <= MAX_BODY
    ensures TryRead(Framed(body) + rest) == Some(Packet(body, |Framed(body)|))
    ensures Classify(Framed(body) + rest) == Ready(|Framed(body)|)
  {
    var prefix := VarInt.Encode(|body|);
    Regroup(prefix, body, rest);
    VarInt.DecodeEncode(|body|, body + rest);
    MiddleOf(prefix, body, rest);
    var src := Framed(body) + rest;
    ReadyReads(src, |prefix| + |body|);
  }

  lemma MiddleOf(a: seq<byte>, b: seq<byte>, c: seq<byte>)
    ensures ((a + b) + c)[|a|..|a| + |b|] == b && ((a + b) + c)[|a| + |b|..] == c
  {
  }

  // ----- a stream of frames -----

  /** A stream cut into frames: the bodies of the complete ones, and what is left. */
  datatype Cut = Cut(bodies: seq<seq<byte>>, rest: seq<byte>, bad: bool)

  function CutFrames(stream: seq<byte>): (c: Cut)
    ensures !c.bad ==> Classify(c.rest).NeedMore?
    ensures forall i :: 0 <= i < |c.bodies| ==> |c.bodies[i]| <= MAX_BODY
    decreases |stream|
  {
    match Classify(stream)
    case NeedMore => Cut([], stream, false)
    case Invalid => Cut([], stream, true)
    case Ready(n) =>
      ReadyReads(stream, n);
      var t := CutFrames(stream[n..]);
      Cut([TryRead(stream).value.body] + t.bodies, t.rest, t.bad)
  }

  /** Cutting can stop anywhere and go on with the rest and the bytes that come next. */
  lemma {:induction false} CutContinues(a: seq<byte>, b: seq<byte>)
    requires !CutFrames(a).bad
    ensures var first := CutFrames(a);
            var second := CutFrames(first.rest + b);
            CutFrames(a + b) == Cut(first.bodies + second.bodies, second.rest, second.bad)
    decreases |a|
  {
    hide Classify, TryRead, CutFrames;
    CutStep(a, b);
    var first := CutFrames(a);
    var second := CutFrames(first.rest + b);
    if Classify(a).Ready? {
      var n := Classify(a).frameLen;
      CutContinues(a[n..], b);
      Regroup([TryRead(a).value.body], CutFrames(a[n..]).bodies, second.bodies);
    } else {
      assert first.bodies + second.bodies == second.bodies;
    }
  }

  /** The first frame of a, if a holds one, is the first frame of a + b. */
  lemma CutStep(a: seq<byte>, b: seq<byte>)
    requires !CutFrames(a).bad
    ensures !Classify(a).Invalid?
    ensures Classify(a).NeedMore? ==> CutFrames(a) == Cut([], a, false)
    ensures Classify(a).Ready? ==>
      var n := Classify(a).frameLen;
      var t, u := CutFrames(a[n..]), CutFrames(a[n..] + b);
      && TryRead(a).Some?
      && CutFrames(a) == Cut([TryRead(a).value.body] + t.bodies, t.rest, t.bad)
      && CutFrames(a + b) == Cut([TryRead(a).value.body] + u.bodies, u.rest, u.bad)
  {
    if Classify(a).Ready? {
      var n := Classify(a).frameLen;
      ClassifyExtend(a, b);
      SameFrame(a, b, n);
      assert (a + b)[n..] == a[n..] + b;
      hide Classify, TryRead;
    }
  }

  lemma SameFrame(a: seq<byte>, b: seq<byte>, n: nat)
    requires Classify(a) == Ready(n)
    ensures TryRead(a).Some? && TryRead(a + b) == TryRead(a)
  {
    ReadyReads(a, n);
    ClassifyExtend(a, b);
    VarInt.GroupsExtend(a, b, 5);
    var d := VarInt.Decode(a).value;
    assert d.used == 5 ==> (a + b)[4] == a[4];
    assert (a + b)[d.used..d.used + d.value] == a[d.used..d.used + d.value];
  }

  function FrameAll(bodies: seq<seq<byte>>): seq<byte>
    requires forall i :: 0 <= i < |bodies| ==> |bodies[i]| <= MAX_BODY
  {
    if bodies == [] then [] else Framed(bodies[0]) + FrameAll(bodies[1..])
  }

  /** Round trip: framing bodies one after the other and cutting the stream gives them back. */
  lemma {:induction false} CutFrameAll(bodies: seq<seq<byte>>)
    requires forall i :: 0 <= i < |bodies| ==> |bodies[i]| <= MAX_BODY
    ensures CutFrames(FrameAll(bodies)) == Cut(bodies, [], false)
    decreases |bodies|
  {
    if bodies != [] {
      var rest := FrameAll(bodies[1..]);
      ReadFramed(bodies[0], rest);
      CutFrameAll(bodies[1..]);
      var frame := Framed(bodies[0]);
      assert (frame + rest)[|frame|..] == rest;
      assert bodies == [bodies[0]] + bodies[1..];
    }
  }

  // ----- the second VarInt -----

  datatype Compressed = Compressed(dataLen: nat, body: seq<byte>)

  /** `mc_packet_get_compressed_body` */
  function CompressedBody(inner: seq<byte>): Option<Compressed> {
    match VarInt.Decode(inner)
    case None => None
    case Some(d) => if d.value > MAX_BODY then None else Some(Compressed(d.value, inner[d.used..]))
  }

  // ----- writing -----

  /** How a queued packet is laid out behind its length. */
  datatype Format = Plain | Uncompressed | Deflated(rawLen: nat)

  predicate Sendable(format: Format, body: seq<byte>) {
    |body| <= MAX_BODY && (format.Deflated? ==> 0 < format.rawLen <= MAX_BODY)
  }

  function Inner(format: Format, body: seq<byte>): (r: seq<byte>)
    requires Sendable(format, body)
    ensures Announced(r)
  {
    match format
    case Plain => body
    case Uncompressed => [0] + body
    case Deflated(rawLen) =>
      VarInt.EncodeLength(rawLen);
      VarInt.Encode(rawLen) + body
  }

  function Frame(format: Format, body: seq<byte>): seq<byte>
    requires Sendable(format, body)
  {
    Framed(Inner(format, body))
  }

  /** `mc_packet_frame_len` and `mc_packet_compressed_plain_frame_len`; 0 stands for a refusal. */
  function FrameLen(format: Format, bodyLen: nat): nat
    requires !format.Deflated?
  {
    if bodyLen > MAX_BODY then 0
    else if format.Plain? then |VarInt.Encode(bodyLen)| + bodyLen
    else |VarInt.Encode(1 + bodyLen)| + 1 + bodyLen
  }

  /** The length helpers foretell the exact size of the frame. */
  lemma FrameLenExact(format: Format, body: seq<byte>)
    requires !format.Deflated?
    ensures FrameLen(format, |body|) == 0 <==> !Sendable(format, body)
    ensures Sendable(format, body) ==> FrameLen(format, |body|) == |Frame(format, body)|
  {
  }

  /** A packet in compressed format gives back its format and its body. */
  lemma CompressedReads(format: Format, body: seq<byte>)
    requires Sendable(format, body) && !format.Plain?
    ensures CompressedBody(Inner(format, body))
         == Some(Compressed(if format.Deflated? then format.rawLen else 0, body))
  {
    var dataLen := if format.Deflated? then format.rawLen else 0;
    assert VarInt.Encode(0) == [0];
    VarInt.DecodeEncode(dataLen, body);
    var e := VarInt.Encode(dataLen);
    assert (e + body)[|e|..] == body;
  }
}
