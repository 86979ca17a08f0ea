/**
  Minecraft VarInts: seven bits per byte, least significant group first, the top bit set on all bytes
  but the last. The server reads 32-bit values (core/src/mc_varint.c); the bridge's movement filter
  has its own reader that keeps up to 35 bits (bridge/src/c2m.rs).
*/
module VarInt {
  import opened Bytes

  function Encode(v: u32): (e: seq<byte>)
    ensures 1 <= |e|
  {
    if v < 0x80 then [v] else [v % 0x80 + 0x80] + Encode(v / 0x80)
  }

  datatype Decoded = Decoded(value: nat, used: nat)

  /** Groups up to the first byte without the continuation bit, at most `max` of them. */
  function Groups(src: seq<byte>, max: nat): (d: Option<Decoded>)
    ensures d.Some? ==> 1 <= d.value.used <= max && d.value.used <= |src|
  {
    if src == [] || max == 0 then None
    else if src[0] < 0x80 then Some(Decoded(src[0], 1))
    else match Groups(src[1..], max - 1)
      case None => None
      case Some(rest) => Some(Decoded(src[0] - 0x80 + 0x80 * rest.value, rest.used + 1))
  }

  /** `mc_varint_decode`: a fifth byte may only carry the top four bits of a 32-bit value. */
  function Decode(src: seq<byte>): (d: Option<Decoded>)
    ensures d.Some? ==> 1 <= d.value.used <= 5 && d.value.used <= |src|
  {
    match Groups(src, 5)
    case None => None
    case Some(d) => if d.used == 5 && src[4] >= 0x10 then None else Some(d)
  }

  // ----- what holds of them -----

  lemma {:induction false} GroupsBound(src: seq<byte>, max: nat)
    requires Groups(src, max).Some?
    ensures var d := Groups(src, max).value;
            d.value < Pow128(d.used - 1) * 0x80 && src[d.used - 1] < 0x80
            && d.value <= Pow128(d.used - 1) * src[d.used - 1] + Pow128(d.used - 1) - 1
    decreases max
  {
    if src[0] >= 0x80 {
      GroupsBound(src[1..], max - 1);
      var rest := Groups(src[1..], max - 1).value;
      assert src[rest.used] == src[1..][rest.used - 1];
      Scale(rest.value, Pow128(rest.used - 1), src[rest.used]);
    }
  }

  function Pow128(n: nat): nat {
    if n == 0 then 1 else 0x80 * Pow128(n - 1)
  }

  lemma Scale(v: nat, p: nat, top: nat)
    requires v <= p * top + p - 1
    ensures 0x80 * v + 0x7f <= (0x80 * p) * top + 0x80 * p - 1
  {
    assert (0x80 * p) * top == 0x80 * (p * top);
  }

  /** A decoded value always fits 32 bits. */
  lemma DecodeFits(src: seq<byte>)
    requires Decode(src).Some?
    ensures Decode(src).value.value < 0x1_0000_0000
  {
    GroupsBound(src, 5);
    var d := Groups(src, 5).value;
    assert Pow128(0) == 1 && Pow128(1) == 0x80 && Pow128(2) == 0x4000;
    assert Pow128(3) == 0x20_0000 && Pow128(4) == 0x1000_0000;
  }

  lemma {:induction false} EncodeLength(v: u32)
    ensures |Encode(v)| <= 5
    ensures v < 0x80 ==> |Encode(v)| == 1
    ensures v < 0x4000 ==> |Encode(v)| <= 2
    ensures v < 0x20_0000 ==> |Encode(v)| <= 3
    ensures v < 0x1000_0000 ==> |Encode(v)| <= 4
    ensures |Encode(v)| == 5 ==> Encode(v)[4] < 0x10
    decreases v
  {
    if v >= 0x80 {
      EncodeLength(v / 0x80);
      if |Encode(v)| == 5 {
        assert Pow128(2) == 0x4000 && Pow128(4) == 0x1000_0000;
        LastByte(v, 4);
      }
    }
  }

  /** The last byte of an encoding of k + 1 bytes holds what is left above 7k bits. */
  lemma {:induction false} LastByte(v: u32, k: nat)
    requires |Encode(v)| == k + 1 && v < 0x10 * Pow128(k)
    ensures Encode(v)[k] < 0x10
    decreases k
  {
    if k > 0 {
      LastByte(v / 0x80, k - 1);
    }
  }

  lemma {:induction false} GroupsEncode(v: u32, rest: seq<byte>, max: nat)
    requires |Encode(v)| <= max
    ensures Groups(Encode(v) + rest, max) == Some(Decoded(v, |Encode(v)|))
    decreases v
  {
    var s := Encode(v) + rest;
    if v >= 0x80 {
      assert s[1..] == Encode(v / 0x80) + rest;
      GroupsEncode(v / 0x80, rest, max - 1);
    }
  }

  /** Round trip: reading back what was written, with anything behind it. */
  lemma DecodeEncode(v: u32, rest: seq<byte>)
    ensures Decode(Encode(v) + rest) == Some(Decoded(v, |Encode(v)|))
  {
    EncodeLength(v);
    GroupsEncode(v, rest, 5);
    if |Encode(v)| == 5 {
      assert (Encode(v) + rest)[4] == Encode(v)[4];
    }
  }

  /** More input never changes a number that is already complete. */
  lemma {:induction false} GroupsExtend(src: seq<byte>, more: seq<byte>, max: nat)
    requires Groups(src, max).Some?
    ensures Groups(src + more, max) == Groups(src, max)
    decreases max
  {
    if src[0] >= 0x80 {
      assert (src + more)[1..] == src[1..] + more;
      GroupsExtend(src[1..], more, max - 1);
    }
  }

  /** Fewer groups than allowed were there: only then can more input complete the number. */
  lemma {:induction false} GroupsNone(src: seq<byte>, max: nat)
    requires Groups(src, max).None?
    ensures forall i :: 0 <= i < |src| && i < max ==> src[i] >= 0x80
    decreases max
  {
    if src != [] && max != 0 {
      GroupsNone(src[1..], max - 1);
      assert forall i :: 0 < i < |src| ==> src[i] == src[1..][i - 1];
    }
  }

  lemma {:induction false} GroupsStuck(src: seq<byte>, max: nat)
    requires max <= |src| && forall i :: 0 <= i < max ==> src[i] >= 0x80
    ensures Groups(src, max) == None
    decreases max
  {
    if max != 0 {
      GroupsStuck(src[1..], max - 1);
    }
  }

  // ----- the loops -----

  /** `mc_varint_encode` */
  method EncodeInto(value: u32, dst: array<byte>) returns (written: nat)
    modifies dst
    ensures written == if |Encode(value)| <= dst.Length then |Encode(value)| else 0
    ensures written > 0 ==> dst[..written] == Encode(value)
  {
    var v := value;
    written := 0;
    ghost var done: seq<byte> := [];
    assert done + Encode(v) == Encode(value);
    while true
      invariant written <= dst.Length && |done| == written
      invariant dst[..written] == done
      invariant done + Encode(v) == Encode(value)
      decreases v
    {
      if written >= dst.Length {
        return 0;
      }
      var b := v % 0x80;
      ghost var before := v;
      v := v / 0x80;
      if v != 0 {
        b := b + 0x80;
      }
      dst[written] := b;
      written := written + 1;
      done := done + [b];
      if v == 0 {
        return;
      }
    }
  }

  /** `mc_varint_decode` */
  method DecodeLoop(src: seq<byte>) returns (d: Option<Decoded>)
    ensures d == Decode(src)
  {
    hide Groups, Shift, Group;
    var result: nat, scale: nat := 0, 1;
    var i := 0;
    assert src[0..] == src;
    ShiftNone(Groups(src, 5));
    while i < |src| && i < 5
      invariant 0 <= i <= |src| && i <= 5
      invariant Groups(src, 5) == Shift(result, scale, i, Groups(src[i..], 5 - i))
    {
      GroupsAt(src, i, 5);
      ShiftStep(result, scale, i, src[i], Groups(src[i + 1..], 5 - (i + 1)));
      if src[i] < 0x80 {
        if i == 4 && src[i] >= 0x10 {
          return None;
        }
        return Some(Decoded(result + scale * src[i], i + 1));
      }
      result := result + scale * (src[i] - 0x80);
      scale := scale * 0x80;
      i := i + 1;
    }
    GroupsOver(src, i, 5);
    ShiftStep(result, scale, i, 0, None);
    return None;
  }

  /** What is left to read from byte i on. */
  lemma GroupsAt(src: seq<byte>, i: nat, max: nat)
    requires i < |src| && i < max
    ensures Groups(src[i..], max - i) == Group(src[i], Groups(src[i + 1..], max - (i + 1)))
  {
    assert src[i..][0] == src[i] && src[i..][1..] == src[i + 1..];
  }

  lemma GroupsOver(src: seq<byte>, i: nat, max: nat)
    requires i == |src| || i == max
    requires i <= |src| && i <= max
    ensures Groups(src[i..], max - i) == None
  {
  }

  function Group(b: byte, rest: Option<Decoded>): Option<Decoded> {
    if b < 0x80 then Some(Decoded(b, 1))
    else if rest.None? then None
    else Some(Decoded(b - 0x80 + 0x80 * rest.value.value, rest.value.used + 1))
  }

  ghost function Shift(result: nat, scale: nat, i: nat, rest: Option<Decoded>): Option<Decoded> {
    match rest
    case None => None
    case Some(d) => Some(Decoded(result + scale * d.value, i + d.used))
  }

  lemma ShiftNone(rest: Option<Decoded>)
    ensures Shift(0, 1, 0, rest) == rest
  {
  }

  lemma ShiftStep(result: nat, scale: nat, i: nat, b: byte, rest: Option<Decoded>)
    ensures b < 0x80 ==> Shift(result, scale, i, Group(b, rest)) == Some(Decoded(result + scale * b, i + 1))
    ensures b >= 0x80 ==>
      Shift(result, scale, i, Group(b, rest)) == Shift(result + scale * (b - 0x80), scale * 0x80, i + 1, rest)
    ensures Shift(result, scale, i, None) == None
  {
    if b >= 0x80 && rest.Some? {
      var v := rest.value.value;
      assert scale * (b - 0x80 + 0x80 * v) == scale * (b - 0x80) + (scale * 0x80) * v;
    }
  }
}
