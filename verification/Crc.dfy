/**
  The link checksum: CRC16/CCITT-FALSE, initial value 0xffff, polynomial 0x1021, most
  significant bit first (core/src/mc_link.c and bridge/src/link.rs run the same loop).

  A 16-bit register is the sequence of its bits, most significant first. The loops on machine
  words compute the update of the register; the byte-at-a-time update is related to a bit-serial
  shift register, and the shift register is shown to tell apart any two equally long strings that
  differ inside one window of at most sixteen consecutive bits.
*/
module Crc {
  import opened Arith
  import opened Bytes

  type Register = r: seq<bool> | |r| == 16
    witness [false, false, false, false, false, false, false, false,
             false, false, false, false, false, false, false, false]

  const INIT: u16 := 0xffff
  const POLYNOMIAL: u16 := 0x1021

  const INITIAL: Register := Digits(INIT, 16)

  /** Bit i of 0x1021, counting from the most significant. */
  predicate PolynomialBit(i: int) {
    i == 3 || i == 10 || i == 15
  }

  // ----- bits -----

  function Zeros(n: nat): (z: seq<bool>)
    ensures |z| == n
    ensures AllZero(z)
  {
    seq(n, _ => false)
  }

  predicate AllZero(bits: seq<bool>) {
    forall i :: 0 <= i < |bits| ==> !bits[i]
  }

  function Xor(a: seq<bool>, b: seq<bool>): (c: seq<bool>)
    requires |a| == |b|
    ensures |c| == |a|
    ensures forall i :: 0 <= i < |a| ==> c[i] == (a[i] != b[i])
  {
    seq(|a|, i requires 0 <= i < |a| => a[i] != b[i])
  }

  /** The low `width` binary digits of a number, most significant first. */
  function Digits(v: nat, width: nat): (bits: seq<bool>)
    ensures |bits| == width
    decreases width
  {
    if width == 0 then [] else Digits(v / 2, width - 1) + [v % 2 == 1]
  }

  function ByteBits(b: byte): (bits: seq<bool>)
    ensures |bits| == 8
  {
    Digits(b, 8)
  }

  /** All bits of a string, most significant bit of each byte first. */
  function Bits(data: seq<byte>): (bits: seq<bool>)
    ensures |bits| == 8 * |data|
  {
    if data == [] then [] else ByteBits(data[0]) + Bits(data[1..])
  }

  /** The number whose binary digits are the given bits. */
  function Value(bits: seq<bool>): (v: nat)
    ensures v < Pow2(|bits|)
  {
    if bits == [] then 0
    else 2 * Value(bits[..|bits| - 1]) + (if bits[|bits| - 1] then 1 else 0)
  }

  lemma {:induction false} ValueInjective(a: seq<bool>, b: seq<bool>)
    requires |a| == |b|
    requires Value(a) == Value(b)
    ensures a == b
    decreases |a|
  {
    if a == [] {
    } else {
      var n := |a| - 1;
      ValueInjective(a[..n], b[..n]);
      assert a == a[..n] + [a[n]] && b == b[..n] + [b[n]];
    }
  }

  lemma {:induction false} DigitsValue(v: nat, width: nat)
    requires v < Pow2(width)
    ensures Value(Digits(v, width)) == v
    decreases width
  {
    if width == 0 {
    } else {
      var bits := Digits(v, width);
      DigitsValue(v / 2, width - 1);
      assert bits[..width - 1] == Digits(v / 2, width - 1);
    }
  }

  // ----- what the loops compute -----

  function ShiftOnce(crc: Register): Register {
    seq(16, i requires 0 <= i < 16 =>
      (i < 15 && crc[i + 1]) != (crc[0] && PolynomialBit(i)))
  }

  function ShiftTimes(crc: Register, count: nat): Register
    decreases count
  {
    if count == 0 then crc else ShiftTimes(ShiftOnce(crc), count - 1)
  }

  /** XOR a byte into the high half of the register, then shift eight times. */
  function AddByte(crc: Register, b: byte): Register {
    ShiftTimes(Xor(crc, ByteBits(b) + Zeros(8)), 8)
  }

  function Update(crc: Register, data: seq<byte>): Register
    decreases |data|
  {
    if data == [] then crc else Update(AddByte(crc, data[0]), data[1..])
  }

  /** The register as the 16-bit word that goes on the wire. */
  function ToWord(crc: Register): u16 {
    Pow2Values();
    Value(crc)
  }

  function Crc16(data: seq<byte>): u16 {
    ToWord(Update(INITIAL, data))
  }

  // ----- the loops, on machine words -----

  /** Exclusive or of the low `width` bits of two numbers. */
  function XorNat(a: nat, b: nat, width: nat): (c: nat)
    ensures c < Pow2(width)
    decreases width
  {
    if width == 0 then 0
    else 2 * XorNat(a / 2, b / 2, width - 1) + (if a % 2 != b % 2 then 1 else 0)
  }

  function XorWord(a: u16, b: u16): u16 {
    Pow2Values();
    XorNat(a, b, 16)
  }

  lemma {:induction false} XorNatDigits(a: nat, b: nat, width: nat)
    ensures Digits(XorNat(a, b, width), width) == Xor(Digits(a, width), Digits(b, width))
    decreases width
  {
    if width > 0 {
      XorNatDigits(a / 2, b / 2, width - 1);
    }
  }

  /** Only the low digits count. */
  lemma {:induction false} DigitsLow(v: nat, width: nat)
    ensures Digits(v + Pow2(width), width) == Digits(v, width)
    ensures Digits(v, width + 1)[1..] == Digits(v, width)
    decreases width
  {
    if width > 0 {
      DigitsLow(v / 2, width - 1);
      assert (v + 2 * Pow2(width - 1)) / 2 == v / 2 + Pow2(width - 1);
      assert Digits(v, width + 1) == Digits(v / 2, width) + [v % 2 == 1];
    }
  }

  lemma {:induction false} TopDigit(v: nat, width: nat)
    requires v < 2 * Pow2(width)
    ensures Digits(v, width + 1)[0] == (v >= Pow2(width))
    decreases width
  {
    if width > 0 {
      TopDigit(v / 2, width - 1);
      assert Digits(v, width + 1) == Digits(v / 2, width) + [v % 2 == 1];
    }
  }

  /** The body of the inner loop: shift left, and XOR the polynomial if a bit fell out. */
  function ShiftWord(crc: u16): u16 {
    if crc >= 0x8000 then XorWord(2 * crc - 0x1_0000, POLYNOMIAL) else 2 * crc
  }

  lemma ShiftedLeft(crc: u16)
    ensures Digits(crc, 16)[0] == (crc >= 0x8000)
    ensures Digits(if crc >= 0x8000 then 2 * crc - 0x1_0000 else 2 * crc, 16) == Digits(crc, 16)[1..] + [false]
  {
    hide Digits;
    HalfWords();
    TopDigit(crc, 15);
    DigitsLow(crc, 15);
    if crc >= 0x8000 {
      DigitsLow(crc - 0x8000, 15);
      DigitsTwice(crc - 0x8000, 15);
    } else {
      DigitsTwice(crc, 15);
    }
  }

  lemma HalfWords()
    ensures Pow2(8) == 0x100 && Pow2(15) == 0x8000 && Pow2(16) == 0x1_0000
  {
    assert Pow2(4) == 16 && Pow2(3) == 8;
    Pow2Add(4, 4);
    Pow2Add(8, 7);
    Pow2Add(4, 3);
  }

  lemma DigitsTwice(v: nat, width: nat)
    ensures Digits(2 * v, width + 1) == Digits(v, width) + [false]
  {
    assert 2 * v / 2 == v && 2 * v % 2 == 0;
  }

  /** On the bits of a word, the loop body is one step of the polynomial shift register. */
  lemma ShiftWordIsShift(crc: u16)
    ensures Digits(ShiftWord(crc), 16) == ShiftOnce(Digits(crc, 16))
  {
    hide XorNat, Xor;
    var t: nat := if crc >= 0x8000 then 2 * crc - 0x1_0000 else 2 * crc;
    ShiftedLeft(crc);
    XorNatDigits(t, POLYNOMIAL, 16);
    PolynomialDigits();
    XorAt(Digits(t, 16), Digits(POLYNOMIAL, 16));
    hide Digits;
    assert Digits(ShiftWord(crc), 16)
        == if crc >= 0x8000 then Xor(Digits(t, 16), Digits(POLYNOMIAL, 16)) else Digits(t, 16);
  }

  lemma XorAt(a: seq<bool>, b: seq<bool>)
    requires |a| == |b|
    ensures forall i :: 0 <= i < |a| ==> Xor(a, b)[i] == (a[i] != b[i])
  {
  }

  /** Bit i of the polynomial, counting from the most significant. */
  lemma PolynomialDigits()
    ensures forall i :: 0 <= i < 16 ==> Digits(POLYNOMIAL, 16)[i] == PolynomialBit(i)
  {
    hide Digits;
    HalfWords();
    DigitsSplit(0x10, 0x21, 8, 8);
    PolynomialBytes();
  }

  lemma PolynomialBytes()
    ensures Digits(0x10, 8) == [false, false, false, true, false, false, false, false]
    ensures Digits(0x21, 8) == [false, false, true, false, false, false, false, true]
  {
    Nibbles();
    assert Pow2(4) == 16;
    hide Digits, Pow2;
    DigitsSplit(1, 0, 4, 4);
    DigitsSplit(2, 1, 4, 4);
  }

  lemma Nibbles()
    ensures Digits(0, 4) == [false, false, false, false] && Digits(1, 4) == [false, false, false, true]
    ensures Digits(2, 4) == [false, false, true, false]
  {
  }

  /** `crc16_update`: the two nested loops on a 16-bit word. */
  method UpdateLoop(start: u16, src: seq<byte>) returns (crc: u16)
    ensures Digits(crc, 16) == Update(Digits(start, 16), src)
    ensures crc == ToWord(Update(Digits(start, 16), src))
  {
    hide ShiftTimes, Xor, XorNat, ByteBits, Zeros, ToWord;
    crc := start;
    var i := 0;
    while i < |src|
      invariant 0 <= i <= |src|
      invariant Update(Digits(crc, 16), src[i..]) == Update(Digits(start, 16), src)
    {
      assert src[i..][1..] == src[i + 1..];
      ByteHigh(crc, src[i]);
      crc := ShiftLoop(XorWord(crc, 0x100 * src[i] as int));
      i := i + 1;
    }
    assert src[i..] == [];
    WordOfDigits(crc);
  }

  lemma WordOfDigits(w: u16)
    ensures ToWord(Digits(w, 16)) == w
  {
    HalfWords();
    DigitsValue(w, 16);
  }

  method ShiftLoop(start: u16) returns (crc: u16)
    ensures Digits(crc, 16) == ShiftTimes(Digits(start, 16), 8)
  {
    hide ShiftOnce, XorWord, Digits;
    crc := start;
    var bit := 0;
    while bit < 8
      invariant 0 <= bit <= 8
      invariant ShiftTimes(Digits(crc, 16), 8 - bit) == ShiftTimes(Digits(start, 16), 8)
    {
      ShiftWordIsShift(crc);
      if crc >= 0x8000 {
        crc := XorWord(2 * crc % 0x1_0000, POLYNOMIAL);
      } else {
        crc := 2 * crc % 0x1_0000;
      }
      bit := bit + 1;
    }
  }

  /** XORing a byte, shifted left by eight, into the word. */
  lemma ByteHigh(crc: u16, b: byte)
    ensures Digits(XorWord(crc, 0x100 * b), 16) == Xor(Digits(crc, 16), ByteBits(b) + Zeros(8))
  {
    hide Digits, Xor, Zeros, XorNat;
    XorNatDigits(crc, 0x100 * b, 16);
    HalfWords();
    DigitsSplit(b, 0, 8, 8);
    ZeroDigits(8);
  }

  lemma {:induction false} ZeroDigits(width: nat)
    ensures Digits(0, width) == Zeros(width)
    decreases width
  {
    if width > 0 {
      ZeroDigits(width - 1);
    }
  }

  lemma {:induction false} DigitsSplit(a: nat, b: nat, n: nat, k: nat)
    requires b < Pow2(k)
    ensures Digits(a * Pow2(k) + b, n + k) == Digits(a, n) + Digits(b, k)
    decreases k
  {
    if k > 0 {
      var p := Pow2(k - 1);
      assert (a * (2 * p) + b) / 2 == a * p + b / 2 && (a * (2 * p) + b) % 2 == b % 2 by {
        MulAssoc(a, 2, p);
        assert a * (2 * p) == 2 * (a * p);
      }
      DigitsSplit(a, b / 2, n, k - 1);
      Regroup(Digits(a, n), Digits(b / 2, k - 1), [b % 2 == 1]);
    }
  }

  /** Feeding a string in two pieces gives the checksum of the whole. */
  lemma {:induction false} UpdateAppend(crc: Register, a: seq<byte>, b: seq<byte>)
    ensures Update(crc, a + b) == Update(Update(crc, a), b)
    decreases |a|
  {
    if a == [] {
      assert a + b == b;
    } else {
      assert (a + b)[1..] == a[1..] + b;
      UpdateAppend(AddByte(crc, a[0]), a[1..], b);
    }
  }

  // ----- the bit-serial reference -----

  /** One step of the shift register: the incoming bit is compared with the top bit. */
  function Lfsr(crc: Register, bit: bool): Register {
    seq(16, i requires 0 <= i < 16 =>
      (i < 15 && crc[i + 1]) != (crc[0] != bit && PolynomialBit(i)))
  }

  function LfsrRun(crc: Register, bits: seq<bool>): Register
    decreases |bits|
  {
    if bits == [] then crc else LfsrRun(Lfsr(crc, bits[0]), bits[1..])
  }

  lemma {:induction false} LfsrRunAppend(crc: Register, a: seq<bool>, b: seq<bool>)
    ensures LfsrRun(crc, a + b) == LfsrRun(LfsrRun(crc, a), b)
    decreases |a|
  {
    if a == [] {
      assert a + b == b;
    } else {
      assert (a + b)[1..] == a[1..] + b;
      LfsrRunAppend(Lfsr(crc, a[0]), a[1..], b);
    }
  }

  /** XORing the next bits in ahead of time, then shifting, is feeding them one by one. */
  lemma {:induction false} ShiftTimesIsLfsrRun(crc: Register, bits: seq<bool>)
    requires |bits| <= 16
    ensures ShiftTimes(Xor(crc, bits + Zeros(16 - |bits|)), |bits|) == LfsrRun(crc, bits)
    decreases |bits|
  {
    var mixed := Xor(crc, bits + Zeros(16 - |bits|));
    if bits == [] {
      assert mixed == crc;
    } else {
      var rest := bits[1..];
      ShiftTimesIsLfsrRun(Lfsr(crc, bits[0]), rest);
      assert ShiftOnce(mixed) == Xor(Lfsr(crc, bits[0]), rest + Zeros(16 - |rest|));
    }
  }

  lemma {:induction false} UpdateIsLfsrRun(crc: Register, data: seq<byte>)
    ensures Update(crc, data) == LfsrRun(crc, Bits(data))
    decreases |data|
  {
    if data == [] {
    } else {
      ShiftTimesIsLfsrRun(crc, ByteBits(data[0]));
      LfsrRunAppend(crc, ByteBits(data[0]), Bits(data[1..]));
      UpdateIsLfsrRun(AddByte(crc, data[0]), data[1..]);
    }
  }

  // ----- what the shift register detects -----

  /** The register is linear: the difference of two runs is the run of the difference. */
  lemma {:induction false} LfsrRunLinear(c: Register, d: Register, a: seq<bool>, b: seq<bool>)
    requires |a| == |b|
    ensures Xor(LfsrRun(c, a), LfsrRun(d, b)) == LfsrRun(Xor(c, d), Xor(a, b))
    decreases |a|
  {
    if a == [] {
    } else {
      assert Xor(a, b)[1..] == Xor(a[1..], b[1..]);
      assert Xor(Lfsr(c, a[0]), Lfsr(d, b[0])) == Lfsr(Xor(c, d), a[0] != b[0]);
      LfsrRunLinear(Lfsr(c, a[0]), Lfsr(d, b[0]), a[1..], b[1..]);
    }
  }

  /** Zero bits never turn a nonzero register into zero, nor a zero one into nonzero. */
  lemma {:induction false} LfsrRunZeros(crc: Register, bits: seq<bool>)
    requires AllZero(bits)
    ensures AllZero(LfsrRun(crc, bits)) <==> AllZero(crc)
    decreases |bits|
  {
    if bits == [] {
    } else {
      var next := Lfsr(crc, false);
      if AllZero(next) {
        assert !next[15];
        assert forall i :: 0 < i < 16 ==> crc[i] == next[i - 1];
      }
      LfsrRunZeros(next, bits[1..]);
    }
  }

  /** The only register that sixteen or fewer bits can drive to zero is those bits themselves. */
  lemma {:induction false} DrivenToZero(crc: Register, bits: seq<bool>)
    requires |bits| <= 16
    requires AllZero(LfsrRun(crc, bits))
    ensures crc == bits + Zeros(16 - |bits|)
    decreases |bits|
  {
    if bits == [] {
    } else {
      var next := Lfsr(crc, bits[0]);
      DrivenToZero(next, bits[1..]);
      assert !next[15];
      assert forall i :: 0 < i < 16 ==> crc[i] == next[i - 1];
    }
  }

  lemma ShortBurstSurvives(crc: Register, burst: seq<bool>)
    requires AllZero(crc)
    requires |burst| <= 16
    ensures AllZero(LfsrRun(crc, burst)) ==> AllZero(burst)
  {
    if AllZero(LfsrRun(crc, burst)) {
      DrivenToZero(crc, burst);
      assert forall i :: 0 <= i < |burst| ==> burst[i] == crc[i];
    }
  }

  /** Equal outside the bit window [start, start + 16). */
  ghost predicate DifferInsideWindow(a: seq<bool>, b: seq<bool>, start: nat) {
    && |a| == |b|
    && forall i :: 0 <= i < |a| && !(start <= i < start + 16) ==> a[i] == b[i]
  }

  /** A nonzero difference confined to one window leaves a nonzero register. */
  lemma BurstLeavesTrace(d: seq<bool>, start: nat)
    requires !AllZero(d)
    requires forall i :: 0 <= i < |d| && !(start <= i < start + 16) ==> !d[i]
    ensures !AllZero(LfsrRun(Zeros(16), d))
  {
    hide LfsrRun;
    var before, burst, after := CutWindow(d, start);
    var r1 := LfsrRun(Zeros(16), before);
    var r2 := LfsrRun(r1, burst);
    LfsrRunAppend(Zeros(16), before, burst + after);
    LfsrRunAppend(r1, burst, after);
    LfsrRunZeros(Zeros(16), before);
    ShortBurstSurvives(r1, burst);
    LfsrRunZeros(r2, after);
  }

  lemma CutWindow(d: seq<bool>, start: nat) returns (before: seq<bool>, burst: seq<bool>, after: seq<bool>)
    requires !AllZero(d)
    requires forall i :: 0 <= i < |d| && !(start <= i < start + 16) ==> !d[i]
    ensures d == before + (burst + after)
    ensures AllZero(before) && AllZero(after) && !AllZero(burst) && |burst| <= 16
  {
    hide AllZero;
    var s, e := Min(start, |d|), Min(start + 16, |d|);
    before, burst, after := d[..s], d[s..e], d[e..];
    ZeroSlices(d, s, e);
    WindowNonzero(d, s, e);
  }

  lemma ZeroSlices(d: seq<bool>, s: nat, e: nat)
    requires s <= e <= |d| && forall i :: 0 <= i < |d| && !(s <= i < e) ==> !d[i]
    ensures AllZero(d[..s]) && AllZero(d[e..])
  {
  }

  lemma WindowNonzero(d: seq<bool>, s: nat, e: nat)
    requires s <= e <= |d| && !AllZero(d) && forall i :: 0 <= i < |d| && !(s <= i < e) ==> !d[i]
    ensures !AllZero(d[s..e])
  {
    var i :| 0 <= i < |d| && d[i];
    assert d[s..e][i - s] == d[i];
  }

  lemma BurstChangesRegister(c: Register, a: seq<bool>, b: seq<bool>, start: nat)
    requires DifferInsideWindow(a, b, start)
    requires a != b
    ensures LfsrRun(c, a) != LfsrRun(c, b)
  {
    BurstLeavesTrace(Xor(a, b), start);
    LfsrRunLinear(c, c, a, b);
    assert Xor(c, c) == Zeros(16);
  }

  lemma ByteBitsInjective(a: byte, b: byte)
    requires ByteBits(a) == ByteBits(b)
    ensures a == b
  {
    assert Pow2(8) == 256;
    DigitsValue(a, 8);
    DigitsValue(b, 8);
  }

  lemma {:induction false} BitsInjective(a: seq<byte>, b: seq<byte>)
    requires |a| == |b|
    requires Bits(a) == Bits(b)
    ensures a == b
    decreases |a|
  {
    hide ByteBits;
    if a == [] {
    } else {
      assert Bits(a)[..8] == ByteBits(a[0]) && Bits(b)[..8] == ByteBits(b[0]);
      assert Bits(a)[8..] == Bits(a[1..]) && Bits(b)[8..] == Bits(b[1..]);
      ByteBitsInjective(a[0], b[0]);
      BitsInjective(a[1..], b[1..]);
      assert a == [a[0]] + a[1..] && b == [b[0]] + b[1..];
    }
  }

  /**
    Burst detection: two different strings of equal length that agree outside one window of
    sixteen consecutive bits never have the same checksum.
  */
  lemma BurstDetected(a: seq<byte>, b: seq<byte>, start: nat)
    requires |a| == |b|
    requires DifferInsideWindow(Bits(a), Bits(b), start)
    requires a != b
    ensures Crc16(a) != Crc16(b)
  {
    if Bits(a) == Bits(b) {
      BitsInjective(a, b);
    }
    BurstChangesRegister(INITIAL, Bits(a), Bits(b), start);
    UpdateIsLfsrRun(INITIAL, a);
    UpdateIsLfsrRun(INITIAL, b);
    if Crc16(a) == Crc16(b) {
      ValueInjective(Update(INITIAL, a), Update(INITIAL, b));
    }
  }
}
