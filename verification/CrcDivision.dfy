/**
  The checksum as what its name says: the remainder of the message, with sixteen zero bits appended
  and its first sixteen bits complemented, on division over GF(2) by x^16 + x^12 + x^5 + 1.
*/
module CrcDivision {
  import opened Arith
  import opened Bytes
  import opened Crc

  /** x^16 + x^12 + x^5 + 1, highest power first. */
  const GENERATOR: seq<bool> :=
    [true, false, false, false, true, false, false, false, false, false, false, true, false, false, false, false, true]

  /** The first row of a long multiplication. */
  function Row(bit: bool, zeros: nat): (r: seq<bool>)
    ensures |r| == 17 + zeros
  {
    (if bit then GENERATOR else Zeros(17)) + Zeros(zeros)
  }

  /** Multiplication by the generator, without carries. */
  function Product(q: seq<bool>): (p: seq<bool>)
    ensures |p| == |q| + 16
  {
    if q == [] then Zeros(16) else Xor(Row(q[0], |q| - 1), [false] + Product(q[1..]))
  }

  /** The message is a multiple of the generator plus r. */
  ghost predicate IsRemainder(message: seq<bool>, r: Register) {
    exists q :: DividesBut(message, q, r)
  }

  ghost predicate DividesBut(message: seq<bool>, q: seq<bool>, r: Register) {
    |q| + 16 == |message| && message == Xor(Product(q), Zeros(|q|) + r)
  }

  function Ones(n: nat): (o: seq<bool>)
    ensures |o| == n
  {
    seq(n, _ => true)
  }

  /** Sixteen zero bits behind the message, and its first sixteen bits complemented. */
  function Prepared(data: seq<byte>): (m: seq<bool>)
    ensures |m| == 8 * |data| + 16
  {
    Xor(Bits(data) + Zeros(16), Ones(16) + Zeros(8 * |data|))
  }

  lemma ProductStep(q: seq<bool>)
    requires q != []
    ensures var row := Row(q[0], |q| - 1); Product(q) == Xor(row, [false] + Product(q[1..])) && row[0] == q[0]
  {
  }

  // ----- the shift register divides -----

  function Loaded(crc: Register, bits: seq<bool>): (m: seq<bool>)
    ensures |m| == |bits| + 16
  {
    Xor(bits + Zeros(16), crc + Zeros(|bits|))
  }

  /** The bits that fall out of the register are the quotient. */
  function Quotient(crc: Register, bits: seq<bool>): (q: seq<bool>)
    ensures |q| == |bits|
    decreases |bits|
  {
    if bits == [] then [] else [crc[0] != bits[0]] + Quotient(Lfsr(crc, bits[0]), bits[1..])
  }

  lemma PolynomialIsGenerator(i: nat)
    requires i < 16
    ensures PolynomialBit(i) == GENERATOR[i + 1]
  {
  }

  /** One step of the register is one step of long division. */
  lemma StepDivides(crc: Register, bits: seq<bool>)
    requires bits != []
    ensures Loaded(crc, bits)
         == Xor(Row(crc[0] != bits[0], |bits| - 1), [false] + Loaded(Lfsr(crc, bits[0]), bits[1..]))
  {
    hide PolynomialBit, Loaded, Lfsr, Row;
    forall i | 0 <= i < |bits| + 16
      ensures Loaded(crc, bits)[i]
           == (Row(crc[0] != bits[0], |bits| - 1)[i] != ([false] + Loaded(Lfsr(crc, bits[0]), bits[1..]))[i])
    {
      BitDivides(crc, bits, i);
    }
  }

  lemma BitDivides(crc: Register, bits: seq<bool>, i: nat)
    requires bits != [] && i < |bits| + 16
    ensures Loaded(crc, bits)[i]
         == (Row(crc[0] != bits[0], |bits| - 1)[i] != ([false] + Loaded(Lfsr(crc, bits[0]), bits[1..]))[i])
  {
    if 0 < i <= 16 {
      PolynomialIsGenerator(i - 1);
    }
    hide PolynomialBit;
  }

  lemma XorRows(row: seq<bool>, p: seq<bool>, r: seq<bool>)
    requires |row| == |p| + 1 && |p| == |r|
    ensures Xor(row, [false] + Xor(p, r)) == Xor(Xor(row, [false] + p), [false] + r)
  {
  }

  lemma NothingDivides(crc: Register)
    ensures DividesBut(Loaded(crc, []), [], crc)
  {
    assert Loaded(crc, []) == crc;
    assert Xor(Product([]), Zeros(0) + crc) == crc;
  }

  lemma MoreZeros(n: nat, r: Register)
    ensures [false] + (Zeros(n) + r) == Zeros(n + 1) + r
  {
  }

  lemma RunStep(crc: Register, bits: seq<bool>, q: seq<bool>, r: Register)
    requires bits != [] && |q| == |bits| - 1 && DividesBut(Loaded(Lfsr(crc, bits[0]), bits[1..]), q, r)
    ensures DividesBut(Loaded(crc, bits), [crc[0] != bits[0]] + q, r)
  {
    StepDivides(crc, bits);
    hide Lfsr, Xor, Zeros, Row, Loaded, Product;
    var next := [crc[0] != bits[0]] + q;
    assert next[1..] == q;
    ProductStep(next);
    XorRows(Row(next[0], |q|), Product(q), Zeros(|q|) + r);
    MoreZeros(|q|, r);
  }

  lemma {:induction false} RunDivides(crc: Register, bits: seq<bool>)
    ensures DividesBut(Loaded(crc, bits), Quotient(crc, bits), LfsrRun(crc, bits))
    decreases |bits|
  {
    hide Lfsr, Loaded, DividesBut;
    if bits == [] {
      NothingDivides(crc);
    } else {
      var next := Lfsr(crc, bits[0]);
      RunDivides(next, bits[1..]);
      RunStep(crc, bits, Quotient(next, bits[1..]), LfsrRun(next, bits[1..]));
    }
  }

  // ----- there is only one remainder -----

  lemma CancelRow(row: seq<bool>, p: seq<bool>, z: seq<bool>)
    requires |row| == |p| + 1 == |z| && !z[0]
    ensures Xor(Xor(row, [false] + p), z)[0] == row[0]
    ensures Xor(row, Xor(Xor(row, [false] + p), z))[1..] == Xor(p, z[1..])
  {
  }

  lemma LessZero(n: nat, r: Register)
    requires n > 0
    ensures !(Zeros(n) + r)[0] && (Zeros(n) + r)[1..] == Zeros(n - 1) + r
  {
  }

  lemma {:induction false} OneRemainder(p: seq<bool>, r: Register, q: seq<bool>, s: Register)
    requires |p| == |q| && Xor(Product(p), Zeros(|p|) + r) == Xor(Product(q), Zeros(|q|) + s)
    ensures r == s
    decreases |p|
  {
    if p == [] {
      assert Xor(Product(p), Zeros(|p|) + r) == r && Xor(Product(q), Zeros(|q|) + s) == s;
    } else {
      hide Xor, Row, Zeros, Product;
      ProductStep(p);
      ProductStep(q);
      LessZero(|p|, r);
      LessZero(|q|, s);
      CancelRow(Row(p[0], |p| - 1), Product(p[1..]), Zeros(|p|) + r);
      CancelRow(Row(q[0], |q| - 1), Product(q[1..]), Zeros(|q|) + s);
      OneRemainder(p[1..], r, q[1..], s);
    }
  }

  // ----- the law -----

  lemma DigitsOfValue(bits: Register)
    ensures Digits(Value(bits), 16) == bits
  {
    DigitsValue(Value(bits), 16);
    ValueInjective(Digits(Value(bits), 16), bits);
  }

  lemma JoinOnes(m: nat, n: nat)
    ensures Ones(m) + Ones(n) == Ones(m + n)
  {
  }

  lemma FourOnes()
    ensures Digits(0xf, 4) == Ones(4) && Pow2(4) == 0x10
  {
  }

  lemma InitialOnes()
    ensures INITIAL == Ones(16)
  {
    FourOnes();
    HalfWords();
    hide Digits, Pow2, Ones;
    DigitsSplit(0xf, 0xf, 4, 4);
    DigitsSplit(0xff, 0xff, 8, 8);
    JoinOnes(4, 4);
    JoinOnes(8, 8);
  }

  /** The checksum, and no other word, is the remainder. */
  lemma CrcIsRemainder(data: seq<byte>, w: u16)
    ensures IsRemainder(Prepared(data), Digits(w, 16)) <==> w == Crc16(data)
  {
    hide Xor, Zeros, Bits, Lfsr, Product, Digits, Value;
    var bits := Bits(data);
    InitialOnes();
    UpdateIsLfsrRun(INITIAL, data);
    RunDivides(INITIAL, bits);
    DigitsOfValue(LfsrRun(INITIAL, bits));
    HalfWords();
    DigitsValue(w, 16);
    assert Prepared(data) == Loaded(INITIAL, bits);
    if IsRemainder(Prepared(data), Digits(w, 16)) {
      var q :| DividesBut(Prepared(data), q, Digits(w, 16));
      OneRemainder(q, Digits(w, 16), Quotient(INITIAL, bits), LfsrRun(INITIAL, bits));
    }
  }

  // ----- the check value -----

  /** What toggling one binary digit of v adds; p is that digit's place value. */
  function Flip(v: nat, p: nat): int
    requires p > 0
  {
    if v / p % 2 == 0 then p else -(p as int)
  }

  lemma {:induction false} XorNothing(a: nat, width: nat)
    requires a < Pow2(width)
    ensures XorNat(a, 0, width) == a
    decreases width
  {
    if width > 0 {
      XorNothing(a / 2, width - 1);
    }
  }

  lemma FlipTwice(a: nat, p: nat)
    requires p > 0
    ensures 2 * Flip(a / 2, p) == Flip(a, 2 * p)
  {
    HalfOfQuotient(a, p);
  }

  lemma XorLowest(a: nat, m: nat, width: nat)
    requires width > 0
    ensures XorNat(a, 2 * m + 1, width) == XorNat(a, 2 * m, width) + Flip(a, 1)
  {
    assert (2 * m + 1) / 2 == m && 2 * m / 2 == m;
    hide Pow2;
  }

  lemma XorHalves(a: nat, b: nat, width: nat)
    requires width > 0
    ensures XorNat(a, 2 * b, width) == 2 * XorNat(a / 2, b, width - 1) + a % 2
  {
    assert 2 * b / 2 == b;
  }

  /** One more bit in the second operand, whose lower digits are zero, toggles that digit of the result. */
  lemma {:induction false} XorOneMore(a: nat, m: nat, k: nat, width: nat)
    requires k < width
    ensures XorNat(a, 2 * Pow2(k) * m + Pow2(k), width) == XorNat(a, 2 * Pow2(k) * m, width) + Flip(a, Pow2(k))
    decreases k
  {
    hide XorNat, Flip;
    if k == 0 {
      XorLowest(a, m, width);
    } else {
      var p := Pow2(k - 1);
      MulAssoc(2, 2 * p, m);
      MulAssoc(2, p, m);
      XorOneMore(a / 2, m, k - 1, width - 1);
      XorHalves(a, 2 * p * m + p, width);
      XorHalves(a, 2 * p * m, width);
      FlipTwice(a, p);
    }
  }

  lemma Places()
    ensures Pow2(0) == 1 && Pow2(5) == 0x20 && Pow2(8) == 0x100 && Pow2(9) == 0x200 && Pow2(10) == 0x400
    ensures Pow2(11) == 0x800 && Pow2(12) == 0x1000 && Pow2(13) == 0x2000
  {
    HalfWords();
    Pow2Add(8, 1);
    Pow2Add(8, 2);
    Pow2Add(8, 3);
    Pow2Add(8, 4);
    Pow2Add(8, 5);
    assert Pow2(1) == 2 && Pow2(2) == 4 && Pow2(3) == 8 && Pow2(4) == 16;
  }

  function Shifted(crc: nat): int {
    var t := 2 * crc - 0x1_0000;
    if t >= 0 then t + 1 + Flip(t, 0x20) + Flip(t, 0x1000) else 2 * crc
  }

  lemma ShiftedIs(crc: u16)
    ensures ShiftWord(crc) == Shifted(crc)
  {
    hide XorNat, XorWord;
    if crc >= 0x8000 {
      PolynomialXored(2 * crc - 0x1_0000);
      EvenFlip(crc - 0x8000);
    }
  }

  lemma EvenFlip(v: nat)
    ensures Flip(2 * v, 1) == 1
  {
  }

  lemma PolynomialXored(t: u16)
    ensures XorWord(t, POLYNOMIAL) == t + Flip(t, 1) + Flip(t, 0x20) + Flip(t, 0x1000)
  {
    Places();
    HalfWords();
    hide Pow2, XorNat, Flip;
    XorNothing(t, 16);
    XorOneMore(t, 0, 12, 16);
    XorOneMore(t, 0x40, 5, 16);
    XorOneMore(t, 0x810, 0, 16);
  }

  /** XORing the ASCII digit n into the high byte. */
  function Mixed(crc: nat, n: nat): int {
    crc + Flip(crc, 0x2000) + Flip(crc, 0x1000)
    + (if n / 8 % 2 == 1 then Flip(crc, 0x800) else 0) + (if n / 4 % 2 == 1 then Flip(crc, 0x400) else 0)
    + (if n / 2 % 2 == 1 then Flip(crc, 0x200) else 0) + (if n % 2 == 1 then Flip(crc, 0x100) else 0)
  }

  lemma MaybeXored(crc: u16, m: nat, k: nat, p: nat, d: nat)
    requires k < 16 && p == Pow2(k) && d < 2
    ensures XorNat(crc, 2 * p * m + p * d, 16) == XorNat(crc, 2 * p * m, 16) + if d == 1 then Flip(crc, p) else 0
  {
    hide Pow2, XorNat, Flip;
    if d == 1 {
      XorOneMore(crc, m, k, 16);
    } else {
      assert p * d == 0;
    }
  }

  lemma DigitXored(crc: u16, d3: nat, d2: nat, d1: nat, d0: nat)
    requires d3 < 2 && d2 < 2 && d1 < 2 && d0 < 2
    ensures XorNat(crc, 0x3000 + 0x800 * d3 + 0x400 * d2 + 0x200 * d1 + 0x100 * d0, 16)
         == crc + Flip(crc, 0x2000) + Flip(crc, 0x1000)
            + (if d3 == 1 then Flip(crc, 0x800) else 0) + (if d2 == 1 then Flip(crc, 0x400) else 0)
            + (if d1 == 1 then Flip(crc, 0x200) else 0) + (if d0 == 1 then Flip(crc, 0x100) else 0)
  {
    Places();
    HalfWords();
    hide Pow2, XorNat, Flip;
    XorNothing(crc, 16);
    MaybeXored(crc, 0, 13, 0x2000, 1);
    MaybeXored(crc, 1, 12, 0x1000, 1);
    MaybeXored(crc, 3, 11, 0x800, d3);
    MaybeXored(crc, 6 + d3, 10, 0x400, d2);
    MaybeXored(crc, 12 + 2 * d3 + d2, 9, 0x200, d1);
    MaybeXored(crc, 24 + 4 * d3 + 2 * d2 + d1, 8, 0x100, d0);
  }

  lemma FourPlaces(n: nat)
    requires n < 16
    ensures n == 8 * (n / 8 % 2) + 4 * (n / 4 % 2) + 2 * (n / 2 % 2) + n % 2
  {
  }

  lemma MixedIs(crc: u16, n: nat)
    requires n < 10
    ensures XorWord(crc, 0x100 * (0x30 + n)) == Mixed(crc, n)
  {
    hide XorNat, Flip;
    FourPlaces(n);
    DigitXored(crc, n / 8 % 2, n / 4 % 2, n / 2 % 2, n % 2);
  }

  lemma ShiftTwice(crc: u16, twice: u16)
    requires 0 <= Shifted(crc) < 0x1_0000 && Shifted(Shifted(crc)) == twice
    ensures forall k: nat :: k >= 2 ==> ShiftTimes(Digits(crc, 16), k) == ShiftTimes(Digits(twice, 16), k - 2)
  {
    hide Digits, Shifted, ShiftOnce, ShiftWord;
    var once: u16 := Shifted(crc);
    ShiftedIs(crc);
    ShiftedIs(once);
    ShiftWordIsShift(crc);
    ShiftWordIsShift(once);
  }

  /** One more ASCII digit, the register given after it is mixed in and after every second shift. */
  lemma DigitAdded(crc: u16, n: nat, mixed: u16, a: u16, b: u16, c: u16, d: u16, data: seq<byte>)
    requires n < 10 && data != [] && data[0] == 0x30 + n
    requires Mixed(crc, n) == mixed && 0 <= Shifted(mixed) < 0x1_0000 && Shifted(Shifted(mixed)) == a
    requires 0 <= Shifted(a) < 0x1_0000 && Shifted(Shifted(a)) == b
    requires 0 <= Shifted(b) < 0x1_0000 && Shifted(Shifted(b)) == c
    requires 0 <= Shifted(c) < 0x1_0000 && Shifted(Shifted(c)) == d
    ensures Update(Digits(crc, 16), data) == Update(Digits(d, 16), data[1..])
  {
    hide Digits, Shifted, Mixed, Xor, XorWord, Zeros, ShiftOnce;
    MixedIs(crc, n);
    ByteHigh(crc, data[0]);
    ShiftTwice(mixed, a);
    ShiftTwice(a, b);
    ShiftTwice(b, c);
    ShiftTwice(c, d);
    assert ShiftTimes(Digits(d, 16), 0) == Digits(d, 16);
  }

  lemma FirstDigits(data: seq<byte>)
    requires |data| >= 3 && data[..3] == [0x31, 0x32, 0x33]
    ensures Update(Digits(0xffff, 16), data) == Update(Digits(0x5bce, 16), data[3..])
  {
    hide Digits, Update;
    assert data[0] == data[..3][0] && data[1] == data[..3][1] && data[2] == data[..3][2];
    DigitAdded(0xffff, 1, 0xceff, 0x0b9f, 0x2e7c, 0xb9f0, 0xc782, data);
    DigitAdded(0xc782, 2, 0xf582, 0xe66b, 0xa9cf, 0x877e, 0x3dba, data[1..]);
    DigitAdded(0x3dba, 3, 0x0eba, 0x3ae8, 0xeba0, 0x9ee3, 0x5bce, data[2..]);
  }

  lemma MiddleDigits(data: seq<byte>)
    requires |data| >= 3 && data[..3] == [0x34, 0x35, 0x36]
    ensures Update(Digits(0x5bce, 16), data) == Update(Digits(0x2ef4, 16), data[3..])
  {
    hide Digits, Update;
    assert data[0] == data[..3][0] && data[1] == data[..3][1] && data[2] == data[..3][2];
    DigitAdded(0x5bce, 4, 0x6fce, 0xaf19, 0x9c26, 0x50da, 0x5349, data);
    DigitAdded(0x5349, 5, 0x6649, 0x8905, 0x0456, 0x1158, 0x4560, data[1..]);
    DigitAdded(0x4560, 6, 0x7360, 0xdda1, 0x46e7, 0x0bbd, 0x2ef4, data[2..]);
  }

  lemma LastDigits(data: seq<byte>)
    requires |data| >= 3 && data[..3] == [0x37, 0x38, 0x39]
    ensures Update(Digits(0x2ef4, 16), data) == Update(Digits(0x29b1, 16), data[3..])
  {
    hide Digits, Update;
    assert data[0] == data[..3][0] && data[1] == data[..3][1] && data[2] == data[..3][2];
    DigitAdded(0x2ef4, 7, 0x19f4, 0x67d0, 0x8f61, 0x1dc6, 0x7718, data);
    DigitAdded(0x7718, 8, 0x4f18, 0x2c41, 0xb104, 0xe452, 0xa12b, data[1..]);
    DigitAdded(0xa12b, 9, 0x982b, 0x40ee, 0x1399, 0x4e64, 0x29b1, data[2..]);
  }

  /** The published check value of CRC16/CCITT-FALSE: the checksum of the digits "123456789". */
  lemma CheckValue()
    ensures Crc16([0x31, 0x32, 0x33, 0x34, 0x35, 0x36, 0x37, 0x38, 0x39]) == 0x29b1
  {
    hide Digits, Update, Value;
    var data := [0x31, 0x32, 0x33, 0x34, 0x35, 0x36, 0x37, 0x38, 0x39];
    FirstDigits(data);
    MiddleDigits(data[3..]);
    LastDigits(data[6..]);
    assert data[3..][3..] == data[6..] && data[6..][3..] == [];
    NoMore(Digits(0x29b1, 16));
    HalfWords();
    DigitsValue(0x29b1, 16);
  }

  lemma NoMore(crc: Register)
    ensures Update(crc, []) == crc
  {
  }
}
