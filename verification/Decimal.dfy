/**
  `/tp` coordinates: decimal text to the bits of a double, by way of a fixed-point value with 32
  fraction bits. Proved: which tokens are numbers, exactly when one is out of range, and how close
  the resulting double is to what was typed.
*/
module Decimal {
  import opened Bytes
  import opened Arith
  import opened Fixed2

  const LIMIT := 30_000_000
  const MAX_FRAC := 9

  // ----- the text -----

  predicate IsDigit(c: char) {
    '0' <= c <= '9'
  }

  predicate AllDigits(s: string) {
    forall i :: 0 <= i < |s| ==> IsDigit(s[i])
  }

  function Digit(c: char): (d: nat)
    requires IsDigit(c)
    ensures d <= 9
  {
    (c - '0') as int
  }

  /** The number a string of digits denotes. */
  function NatOf(s: string): nat
    requires AllDigits(s)
  {
    if s == [] then 0 else 10 * NatOf(s[..|s| - 1]) + Digit(s[|s| - 1])
  }

  /** How many digits a string starts with. */
  function Lead(s: string): (n: nat)
    ensures n <= |s| && AllDigits(s[..n])
    ensures n < |s| ==> !IsDigit(s[n])
  {
    LeadFrom(s, 0)
  }

  function LeadFrom(s: string, k: nat): (n: nat)
    requires k <= |s| && AllDigits(s[..k])
    ensures k <= n <= |s| && AllDigits(s[..n])
    ensures n < |s| ==> !IsDigit(s[n])
    decreases |s| - k
  {
    if k < |s| && IsDigit(s[k]) then LeadFrom(s, k + 1) else k
  }

  /** A number as typed: sign, digits, and the digits behind the point if there is one. */
  datatype Typed = Typed(negative: bool, whole: string, frac: string) {
    predicate Valid() {
      AllDigits(whole) && AllDigits(frac)
    }

    /** Its magnitude, exactly. */
    function Magnitude(): (r: Ratio)
      requires Valid()
      ensures r.den > 0
    {
      Ratio(NatOf(whole) * Pow10(|frac|) + NatOf(frac), Pow10(|frac|))
    }
  }

  /** The grammar: an optional sign, at least one digit, optionally a point and at least one digit. */
  function ReadToken(token: string): (t: Option<Typed>)
    ensures t.Some? ==> t.value.Valid()
  {
    var signed := token != [] && (token[0] == '-' || token[0] == '+');
    var body := if signed then token[1..] else token;
    var n := Lead(body);
    if n == 0 then None
    else if n == |body| then Some(Typed(signed && token[0] == '-', body[..n], []))
    else if body[n] == '.' && n + 1 < |body| && AllDigits(body[n + 1..])
    then Some(Typed(signed && token[0] == '-', body[..n], body[n + 1..]))
    else None
  }

  /** A sign or none, digits, and a point with digits behind it or nothing. */
  function Layout(sign: string, t: Typed): string {
    sign + (t.whole + if t.frac == [] then [] else "." + t.frac)
  }

  lemma LeadIs(s: string, n: nat)
    requires n <= |s| && AllDigits(s[..n]) && (n < |s| ==> !IsDigit(s[n]))
    ensures Lead(s) == n
  {
    var k := Lead(s);
    assert forall j :: 0 <= j < n ==> s[..n][j] == s[j];
    assert forall j :: 0 <= j < k ==> s[..k][j] == s[j];
  }

  lemma BodyParts(t: Typed)
    requires t.Valid() && t.whole != []
    ensures var body, n := Layout("", t), |t.whole|;
            && body[..n] == t.whole && body != [] && body[0] == t.whole[0] && IsDigit(body[0]) && Lead(body) == n
            && (t.frac == [] ==> n == |body|)
            && (t.frac != [] ==> n + 1 < |body| && body[n] == '.' && body[n + 1..] == t.frac)
  {
    var body := Layout("", t);
    assert body[..|t.whole|] == t.whole;
    LeadIs(body, |t.whole|);
  }

  lemma SignFirst(sign: string, t: Typed)
    requires sign == "-" || sign == "+"
    ensures var token := Layout(sign, t); token != [] && token[0] == sign[0] && token[1..] == Layout("", t)
  {
  }

  /** What is laid out by the grammar is read, with its sign, its digits and its fraction. */
  lemma TokenReads(sign: string, t: Typed)
    requires sign == "" || sign == "-" || sign == "+"
    requires t.Valid() && t.whole != [] && t.negative == (sign == "-")
    ensures ReadToken(Layout(sign, t)) == Some(t)
  {
    BodyParts(t);
    if sign != "" {
      SignFirst(sign, t);
    }
    hide Lead, AllDigits, Layout;
  }

  lemma DigitsAndPoint(body: string, n: nat)
    requires n <= |body| && (n < |body| ==> body[n] == '.')
    ensures body == body[..n] + if n == |body| then [] else "." + body[n + 1..]
  {
  }

  lemma BodyLaidOut(token: string)
    requires ReadToken(token).Some?
    ensures var t, signed := ReadToken(token).value, token != [] && (token[0] == '-' || token[0] == '+');
            && t.whole != [] && t.negative == (signed && token[0] == '-')
            && Layout("", t) == if signed then token[1..] else token
  {
    var signed := token != [] && (token[0] == '-' || token[0] == '+');
    var body := if signed then token[1..] else token;
    DigitsAndPoint(body, Lead(body));
    hide Lead, AllDigits;
  }

  /** And nothing else is a number. */
  lemma TokenLaidOut(token: string)
    requires ReadToken(token).Some?
    ensures var t := ReadToken(token).value;
            t.whole != [] && (token == Layout("", t) || token == Layout("+", t) || token == Layout("-", t))
            && (t.negative <==> token == Layout("-", t))
  {
    hide ReadToken, AllDigits, Layout;
    BodyLaidOut(token);
    var t := ReadToken(token).value;
    FirstOf(t);
    SignFirst("+", t);
    SignFirst("-", t);
    if token != [] {
      assert token == [token[0]] + token[1..];
    }
    Prefixed(t);
  }

  lemma Prefixed(t: Typed)
    ensures Layout("+", t) == ['+'] + Layout("", t) && Layout("-", t) == ['-'] + Layout("", t)
  {
  }

  lemma FirstOf(t: Typed)
    requires t.Valid() && t.whole != []
    ensures IsDigit(Layout("", t)[0]) && Layout("+", t)[0] == '+' && Layout("-", t)[0] == '-'
  {
  }

  // ----- fixed point -----

  /** `frac_q32_place` */
  function Place(j: nat): nat
    requires j < MAX_FRAC
  {
    [429496730, 42949673, 4294967, 429497, 42950, 4295, 430, 43, 4][j]
  }

  function FracQ32(digits: string): nat
    requires AllDigits(digits) && |digits| <= MAX_FRAC
  {
    if digits == [] then 0
    else FracQ32(digits[..|digits| - 1]) + Digit(digits[|digits| - 1]) * Place(|digits| - 1)
  }

  function Q32(whole: nat, digits: string): nat
    requires AllDigits(digits) && |digits| <= MAX_FRAC
  {
    whole * 0x1_0000_0000 + FracQ32(digits)
  }

  function Msb(q: nat): (m: nat)
    requires q > 0
    ensures Pow2(m) <= q < 2 * Pow2(m)
  {
    if q == 1 then 0 else 1 + Msb(q / 2)
  }

  /** The double nearest to q / 2^32, as `mc_decimal_to_double` assembles it. */
  function ToDouble(negative: bool, q: u64): nat {
    if q == 0 then 0
    else
      var msb := Msb(q);
      var rounded := if msb <= 52 then q * Pow2(52 - msb) else RoundShift(q, msb - 52);
      var carry := msb > 52 && rounded >= 2 * HIDDEN_DOUBLE;
      var mantissa := if carry then rounded / 2 else rounded;
      var exponent := msb - 32 + (if carry then 1 else 0);
      Assemble(negative, exponent + 1023, mantissa)
  }

  function Assemble(negative: bool, biased: nat, mantissa: nat): nat {
    biased * HIDDEN_DOUBLE + mantissa % HIDDEN_DOUBLE + (if negative then 0x8000_0000_0000_0000 else 0)
  }

  // ----- error of the place table -----

  /** Place(j) * 10^9 - 10^(8-j) * 2^32: by how much one unit of digit j is off. */
  function PlaceError(j: nat): int
    requires j < MAX_FRAC
  {
    [400000000, 40000000, -296000000, 270400000, 327040000, 32704000, 503270400, 50327040, -294967296][j]
  }

  lemma PlaceErrorIs(j: nat)
    requires j < MAX_FRAC
    ensures Place(j) * 1_000_000_000 - Pow10(8 - j) * 0x1_0000_0000 == PlaceError(j)
  {
    assert Pow10(0) == 1 && Pow10(1) == 10 && Pow10(2) == 100 && Pow10(3) == 1000;
    Pow10Add(3, 1);
    Pow10Add(3, 2);
    Pow10Add(3, 3);
    Pow10Add(4, 3);
    Pow10Add(5, 3);
  }

  function ErrorLow(n: nat): int
    requires n <= MAX_FRAC
  {
    if n == 0 then 0 else ErrorLow(n - 1) + (if PlaceError(n - 1) < 0 then 9 * PlaceError(n - 1) else 0)
  }

  function ErrorHigh(n: nat): int
    requires n <= MAX_FRAC
  {
    if n == 0 then 0 else ErrorHigh(n - 1) + (if PlaceError(n - 1) > 0 then 9 * PlaceError(n - 1) else 0)
  }

  lemma {:induction false} TableError(digits: string)
    requires AllDigits(digits) && |digits| <= MAX_FRAC
    ensures ErrorLow(|digits|)
         <= FracQ32(digits) * 1_000_000_000 - NatOf(digits) * Pow10(9 - |digits|) * 0x1_0000_0000
         <= ErrorHigh(|digits|)
    decreases |digits|
  {
    if digits == [] {
    } else {
      var n := |digits| - 1;
      var front, d := digits[..n], Digit(digits[n]);
      TableError(front);
      PlaceErrorIs(n);
      TableGrows(digits);
      hide PlaceError, Place, FracQ32, NatOf, Pow10, ErrorLow, ErrorHigh;
      TableStep(FracQ32(front), NatOf(front), d, Place(n), Pow10(8 - n), PlaceError(n));
    }
  }

  lemma TableGrows(digits: string)
    requires AllDigits(digits) && 0 < |digits| <= MAX_FRAC
    ensures var n := |digits| - 1;
            var front, d, e := digits[..n], Digit(digits[n]), PlaceError(n);
            && FracQ32(digits) == FracQ32(front) + d * Place(n)
            && NatOf(digits) == 10 * NatOf(front) + d
            && Pow10(9 - n) == 10 * Pow10(8 - n)
            && ErrorLow(n + 1) == ErrorLow(n) + (if e < 0 then 9 * e else 0)
            && ErrorHigh(n + 1) == ErrorHigh(n) + (if e > 0 then 9 * e else 0)
  {
    hide Place, PlaceError;
  }

  lemma TableStep(fq: nat, v: nat, d: nat, place: nat, p: nat, e: int)
    requires place * 1_000_000_000 - p * 0x1_0000_0000 == e && d <= 9
    ensures (fq + d * place) * 1_000_000_000 - (10 * v + d) * p * 0x1_0000_0000
         == fq * 1_000_000_000 - v * (10 * p) * 0x1_0000_0000 + d * e
    ensures (if e < 0 then 9 * e else 0) <= d * e <= (if e > 0 then 9 * e else 0)
  {
    assert d * e == d * place * 1_000_000_000 - d * p * 0x1_0000_0000 by {
      Distribute(place * 1_000_000_000, p * 0x1_0000_0000, d);
      MulAssoc(d, place, 1_000_000_000);
      MulAssoc(d, p, 0x1_0000_0000);
    }
    assert (10 * v + d) * p == v * (10 * p) + d * p by {
      Distribute(10 * v, d, p);
      MulAssoc(v, 10, p);
    }
    if e < 0 {
      MulMono(e, 0, d);
      MulMono(d, 9, -e);
    } else {
      MulMono(0, e, d);
      MulMono(d, 9, e);
    }
  }

  lemma ErrorTotals()
    ensures ErrorLow(9) == -5_318_705_664 && ErrorHigh(9) == 14_613_672_960
  {
    assert ErrorLow(3) == -2_664_000_000;
    assert ErrorLow(6) == -2_664_000_000;
    assert ErrorHigh(3) == 3_960_000_000;
    assert ErrorHigh(6) == 9_631_296_000;
  }

  lemma {:induction false} ErrorWithin(n: nat)
    requires n <= MAX_FRAC
    ensures -5_318_705_664 <= ErrorLow(n) && ErrorHigh(n) <= 14_613_672_960
    decreases MAX_FRAC - n
  {
    if n == MAX_FRAC {
      ErrorTotals();
    } else {
      ErrorWithin(n + 1);
    }
  }

  // ----- digits beyond the ninth -----

  lemma {:induction false} NatOfBound(s: string)
    requires AllDigits(s)
    ensures NatOf(s) < Pow10(|s|)
    decreases |s|
  {
    if s != [] {
      NatOfBound(s[..|s| - 1]);
    }
  }

  lemma {:induction false} NatOfAppend(a: string, b: string)
    requires AllDigits(a) && AllDigits(b)
    ensures AllDigits(a + b) && NatOf(a + b) == NatOf(a) * Pow10(|b|) + NatOf(b)
    decreases |b|
  {
    if b == [] {
      assert a + b == a;
    } else {
      var n := |b| - 1;
      var front := b[..n];
      NatOfAppend(a, front);
      SnocFront(a, b);
      MulAssoc(10, NatOf(a), Pow10(n));
      MulAssoc(NatOf(a), 10, Pow10(n));
    }
  }

  lemma SnocFront(a: string, b: string)
    requires b != []
    ensures (a + b)[..|a + b| - 1] == a + b[..|b| - 1] && (a + b)[|a + b| - 1] == b[|b| - 1]
  {
  }

  /** The digits that count; the rest only decide whether a number at the limit is beyond it. */
  function Kept(frac: string): (r: string)
    ensures |r| <= MAX_FRAC && r <= frac
    ensures AllDigits(frac) ==> AllDigits(r)
  {
    frac[..Min(|frac|, MAX_FRAC)]
  }

  /** The first nine digits, padded to nine, against all of them. */
  lemma Truncation(frac: string)
    requires AllDigits(frac)
    ensures var d9 := Billionths(Kept(frac));
            d9 * Pow10(|frac|) <= NatOf(frac) * 1_000_000_000 < (d9 + 1) * Pow10(|frac|)
  {
    hide NatOf, Pow10, AllDigits;
    if |frac| <= MAX_FRAC {
      assert frac[..|frac|] == frac;
      PaddedExact(NatOf(frac), |frac|);
    } else {
      TruncationLong(frac);
    }
  }

  lemma Pow10Nine()
    ensures Pow10(9) == 1_000_000_000 && Pow10(0) == 1
  {
    assert Pow10(3) == 1000;
    Pow10Add(3, 3);
    Pow10Add(6, 3);
  }

  lemma PaddedExact(f: nat, k: nat)
    requires k <= 9
    ensures f * Pow10(9 - k) * Pow10(k) == f * 1_000_000_000
    ensures f * 1_000_000_000 < (f * Pow10(9 - k) + 1) * Pow10(k)
  {
    Pow10Nine();
    Pow10Add(9 - k, k);
    hide Pow10;
    MulAssoc(f, Pow10(9 - k), Pow10(k));
    Distribute(f * Pow10(9 - k), 1, Pow10(k));
  }

  lemma TruncationLong(frac: string)
    requires AllDigits(frac) && |frac| > 9
    ensures var d := NatOf(frac[..9]);
            d * Pow10(0) * Pow10(|frac|) <= NatOf(frac) * 1_000_000_000 < (d * Pow10(0) + 1) * Pow10(|frac|)
  {
    Pow10Nine();
    hide NatOf, Pow10;
    var rest := frac[9..];
    assert frac == frac[..9] + rest;
    NatOfAppend(frac[..9], rest);
    NatOfBound(rest);
    Pow10Add(9, |rest|);
    TruncationStep(NatOf(frac[..9]), NatOf(rest), Pow10(|rest|));
  }

  lemma TruncationStep(d: nat, r: nat, p: nat)
    requires r < p
    ensures d * (1_000_000_000 * p) <= (d * p + r) * 1_000_000_000 < (d + 1) * (1_000_000_000 * p)
  {
    MulAssoc(d, 1_000_000_000, p);
    assert d * (1_000_000_000 * p) == 1_000_000_000 * (d * p);
    Distribute(d, 1, 1_000_000_000 * p);
  }

  /** The kept digits as a whole number of billionths. */
  function Billionths(digits: string): nat
    requires AllDigits(digits) && |digits| <= MAX_FRAC
  {
    NatOf(digits) * Pow10(9 - |digits|)
  }

  lemma TableBound(digits: string)
    requires AllDigits(digits) && |digits| <= MAX_FRAC
    ensures -5_318_705_664 <= FracQ32(digits) * 1_000_000_000 - Billionths(digits) * 0x1_0000_0000 <= 14_613_672_960
  {
    hide FracQ32, NatOf, Pow10, ErrorLow, ErrorHigh, AllDigits;
    TableError(digits);
    ErrorWithin(|digits|);
  }

  lemma KeptDigits(frac: string)
    requires AllDigits(frac)
    ensures AllDigits(Kept(frac)) && |Kept(frac)| <= MAX_FRAC
  {
  }

  /** In units of 2^-32 the fixed-point value is less than fifteen off. */
  lemma FixedPointAccuracy(t: Typed)
    requires t.Valid()
    ensures var q, v := Q32(NatOf(t.whole), Kept(t.frac)), t.Magnitude();
            -15 * v.den <= q * v.den - v.num * 0x1_0000_0000 <= 15 * v.den
  {
    hide FracQ32, NatOf, Pow10, Kept, AllDigits, Billionths;
    KeptDigits(t.frac);
    var ds := Kept(t.frac);
    TableBound(ds);
    Truncation(t.frac);
    FixedPointBound(NatOf(t.whole), FracQ32(ds), Billionths(ds), NatOf(t.frac), Pow10(|t.frac|));
  }

  lemma FixedPointBound(w: nat, fq: nat, d9: nat, f: nat, k: nat)
    requires k > 0
    requires -5_318_705_664 <= fq * 1_000_000_000 - d9 * 0x1_0000_0000 <= 14_613_672_960
    requires d9 * k <= f * 1_000_000_000 < (d9 + 1) * k
    ensures -15 * k <= (w * 0x1_0000_0000 + fq) * k - (w * k + f) * 0x1_0000_0000 <= 15 * k
  {
    var table := fq * 1_000_000_000 - d9 * 0x1_0000_0000;
    var x := fq * k - f * 0x1_0000_0000;
    assert (w * 0x1_0000_0000 + fq) * k - (w * k + f) * 0x1_0000_0000 == x by {
      Distribute(w * 0x1_0000_0000, fq, k);
      MulAssoc(w, 0x1_0000_0000, k);
      MulAssoc(w, k, 0x1_0000_0000);
    }
    Distribute(d9, 1, k);
    assert table * k == fq * k * 1_000_000_000 - d9 * k * 0x1_0000_0000 by {
      Distribute(fq * 1_000_000_000, d9 * 0x1_0000_0000, k);
      MulAssoc(fq, 1_000_000_000, k);
      MulAssoc(d9, 0x1_0000_0000, k);
    }
    MulMono(-5_318_705_664, table, k);
    MulMono(table, 14_613_672_960, k);
  }

  // ----- assembling the double -----

  lemma MsbAtMost(q: nat, n: nat)
    requires 0 < q < Pow2(n + 1)
    ensures Msb(q) <= n
  {
    if Msb(q) > n {
      Pow2Mono(n + 1, Msb(q));
    }
  }

  lemma ShiftedUp(q: nat)
    requires q > 0 && Msb(q) <= 52
    ensures HIDDEN_DOUBLE <= q * Pow2(52 - Msb(q)) < 2 * HIDDEN_DOUBLE
  {
    hide Pow2, Msb;
    Pow2Values();
    Pow2Add(Msb(q), 52 - Msb(q));
    TimesWindow(q, Pow2(Msb(q)), Pow2(52 - Msb(q)));
  }

  lemma TimesWindow(q: nat, p: nat, t: nat)
    requires t > 0 && p <= q < 2 * p
    ensures p * t <= q * t < 2 * (p * t)
  {
    MulMono(p, q, t);
    MulStrict(q, 2 * p, t);
    MulAssoc(2, p, t);
  }

  lemma ShiftedDown(q: u64)
    requires q > 0 && Msb(q) > 52
    ensures HIDDEN_DOUBLE <= RoundShift(q, Msb(q) - 52) <= 2 * HIDDEN_DOUBLE
  {
    Pow2Values();
    MsbAtMost(q, 63);
    Pow2Add(52, Msb(q) - 52);
    hide Pow2, Msb;
    QuotientRange(q, Pow2(Msb(q) - 52), HIDDEN_DOUBLE);
  }

  lemma QuotientRange(q: nat, p: nat, h: nat)
    requires p > 0 && h * p <= q < 2 * (h * p)
    ensures h <= q / p < 2 * h
  {
    DivMod(q, p);
    if q / p < h {
      MulMono(q / p + 1, h, p);
      Distribute(q / p, 1, p);
    }
    if q / p >= 2 * h {
      MulMono(2 * h, q / p, p);
      MulAssoc(2, h, p);
    }
  }

  /** Sign, exponent and fraction fields come back out of the assembled bits. */
  lemma Fields(negative: bool, e: nat, f: nat)
    requires e < 0x7ff && f < HIDDEN_DOUBLE
    ensures var bits := e * HIDDEN_DOUBLE + f + (if negative then 0x8000_0000_0000_0000 else 0);
            && bits < 0x1_0000_0000_0000_0000
            && DoubleExponent(bits) == e && DoubleFraction(bits) == f && DoubleNegative(bits) == negative
  {
    var top := if negative then e + 0x800 else e;
    DivUnique(top * HIDDEN_DOUBLE + f, HIDDEN_DOUBLE, top, f);
  }

  /** The rounded mantissa is within half a unit, which is at most 8 on the scale of q. */
  lemma RoundedNear(q: u64, s: nat)
    requires s <= 4
    ensures -8 <= RoundShift(q, s) * Pow2(s) - q <= 8
  {
    Pow2Values();
    Pow2Mono(s, 4);
    RoundShiftIsRounding(q, s);
    hide Pow2, RoundShift, RoundHalfEven;
    RoundsToNearest(q, Pow2(s));
  }

  /** num / den is within 8 * 2^-32 of q * 2^-32. */
  ghost predicate Near(r: Ratio, q: nat) {
    -8 * r.den <= r.num * 0x1_0000_0000 - q * r.den <= 8 * r.den
  }

  lemma NearByScale(num: nat, den: nat, unit: nat, q: nat)
    requires den * unit == 0x1_0000_0000 && -8 <= num * unit - q <= 8
    ensures Near(Ratio(num, den), q)
  {
    assert num * 0x1_0000_0000 - q * den == den * (num * unit - q) by {
      MulAssoc(num, unit, den);
      Distribute(num * unit, q, den);
    }
    MulMono(-8, num * unit - q, den);
    MulMono(num * unit - q, 8, den);
  }

  lemma NearExact(q: nat, up: nat)
    ensures Near(Ratio(q * up, up * 0x1_0000_0000), q)
  {
    MulAssoc(q, up, 0x1_0000_0000);
  }

  lemma ExactDouble(negative: bool, q: u64)
    requires q > 0 && Msb(q) <= 52
    ensures IsNearDouble(ToDouble(negative, q), negative, q)
  {
    hide Assemble, Pow2, Msb, RoundShift, DoubleMagnitude, DoubleExponent, DoubleNegative, Near;
    var msb := Msb(q);
    var up := Pow2(52 - msb);
    ShiftedUp(q);
    Pow2Add(52 - msb, 32);
    Pow2Values();
    NearExact(q, up);
    Assembled(negative, msb + 991, q * up);
  }

  /** A finite double of the given sign close to q * 2^-32. */
  ghost predicate IsNearDouble(bits: nat, negative: bool, q: nat) {
    && bits < 0x1_0000_0000_0000_0000
    && DoubleExponent(bits) != 0x7ff
    && DoubleNegative(bits) == negative
    && Near(DoubleMagnitude(bits), q)
  }

  lemma Assembled(negative: bool, biased: nat, mantissa: nat)
    requires 1 <= biased < 1075 && HIDDEN_DOUBLE <= mantissa < 2 * HIDDEN_DOUBLE
    ensures var bits := Assemble(negative, biased, mantissa);
            && bits < 0x1_0000_0000_0000_0000
            && DoubleExponent(bits) == biased && DoubleNegative(bits) == negative
            && DoubleMagnitude(bits) == Ratio(mantissa, Pow2(1075 - biased))
  {
    DivUnique(mantissa, HIDDEN_DOUBLE, 1, mantissa - HIDDEN_DOUBLE);
    Fields(negative, biased, mantissa - HIDDEN_DOUBLE);
    hide Pow2, DoubleExponent, DoubleFraction, DoubleNegative;
  }

  lemma Pow2Next(s: nat)
    ensures Pow2(s + 1) == 2 * Pow2(s)
  {
  }

  lemma RoundedDouble(negative: bool, q: u64)
    requires 0 < q && 52 < Msb(q) <= 56
    ensures IsNearDouble(ToDouble(negative, q), negative, q)
    ensures RoundShift(q, Msb(q) - 52) < 2 * HIDDEN_DOUBLE
        ==> DoubleMagnitude(ToDouble(negative, q)) == Ratio(RoundShift(q, Msb(q) - 52), Pow2(84 - Msb(q)))
  {
    hide Assemble, Pow2, Msb, RoundShift, DoubleMagnitude, DoubleExponent, DoubleNegative, Near;
    var msb := Msb(q);
    var s := msb - 52;
    var m := RoundShift(q, s);
    ShiftedDown(q);
    RoundedNear(q, s);
    Pow2Add(32 - s, s);
    Pow2Add(31 - s, s + 1);
    Pow2Next(s);
    Pow2Values();
    if m < 2 * HIDDEN_DOUBLE {
      NearByScale(m, Pow2(32 - s), Pow2(s), q);
      Assembled(negative, msb + 991, m);
    } else {
      MulAssoc(HIDDEN_DOUBLE, 2, Pow2(s));
      NearByScale(HIDDEN_DOUBLE, Pow2(31 - s), Pow2(s + 1), q);
      Assembled(negative, msb + 992, HIDDEN_DOUBLE);
    }
  }

  lemma {:induction false} FracBound(digits: string)
    requires AllDigits(digits) && |digits| <= MAX_FRAC
    ensures FracQ32(digits) <= FracMax(|digits|)
    decreases |digits|
  {
    if digits != [] {
      FracBound(digits[..|digits| - 1]);
      MulMono(Digit(digits[|digits| - 1]), 9, Place(|digits| - 1));
    }
  }

  function FracMax(n: nat): nat
    requires n <= MAX_FRAC
  {
    if n == 0 then 0 else FracMax(n - 1) + 9 * Place(n - 1)
  }

  /** Nine nines carry five units past the next integer, and nothing carries further. */
  lemma FracMaxIs(n: nat)
    requires n <= MAX_FRAC
    ensures FracMax(n) <= 0x1_0000_0005 && FracMax(9) == 0x1_0000_0005
  {
    assert FracMax(3) == 4290672330;
    assert FracMax(6) == 4294963008;
    FracMaxMono(n);
  }

  lemma {:induction false} FracMaxMono(n: nat)
    requires n <= MAX_FRAC
    ensures FracMax(n) <= FracMax(9)
    decreases MAX_FRAC - n
  {
    if n < MAX_FRAC {
      FracMaxMono(n + 1);
    }
  }

  predicate InRange(t: Typed)
    requires t.Valid()
  {
    NatOf(t.whole) < LIMIT || (NatOf(t.whole) == LIMIT && NatOf(t.frac) == 0)
  }

  /** What the parser hands to `mc_decimal_to_double`. */
  function Fixed32(t: Typed): nat
    requires t.Valid()
  {
    Q32(NatOf(t.whole), Kept(t.frac))
  }

  /** At nine places the fixed-point value passes the limit by at most nothing that rounding keeps. */
  lemma FixedAtMost(t: Typed)
    requires t.Valid() && InRange(t)
    ensures Fixed32(t) <= LIMIT * 0x1_0000_0000 + 5
  {
    var ds := Kept(t.frac);
    FracBound(ds);
    FracMaxIs(|ds|);
    if NatOf(t.whole) == LIMIT {
      ZeroFraction(t.frac, ds);
    }
  }

  lemma ZeroFraction(frac: string, ds: string)
    requires AllDigits(frac) && NatOf(frac) == 0 && ds <= frac && |ds| <= MAX_FRAC
    ensures NatOf(ds) == 0 && FracQ32(ds) == 0
  {
    var rest := frac[|ds|..];
    assert frac == ds + rest;
    NatOfAppend(ds, rest);
    if NatOf(ds) > 0 {
      MulMono(1, NatOf(ds), Pow10(|rest|));
    }
    ZeroDigits(ds);
  }

  lemma {:induction false} ZeroDigits(ds: string)
    requires AllDigits(ds) && |ds| <= MAX_FRAC
    ensures NatOf(ds) == 0 <==> FracQ32(ds) == 0
    decreases |ds|
  {
    if ds != [] {
      var n := |ds| - 1;
      ZeroDigits(ds[..n]);
      PlacePositive(n);
      hide Place;
      MulMono(1, Place(n), Digit(ds[n]));
    }
  }

  lemma PlacePositive(j: nat)
    requires j < MAX_FRAC
    ensures Place(j) >= 1
  {
  }

  /** The double of an in-range token does not exceed the limit: the largest ones round down to it. */
  lemma WithinLimit(negative: bool, q: u64)
    requires 0 < q <= LIMIT * 0x1_0000_0000 + 5
    ensures IsNearDouble(ToDouble(negative, q), negative, q)
    ensures var r := DoubleMagnitude(ToDouble(negative, q)); r.num <= LIMIT * r.den
  {
    Pow2Values();
    Pow2Add(32, 25);
    Pow2Add(52, 4);
    Pow2Add(28, 4);
    assert Pow2(25) == 0x200_0000 by {
      Pow2Add(16, 9);
      assert Pow2(9) == 2 * Pow2(8);
    }
    MsbAtMost(q, 56);
    hide Pow2, Msb, ToDouble, RoundShift, DoubleMagnitude, IsNearDouble;
    if Msb(q) <= 52 {
      ExactDouble(negative, q);
    } else {
      RoundedDouble(negative, q);
    }
    if Msb(q) == 56 {
      TopRounds(q);
    } else {
      Pow2Mono(Msb(q) + 1, 56);
      BelowLimit(ToDouble(negative, q), negative, q);
    }
  }

  lemma TopRounds(q: u64)
    requires q <= LIMIT * 0x1_0000_0000 + 5
    ensures RoundShift(q, 4) <= LIMIT * 0x1000_0000
  {
    Pow2Values();
    assert Pow2(3) == 8;
  }

  lemma BelowLimit(bits: nat, negative: bool, q: nat)
    requires IsNearDouble(bits, negative, q) && q + 8 <= LIMIT * 0x1_0000_0000
    ensures var r := DoubleMagnitude(bits); r.num <= LIMIT * r.den
  {
    hide DoubleMagnitude;
    var r := DoubleMagnitude(bits);
    MulMono(q + 8, LIMIT * 0x1_0000_0000, r.den);
    Distribute(q, 8, r.den);
  }

  /** |a - b| <= 2^-27 */
  ghost predicate Close(a: Ratio, b: Ratio) {
    var difference := a.num * b.den - b.num * a.den;
    && difference * 0x800_0000 <= a.den * b.den
    && -difference * 0x800_0000 <= a.den * b.den
  }

  /** 8 units for the double and 15 for the fixed-point value stay below 32, that is below 2^-27. */
  lemma ErrorsAdd(r: Ratio, v: Ratio, q: nat)
    requires r.den > 0 && v.den > 0
    requires Near(r, q)
    requires -15 * v.den <= q * v.den - v.num * 0x1_0000_0000 <= 15 * v.den
    ensures Close(r, v)
  {
    var a := r.num * 0x1_0000_0000 - q * r.den;
    var b := q * v.den - v.num * 0x1_0000_0000;
    ScaledBound(a, 8, r.den, v.den);
    ScaledBound(b, 15, v.den, r.den);
    CrossTerms(r.num, r.den, v.num, v.den, q);
    SumBound(r.num * v.den - v.num * r.den, a * v.den, b * r.den, r.den * v.den, v.den * r.den);
  }

  lemma CrossTerms(rn: nat, rd: nat, vn: nat, vd: nat, q: nat)
    ensures (rn * vd - vn * rd) * 0x1_0000_0000
         == (rn * 0x1_0000_0000 - q * rd) * vd + (q * vd - vn * 0x1_0000_0000) * rd
  {
    Distribute(rn * 0x1_0000_0000, q * rd, vd);
    Distribute(q * vd, vn * 0x1_0000_0000, rd);
    MulAssoc(rn, 0x1_0000_0000, vd);
    MulAssoc(vn, 0x1_0000_0000, rd);
    MulAssoc(q, rd, vd);
    MulAssoc(q, vd, rd);
  }

  lemma SumBound(x: int, a: int, b: int, u: int, v: int)
    requires u == v && x * 0x1_0000_0000 == a + b
    requires -8 * u <= a <= 8 * u && -15 * v <= b <= 15 * v
    ensures x * 0x800_0000 <= u && -x * 0x800_0000 <= u
  {
  }

  lemma ScaledBound(a: int, k: int, d: nat, e: nat)
    requires -k * d <= a <= k * d
    ensures -k * (d * e) <= a * e <= k * (d * e)
  {
    MulMono(-k * d, a, e);
    MulMono(a, k * d, e);
    MulAssoc(k, d, e);
    MulAssoc(-k, d, e);
  }

  /** What `/tp` stores for a typed coordinate. */
  function Stored(t: Typed): nat
    requires t.Valid()
  {
    var q := Fixed32(t);
    if q > U64_MAX then 0 else ToDouble(t.negative, q)
  }

  /**
    Every token accepted as in range is stored as a finite double within 2^-27 of the typed number
    and of magnitude at most 30000000.
  */
  lemma StoredAccurately(t: Typed)
    requires t.Valid() && InRange(t)
    ensures var bits := Stored(t);
            && bits < 0x1_0000_0000_0000_0000
            && DoubleExponent(bits) != 0x7ff
            && DoubleNegative(bits) == (t.negative && bits != 0)
            && Close(DoubleMagnitude(bits), t.Magnitude())
            && DoubleMagnitude(bits).num <= LIMIT * DoubleMagnitude(bits).den
  {
    FixedAtMost(t);
    FixedPointAccuracy(t);
    var q := Fixed32(t);
    if q == 0 {
      ZeroStored();
    } else {
      WithinLimit(t.negative, q);
    }
    hide Pow2, Msb, ToDouble, NatOf, DoubleMagnitude, Close, Near, Q32;
    ErrorsAdd(DoubleMagnitude(Stored(t)), t.Magnitude(), q);
  }

  lemma ZeroStored()
    ensures DoubleExponent(0) == 0 && !DoubleNegative(0) && DoubleMagnitude(0).num == 0
    ensures Near(DoubleMagnitude(0), 0)
  {
    hide Pow2;
  }

  /** In range means that the typed magnitude is at most 30000000. */
  lemma InRangeMeans(t: Typed)
    requires t.Valid()
    ensures InRange(t) <==> t.Magnitude().num <= LIMIT * t.Magnitude().den
  {
    var w, f, p := NatOf(t.whole), NatOf(t.frac), Pow10(|t.frac|);
    NatOfBound(t.frac);
    hide NatOf, Pow10;
    if w < LIMIT {
      MulMono(w + 1, LIMIT, p);
      Distribute(w, 1, p);
    } else if w > LIMIT {
      MulMono(LIMIT + 1, w, p);
      Distribute(LIMIT, 1, p);
    }
  }

  /** So `/pos` can print whatever coordinate `/tp` has accepted. */
  lemma TeleportedIsPrintable(t: Typed)
    requires t.Valid() && InRange(t)
    ensures Stored(t) <= U64_MAX && DoubleToFixed2(Stored(t)).Fixed?
  {
    StoredAccurately(t);
    hide Stored, DoubleMagnitude, DoubleToFixed2, Shown, Close;
    var bits := Stored(t);
    DoubleShownExactly(bits);
    InRangePrintable(DoubleNegative(bits), DoubleMagnitude(bits));
  }
}
