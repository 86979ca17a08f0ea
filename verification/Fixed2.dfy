/**
  `/pos` formatting: a floating-point bit pattern to hundredths, with integer operations only.
  Proved to be the exact binary value times one hundred, rounded to nearest with ties to even
  (section 4.3.1 of IEEE 754-2008), for every finite input.
*/
module Fixed2 {
  import opened Arith
  import opened Bytes

  const MAX_SCALED := 3_000_000_000
  const HIDDEN_DOUBLE := 0x10_0000_0000_0000  // 2^52
  const HIDDEN_FLOAT := 0x80_0000             // 2^23

  // ----- the reference: rounding a quotient -----

  function RoundHalfEven(num: nat, den: nat): nat
    requires den > 0
  {
    var q, r := num / den, num % den;
    if 2 * r > den || (2 * r == den && q % 2 == 1) then q + 1 else q
  }

  /** n is a nearest integer to num / den, and the even one if two are equally near. */
  predicate NearestEven(n: nat, num: nat, den: nat) {
    var twice := 2 * (n * den - num);
    twice <= den && 0 <= den + twice && (twice == den || twice + den == 0 ==> n % 2 == 0)
  }

  lemma RoundsToNearest(num: nat, den: nat)
    requires den > 0
    ensures NearestEven(RoundHalfEven(num, den), num, den)
  {
    var q, r := num / den, num % den;
    DivMod(num, den);
    Distribute(q, 1, den);
  }

  lemma NearestIsUnique(a: nat, b: nat, num: nat, den: nat)
    requires den > 0 && NearestEven(a, num, den) && NearestEven(b, num, den)
    ensures a == b
  {
    if a > b {
      NearestNotAbove(a, b, num, den);
    } else if b > a {
      NearestNotAbove(b, a, num, den);
    }
  }

  lemma NearestNotAbove(a: nat, b: nat, num: nat, den: nat)
    requires den > 0 && a > b && NearestEven(a, num, den)
    ensures !NearestEven(b, num, den)
  {
    var x, y := a * den, b * den;
    assert x - y == (a - b) * den by {
      Distribute(a, b, den);
    }
    if a == b + 1 {
      assert x - y == den;
    } else {
      MulMono(2, a - b, den);
      assert x - y >= 2 * den;
    }
  }

  /** No integer above a bound is nearest unless the quotient exceeds it. */
  lemma RoundAtMost(num: nat, den: nat, bound: nat)
    requires den > 0 && num <= bound * den
    ensures RoundHalfEven(num, den) <= bound
  {
    var q, r := num / den, num % den;
    DivMod(num, den);
    if q > bound {
      MulMono(bound + 1, q, den);
      Distribute(bound, 1, den);
    } else if q == bound {
    }
  }

  // ----- what the code computes -----

  /** `mc_round_shift_u64` */
  function RoundShift(value: u64, shift: nat): nat {
    if shift == 0 then value
    else if shift >= 64 then 0
    else
      QuotientNatural(value, Pow2(shift));
      var quotient, remainder, half := value / Pow2(shift), value % Pow2(shift), Pow2(shift - 1);
      if remainder > half || (remainder == half && quotient % 2 == 1) then quotient + 1 else quotient
  }

  /** Exactly where the shift rounds correctly: everywhere but on a 64-bit shift of more than half. */
  lemma RoundShiftIsRounding(value: u64, shift: nat)
    ensures RoundShift(value, shift) == RoundHalfEven(value, Pow2(shift)) <==> !(shift == 64 && value > Pow2(63))
  {
    if shift == 0 {
      assert Pow2(0) == 1;
      assert value / 1 == value && value % 1 == 0;
    } else if shift >= 64 {
      Pow2Values();
      if shift > 64 {
        Pow2Mono(65, shift);
        assert Pow2(65) == 2 * Pow2(64);
      }
      assert value / Pow2(shift) == 0 && value % Pow2(shift) == value by {
        DivUnique(value, Pow2(shift), 0, value);
      }
    } else {
      Pow2Values();
    }
  }

  datatype Fixed = Refused | Fixed(negative: bool, scaled: nat)

  /** `mc_binary_to_fixed2` of mantissa * 2^(exponent - mantissaBits). */
  function BinaryToFixed2(negative: bool, exponent: int, mantissa: u64, mantissaBits: nat): Fixed {
    var shift := exponent - mantissaBits;
    if mantissa > U64_MAX / 100 then Refused
    else
      var base := mantissa * 64 + mantissa * 32 + mantissa * 4;
      if shift >= 0 then
        if shift >= 64 || base > MAX_SCALED / Pow2(shift) then Refused
        else
          var scaled := base * Pow2(shift);
          if scaled > MAX_SCALED then Refused else Fixed(negative && scaled != 0, scaled)
      else
        var scaled := RoundShift(base, -shift);
        if scaled > MAX_SCALED then Refused else Fixed(negative && scaled != 0, scaled)
  }

  function DoubleExponent(bits: u64): nat {
    bits / HIDDEN_DOUBLE % 0x800
  }

  function DoubleFraction(bits: u64): nat {
    bits % HIDDEN_DOUBLE
  }

  predicate DoubleNegative(bits: u64) {
    bits >= 0x8000_0000_0000_0000
  }

  /** `mc_double_to_fixed2` */
  function DoubleToFixed2(bits: u64): Fixed {
    var e := DoubleExponent(bits);
    if e == 0x7ff then Refused
    else if e == 0 then Fixed(false, 0)
    else BinaryToFixed2(DoubleNegative(bits), e - 1023, HIDDEN_DOUBLE + DoubleFraction(bits), 52)
  }

  function FloatExponent(bits: u32): nat {
    bits / HIDDEN_FLOAT % 0x100
  }

  function FloatFraction(bits: u32): nat {
    bits % HIDDEN_FLOAT
  }

  predicate FloatNegative(bits: u32) {
    bits >= 0x8000_0000
  }

  /** `mc_float_to_fixed2` */
  function FloatToFixed2(bits: u32): Fixed {
    var e := FloatExponent(bits);
    if e == 0xff then Refused
    else if e == 0 then Fixed(false, 0)
    else BinaryToFixed2(FloatNegative(bits), e - 127, HIDDEN_FLOAT + FloatFraction(bits), 23)
  }

  // ----- exact values -----

  /** A nonnegative rational. */
  datatype Ratio = Ratio(num: nat, den: nat)

  /** mantissa * 2^power, exactly. */
  function Scaled(mantissa: nat, power: int): (r: Ratio)
    ensures r.den > 0
  {
    if power >= 0 then Ratio(mantissa * Pow2(power), 1) else Ratio(mantissa, Pow2(-power))
  }

  /** The magnitude of a finite double (section 3.4 of IEEE 754-2008). */
  function DoubleMagnitude(bits: u64): (r: Ratio)
    ensures r.den > 0
  {
    var e := DoubleExponent(bits);
    if e == 0 then Scaled(DoubleFraction(bits), -1074)
    else Scaled(HIDDEN_DOUBLE + DoubleFraction(bits), e - 1075)
  }

  function FloatMagnitude(bits: u32): (r: Ratio)
    ensures r.den > 0
  {
    var e := FloatExponent(bits);
    if e == 0 then Scaled(FloatFraction(bits), -149)
    else Scaled(HIDDEN_FLOAT + FloatFraction(bits), e - 150)
  }

  /** One hundred times a value, rounded; what the player should see. */
  function Hundredths(v: Ratio): nat
    requires v.den > 0
  {
    RoundHalfEven(100 * v.num, v.den)
  }

  function Shown(negative: bool, v: Ratio): Fixed
    requires v.den > 0
  {
    var n := Hundredths(v);
    if n > MAX_SCALED then Refused else Fixed(negative && n != 0, n)
  }

  // ----- they agree -----

  lemma ShiftCompare(base: nat, limit: nat, p: nat)
    requires p >= 1
    ensures base > limit / p <==> base * p > limit
  {
    DivMod(limit, p);
    if base > limit / p {
      MulMono(limit / p + 1, base, p);
      Distribute(limit / p, 1, p);
    } else {
      MulMono(base, limit / p, p);
    }
  }

  lemma RoundWhole(n: nat)
    ensures RoundHalfEven(n, 1) == n
  {
    assert n / 1 == n && n % 1 == 0;
  }

  lemma LargeShift(mantissa: nat, shift: nat)
    requires mantissa >= 1 && shift >= 64
    ensures 100 * (mantissa * Pow2(shift)) > MAX_SCALED
  {
    Pow2Values();
    Pow2Mono(64, shift);
    MulMono(1, mantissa, Pow2(shift));
  }

  /** Rounding a quotient exceeds an even bound exactly past the midpoint above it. */
  lemma RoundAbove(num: nat, den: nat, bound: nat)
    requires den > 0 && bound % 2 == 0
    ensures RoundHalfEven(num, den) > bound <==> 2 * num > (2 * bound + 1) * den
  {
    var q, r := num / den, num % den;
    DivMod(num, den);
    Distribute(2 * bound, 1, den);
    MulAssoc(2, bound, den);
    if q > bound {
      MulMono(bound + 1, q, den);
      Distribute(bound, 1, den);
    } else if q < bound {
      MulMono(q + 1, bound, den);
      Distribute(q, 1, den);
    }
  }

  /**
    The three ways in which a mantissa and shift no format produces are shown wrongly: zero on a shift
    of 64 or more is refused, a mantissa whose hundredths do not fit 64 bits is refused even if a
    right shift brings it into range, and a right shift by 64 drops what rounds up to one.
  */
  predicate OutOfReach(mantissa: u64, shift: int) {
    || (mantissa == 0 && shift >= 64)
    || (mantissa > U64_MAX / 100 && shift < 0 && 200 * mantissa <= (2 * MAX_SCALED + 1) * Pow2(-shift))
    || (mantissa <= U64_MAX / 100 && shift == -64 && 100 * mantissa > 0x8000_0000_0000_0000)
  }

  lemma BinaryIsExact(negative: bool, exponent: int, mantissa: u64, mantissaBits: nat)
    ensures BinaryToFixed2(negative, exponent, mantissa, mantissaBits)
         == Shown(negative, Scaled(mantissa, exponent - mantissaBits))
       <==> !OutOfReach(mantissa, exponent - mantissaBits)
  {
    hide RoundHalfEven;
    if exponent >= mantissaBits {
      LeftShiftExact(negative, exponent, mantissa, mantissaBits);
    } else {
      RightShiftExact(negative, exponent, mantissa, mantissaBits);
    }
  }

  lemma HundredTimes(mantissa: nat, p: nat)
    requires p >= 1
    ensures 100 * (mantissa * p) == (100 * mantissa) * p >= 100 * mantissa
    ensures mantissa == 0 ==> mantissa * p == 0
  {
    MulAssoc(100, mantissa, p);
    MulMono(1, p, 100 * mantissa);
  }

  lemma LeftShiftExact(negative: bool, exponent: int, mantissa: u64, mantissaBits: nat)
    requires exponent >= mantissaBits
    ensures BinaryToFixed2(negative, exponent, mantissa, mantissaBits)
         == Shown(negative, Scaled(mantissa, exponent - mantissaBits))
       <==> !(mantissa == 0 && exponent - mantissaBits >= 64)
  {
    hide RoundHalfEven, Pow2;
    var shift := exponent - mantissaBits;
    var p := Pow2(shift);
    RoundWhole(100 * (mantissa * p));
    HundredTimes(mantissa, p);
    if mantissa > 0 && shift >= 64 {
      LargeShift(mantissa, shift);
    }
    ShiftCompare(100 * mantissa, MAX_SCALED, p);
  }

  lemma RightShiftExact(negative: bool, exponent: int, mantissa: u64, mantissaBits: nat)
    requires exponent < mantissaBits
    ensures BinaryToFixed2(negative, exponent, mantissa, mantissaBits)
         == Shown(negative, Scaled(mantissa, exponent - mantissaBits))
       <==> !OutOfReach(mantissa, exponent - mantissaBits)
  {
    var n, base := mantissaBits - exponent, 100 * mantissa;
    if mantissa > U64_MAX / 100 {
      RoundAbove(base, Pow2(n), MAX_SCALED);
    } else {
      Pow2Values();
      assert Pow2(64) == 2 * Pow2(63);
      RoundShiftIsRounding(base, n);
      if n == 64 && base > Pow2(63) {
        DivUnique(base, Pow2(64), 0, base);
      }
    }
  }

  /** One input for each of the three ways. */
  lemma OutOfReachInputs()
    ensures BinaryToFixed2(false, 64, 0, 0) != Shown(false, Scaled(0, 64))
    ensures BinaryToFixed2(false, 0, U64_MAX, 64) != Shown(false, Scaled(U64_MAX, -64))
    ensures BinaryToFixed2(false, 0, 100_000_000_000_000_000, 64)
         != Shown(false, Scaled(100_000_000_000_000_000, -64))
  {
    Pow2Values();
    BinaryIsExact(false, 64, 0, 0);
    BinaryIsExact(false, 0, U64_MAX, 64);
    BinaryIsExact(false, 0, 100_000_000_000_000_000, 64);
    hide BinaryToFixed2, Shown, Scaled, Pow2;
  }

  /** No mantissa of 53 bits or fewer, which is all the formats have, is out of reach. */
  lemma FormatsWithinReach(mantissa: u64, shift: int)
    requires 1 <= mantissa < 0x20_0000_0000_0000
    ensures !OutOfReach(mantissa, shift)
  {
  }

  lemma TinyShowsZero(num: nat, power: nat)
    requires num < 0x20_0000_0000_0000 && power >= 64
    ensures RoundHalfEven(100 * num, Pow2(power)) == 0
  {
    Pow2Values();
    Pow2Mono(64, power);
    DivUnique(100 * num, Pow2(power), 0, 100 * num);
  }

  /**
    `/pos` on doubles: for every finite bit pattern the printed hundredths are the exact value times
    one hundred rounded to nearest-even, and the position is refused exactly when that exceeds
    3000000000. Infinities and NaNs are refused.
  */
  lemma DoubleShownExactly(bits: u64)
    ensures DoubleExponent(bits) == 0x7ff ==> DoubleToFixed2(bits) == Refused
    ensures DoubleExponent(bits) != 0x7ff ==> DoubleToFixed2(bits) == Shown(DoubleNegative(bits), DoubleMagnitude(bits))
  {
    hide BinaryToFixed2, RoundHalfEven, Pow2;
    var e: int, f := DoubleExponent(bits), DoubleFraction(bits);
    if e == 0 {
      TinyShowsZero(f, 1074);
    } else if e != 0x7ff {
      BinaryIsExact(DoubleNegative(bits), e - 1023, HIDDEN_DOUBLE + f, 52);
      FormatsWithinReach(HIDDEN_DOUBLE + f, e - 1023 - 52);
    }
  }

  /** `/pos` on floats, for yaw and pitch. */
  lemma FloatShownExactly(bits: u32)
    ensures FloatExponent(bits) == 0xff ==> FloatToFixed2(bits) == Refused
    ensures FloatExponent(bits) != 0xff ==> FloatToFixed2(bits) == Shown(FloatNegative(bits), FloatMagnitude(bits))
  {
    hide BinaryToFixed2, RoundHalfEven, Pow2;
    var e: int, f := FloatExponent(bits), FloatFraction(bits);
    if e == 0 {
      TinyShowsZero(f, 149);
    } else if e != 0xff {
      BinaryIsExact(FloatNegative(bits), e - 127, HIDDEN_FLOAT + f, 23);
      FormatsWithinReach(HIDDEN_FLOAT + f, e - 127 - 23);
    }
  }

  /** A value of magnitude at most 30000000 is always printable. */
  lemma InRangePrintable(negative: bool, v: Ratio)
    requires v.den > 0 && v.num <= 30_000_000 * v.den
    ensures Shown(negative, v).Fixed?
  {
    hide RoundHalfEven;
    MulAssoc(100, 30_000_000, v.den);
    RoundAtMost(100 * v.num, v.den, MAX_SCALED);
  }
}
