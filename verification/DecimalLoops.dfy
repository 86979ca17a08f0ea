/** `/tp` and `/time` argument parsing as the code does it, digit by digit. */
module DecimalLoops {
  import opened Bytes
  import opened Arith
  import opened Fixed2
  import opened Decimal

  datatype Parsed = Invalid | OutOfRange | Coordinate(bits: nat)

  /** What a token means. */
  function Meaning(token: string): Parsed {
    match ReadToken(token)
    case None => Invalid
    case Some(t) => if InRange(t) then Coordinate(Stored(t)) else OutOfRange
  }

  // ----- decimal to double -----

  /** The digits of a fraction, least significant first. */
  method ExtractDigits(frac: u32, scale: u32, store: array<nat>, ghost digits: string) returns (count: nat)
    requires AllDigits(digits) && |digits| <= MAX_FRAC == store.Length
    requires frac == NatOf(digits) && scale == Pow10(|digits|)
    modifies store
    ensures count == |digits|
    ensures forall k :: 0 <= k < count ==> store[k] == Digit(digits[count - 1 - k])
  {
    hide NatOf, Pow10, Digit;
    var value: nat, left: nat := frac, scale;
    ghost var n := |digits|;
    assert digits[..n] == digits;
    count := 0;
    while left > 1 && count < MAX_FRAC
      invariant count <= n
      invariant value == NatOf(digits[..n - count]) && left == Pow10(n - count)
      invariant forall k :: 0 <= k < count ==> store[k] == Digit(digits[n - 1 - k])
      decreases MAX_FRAC - count
    {
      ScaleLeft(n - count);
      LastDigit(digits, n - count);
      store[count] := value % 10;
      value, left := value / 10, left / 10;
      count := count + 1;
    }
    ScaleLeft(n - count);
  }

  lemma ScaleLeft(places: nat)
    ensures Pow10(places) > 1 <==> places > 0
  {
  }

  lemma LastDigit(digits: string, m: nat)
    requires AllDigits(digits) && 0 < m <= |digits|
    ensures NatOf(digits[..m]) == 10 * NatOf(digits[..m - 1]) + Digit(digits[m - 1])
    ensures Pow10(m) == 10 * Pow10(m - 1)
  {
    TakeSnoc(digits, m - 1);
  }

  /** `frac_q32`: the places are added up from the most significant digit. */
  method SumPlaces(store: array<nat>, count: nat, ghost digits: string) returns (sum: nat)
    requires AllDigits(digits) && |digits| == count <= MAX_FRAC == store.Length
    requires forall k :: 0 <= k < count ==> store[k] == Digit(digits[count - 1 - k])
    ensures sum == FracQ32(digits)
  {
    var left := count;
    sum := 0;
    while left > 0
      invariant 0 <= left <= count
      invariant sum == FracQ32(digits[..count - left])
    {
      NextPlace(digits, count - left + 1);
      hide FracQ32, Place, Digit;
      sum := sum + store[left - 1] * Place(count - left);
      left := left - 1;
    }
    assert digits[..count - left] == digits;
  }

  lemma NextPlace(digits: string, m: nat)
    requires AllDigits(digits) && 0 < m <= |digits| <= MAX_FRAC
    ensures FracQ32(digits[..m]) == FracQ32(digits[..m - 1]) + Digit(digits[m - 1]) * Place(m - 1)
  {
    assert digits[..m][..m - 1] == digits[..m - 1];
  }

  method TopBit(q: u64) returns (msb: nat)
    requires q > 0
    ensures msb == Msb(q)
  {
    msb := 0;
    while q / Pow2(msb) > 1
      invariant Pow2(msb) <= q
      decreases q - Pow2(msb)
    {
      DivMod(q, Pow2(msb));
      MulMono(2, q / Pow2(msb), Pow2(msb));
      msb := msb + 1;
    }
    DivMod(q, Pow2(msb));
    MulMono(q / Pow2(msb), 1, Pow2(msb));
    MsbUnique(q, msb);
  }

  lemma MsbUnique(q: nat, m: nat)
    requires Pow2(m) <= q < 2 * Pow2(m)
    ensures Msb(q) == m
  {
    Pow2Gap(Msb(q), m);
    Pow2Gap(m, Msb(q));
  }

  lemma Pow2Gap(a: nat, b: nat)
    ensures a < b ==> 2 * Pow2(a) <= Pow2(b)
  {
    if a < b {
      Pow2Mono(a + 1, b);
    }
  }

  /** `mc_decimal_to_double`, on the bits; the fixed-point sum is taken modulo 2^64 like the code's. */
  method DecimalToDouble(negative: bool, whole: u32, frac: u32, scale: u32, ghost digits: string) returns (bits: nat)
    requires AllDigits(digits) && |digits| <= MAX_FRAC
    requires frac == NatOf(digits) && scale == Pow10(|digits|)
    ensures bits == ToDouble(negative, Q32(whole, digits) % 0x1_0000_0000_0000_0000)
    ensures whole <= LIMIT ==> Q32(whole, digits) <= U64_MAX
  {
    hide NatOf, FracQ32, Place, Pow10, FracMax, AllDigits, ToDouble, Digit;
    var q := whole * 0x1_0000_0000;
    FracBound(digits);
    FracMaxIs(|digits|);
    ZeroDigits(digits);
    if frac != 0 {
      var store := new nat[MAX_FRAC];
      var count := ExtractDigits(frac, scale, store, digits);
      var sum := SumPlaces(store, count, digits);
      q := (q + sum) % 0x1_0000_0000_0000_0000;
    }
    bits := DoubleOf(negative, q);
  }

  method DoubleOf(negative: bool, q: u64) returns (bits: nat)
    ensures bits == ToDouble(negative, q)
  {
    if q == 0 {
      return 0;
    }
    var msb := TopBit(q);
    var exponent := msb as int - 32;
    var mantissa;
    if msb <= 52 {
      mantissa := q * Pow2(52 - msb);
    } else {
      mantissa := RoundShift(q, msb - 52);
      if mantissa / (2 * HIDDEN_DOUBLE) != 0 {
        mantissa := mantissa / 2;
        exponent := exponent + 1;
      }
    }
    bits := (exponent + 1023) * HIDDEN_DOUBLE + mantissa % HIDDEN_DOUBLE;
    if negative {
      bits := bits + 0x8000_0000_0000_0000;
    }
  }

  // ----- tokens -----

  /** The digits from `start` on, as far as they go. */
  ghost predicate DigitRun(token: string, start: nat, end: nat) {
    && start <= end <= |token|
    && AllDigits(token[start..end])
    && (end < |token| ==> !IsDigit(token[end]))
  }

  method ReadWhole(token: string, start: nat) returns (i: nat, whole: u32, rangeError: bool)
    requires start <= |token|
    ensures DigitRun(token, start, i)
    ensures rangeError <==> NatOf(token[start..i]) > LIMIT
    ensures whole <= LIMIT && (!rangeError ==> whole == NatOf(token[start..i]))
  {
    i, whole, rangeError := start, 0, false;
    while i < |token| && IsDigit(token[i])
      invariant start <= i <= |token| && AllDigits(token[start..i])
      invariant rangeError <==> NatOf(token[start..i]) > LIMIT
      invariant whole <= LIMIT && (!rangeError ==> whole == NatOf(token[start..i]))
    {
      var digit := Digit(token[i]);
      SnocDigit(token, start, i);
      hide NatOf;
      if whole > (LIMIT - digit) / 10 {
        rangeError := true;
      } else if !rangeError {
        whole := whole * 10 + digit;
      }
      i := i + 1;
    }
  }

  lemma SnocDigit(token: string, start: nat, i: nat)
    requires start <= i < |token| && AllDigits(token[start..i]) && IsDigit(token[i])
    ensures token[start..i + 1] == token[start..i] + [token[i]]
    ensures AllDigits(token[start..i + 1])
    ensures NatOf(token[start..i + 1]) == 10 * NatOf(token[start..i]) + Digit(token[i])
  {
    var s := token[start..i + 1];
    assert s == token[start..i] + [token[i]];
    assert s[..|s| - 1] == token[start..i];
  }

  method ReadFraction(token: string, start: nat, rangeError: bool)
    returns (i: nat, frac: u32, scale: u32, discardedNonzero: bool)
    requires start <= |token|
    ensures DigitRun(token, start, i)
    ensures !rangeError ==> frac == NatOf(Kept(token[start..i])) && scale == Pow10(|Kept(token[start..i])|)
    ensures !rangeError ==> (frac != 0 || discardedNonzero <==> NatOf(token[start..i]) != 0)
  {
    hide NatOf, Pow10, Kept;
    i, frac, scale, discardedNonzero := start, 0, 1, false;
    NothingBehind();
    assert token[start..start] == [];
    while i < |token| && IsDigit(token[i])
      invariant start <= i <= |token| && AllDigits(token[start..i])
      invariant rangeError ==> frac == 0 && scale == 1
      invariant !rangeError ==> frac == NatOf(Kept(token[start..i])) && scale == Pow10(|Kept(token[start..i])|)
      invariant !rangeError ==> (frac != 0 || discardedNonzero <==> NatOf(token[start..i]) != 0)
    {
      KeptStep(token, start, i);
      if !rangeError && i - start < MAX_FRAC {
        frac := frac * 10 + Digit(token[i]);
        scale := scale * 10;
      } else if token[i] != '0' {
        discardedNonzero := true;
      }
      i := i + 1;
    }
  }

  lemma KeptStep(token: string, start: nat, i: nat)
    requires start <= i < |token| && AllDigits(token[start..i]) && IsDigit(token[i])
    ensures var kept, next := Kept(token[start..i]), Kept(token[start..i + 1]);
            && AllDigits(token[start..i + 1])
            && NatOf(next) < 0x1_0000_0000 && Pow10(|next|) < 0x1_0000_0000
            && (i - start >= MAX_FRAC ==> next == kept)
            && (i - start < MAX_FRAC ==> NatOf(next) == 10 * NatOf(kept) + Digit(token[i]))
            && (i - start < MAX_FRAC ==> Pow10(|next|) == 10 * Pow10(|kept|))
            && NatOf(token[start..i + 1]) == 10 * NatOf(token[start..i]) + Digit(token[i])
            && (Digit(token[i]) == 0 <==> token[i] == '0')
  {
    SnocDigit(token, start, i);
    var kept, next := Kept(token[start..i]), Kept(token[start..i + 1]);
    if i - start < MAX_FRAC {
      assert kept == token[start..i] && next == token[start..i + 1];
    } else {
      assert next == kept;
    }
    NatOfBound(next);
    Pow10Small(|next|);
    hide NatOf;
  }

  lemma {:induction false} Pow10Small(n: nat)
    requires n <= 9
    ensures Pow10(n) <= 1_000_000_000
    decreases 9 - n
  {
    if n == 9 {
      Pow10Nine();
    } else {
      Pow10Small(n + 1);
    }
  }

  lemma LeadUnique(s: string, n: nat)
    requires DigitRun(s, 0, n)
    ensures Lead(s) == n
  {
    var k := Lead(s);
    assert forall j :: 0 <= j < n ==> s[0..n][j] == s[j];
    assert forall j :: 0 <= j < k ==> s[..k][j] == s[j];
  }

  /** A run found in the token is the run of the token's unsigned rest. */
  lemma RunOfRest(token: string, start: nat, i: nat)
    requires DigitRun(token, start, i)
    ensures var rest := token[start..];
            && Lead(rest) == i - start && rest[..i - start] == token[start..i]
            && (i < |token| ==> rest[i - start] == token[i] && rest[i - start + 1..] == token[i + 1..])
  {
    var rest := token[start..];
    assert rest[0..i - start] == token[start..i] && rest[..i - start] == token[start..i];
    LeadUnique(rest, i - start);
    if i < |token| {
      assert rest[i - start + 1..] == token[i + 1..];
    }
  }

  /** Whether a run of digits reaches the end decides whether everything after it is digits. */
  lemma AllOrNot(token: string, start: nat, i: nat)
    requires DigitRun(token, start, i)
    ensures AllDigits(token[start..]) <==> i == |token|
    ensures i == |token| ==> token[start..i] == token[start..]
  {
    var rest := token[start..];
    if i < |token| {
      assert rest[i - start] == token[i];
    } else {
      assert token[start..i] == rest;
    }
  }

  /**
    `mc_parse_decimal`. Invalid exactly on tokens that are not numbers, out of range exactly when
    the typed magnitude exceeds 30000000, otherwise the stored double.
  */
  method ParseDecimal(token: string) returns (r: Parsed)
    ensures r == Meaning(token)
  {
    if |token| == 0 {
      return Invalid;
    }
    var start, negative := 0, false;
    if token[0] == '-' || token[0] == '+' {
      negative := token[0] == '-';
      start := 1;
      if start == |token| {
        return Invalid;
      }
    }
    r := ParseUnsigned(token, start, negative);
  }

  method ParseUnsigned(token: string, start: nat, negative: bool) returns (r: Parsed)
    requires token != [] && start == (if token[0] == '-' || token[0] == '+' then 1 else 0)
    requires negative == (token[0] == '-')
    ensures r == Meaning(token)
  {
    hide NatOf, Pow10, Stored, FracQ32, ToDouble;
    var i, whole, rangeError := ReadWhole(token, start);
    RunOfRest(token, start, i);
    assert token[start..] == (if start == 1 then token[1..] else token);
    if i == start {
      return Invalid;
    }
    var frac, scale, discarded := 0, 1, false;
    ghost var point := i;
    ghost var t := Typed(negative, token[start..i], []);
    NothingBehind();
    if i < |token| && token[i] == '.' {
      var first := i + 1;
      i, frac, scale, discarded := ReadFraction(token, first, rangeError);
      AllOrNot(token, first, i);
      if i == first {
        return Invalid;
      }
      t := Typed(negative, token[start..point], token[first..i]);
    }
    if i != |token| {
      return Invalid;
    }
    assert ReadToken(token) == Some(t);
    r := Conclude(negative, whole, rangeError, frac, scale, discarded, t);
  }

  lemma NothingBehind()
    ensures NatOf([]) == 0 && Kept([]) == [] && Pow10(0) == 1
  {
  }

  method Conclude(
    negative: bool, whole: u32, rangeError: bool, frac: u32, scale: u32, discarded: bool, ghost t: Typed)
    returns (r: Parsed)
    requires t.Valid() && t.negative == negative && (rangeError <==> NatOf(t.whole) > LIMIT)
    requires whole <= LIMIT && (!rangeError ==> whole == NatOf(t.whole))
    requires !rangeError ==> frac == NatOf(Kept(t.frac)) && scale == Pow10(|Kept(t.frac)|)
    requires !rangeError ==> (frac != 0 || discarded <==> NatOf(t.frac) != 0)
    ensures r == if InRange(t) then Coordinate(Stored(t)) else OutOfRange
  {
    hide NatOf, Pow10, FracQ32, ToDouble;
    if rangeError || (whole == LIMIT && (frac != 0 || discarded)) {
      return OutOfRange;
    }
    var bits := DecimalToDouble(negative, whole, frac, scale, Kept(t.frac));
    return Coordinate(bits);
  }

  // ----- /time -----

  /** `mc_parse_time_ticks`: beyond 24000 the value sticks, and it never overflows 32 bits. */
  method ParseTimeTicks(token: string) returns (ticks: Option<nat>)
    ensures ticks.Some? <==> token != [] && AllDigits(token)
    ensures ticks.Some? ==> ticks.value <= 240_009
    ensures ticks.Some? ==> (ticks.value <= 24_000 <==> NatOf(token) <= 24_000)
    ensures ticks.Some? && NatOf(token) <= 24_000 ==> ticks.value == NatOf(token)
  {
    if token == [] {
      return None;
    }
    var value := 0;
    var i := 0;
    while i < |token|
      invariant i <= |token| && AllDigits(token[0..i]) && value <= 240_009
      invariant value <= 24_000 <==> NatOf(token[0..i]) <= 24_000
      invariant value <= 24_000 ==> value == NatOf(token[0..i])
    {
      if !IsDigit(token[i]) {
        return None;
      }
      SnocDigit(token, 0, i);
      hide NatOf;
      if value <= 24_000 {
        value := value * 10 + Digit(token[i]);
      }
      i := i + 1;
    }
    assert token[0..i] == token;
    return Some(value);
  }
}
