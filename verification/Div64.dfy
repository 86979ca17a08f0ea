/**
  Run-time support the 32-bit firmware supplies for itself: 64-bit division by shifting and
  subtracting, and a `memmove` that is right for overlapping ranges.
*/
module Div64 {
  import opened Bytes
  import opened Arith

  /** Halving a prefix shifts in the next bit. */
  lemma PrefixStep(a: nat, bit: nat)
    requires bit > 0
    ensures a / Pow2(bit - 1) == 2 * (a / Pow2(bit)) + a / Pow2(bit - 1) % 2
  {
    assert Pow2(bit) == 2 * Pow2(bit - 1);
    hide Pow2;
    HalfPrefix(a, Pow2(bit - 1));
  }

  lemma HalfPrefix(a: nat, p: nat)
    requires p >= 1
    ensures a / p == 2 * (a / (2 * p)) + a / p % 2
  {
    var h := a / p;
    DivMod(a, p);
    HalfQuotient(a, p, h, a % p, h / 2, h % 2);
  }

  lemma HalfQuotient(a: nat, p: nat, h: nat, r: nat, q: nat, b: nat)
    requires a == h * p + r && r < p && h == 2 * q + b && b <= 1
    ensures a / (2 * p) == q
  {
    MulAssoc(2, q, p);
    Distribute(2 * q, b, p);
    assert h * p == 2 * (q * p) + b * p;
    MulAssoc(q, 2, p);
    DivUnique(a, 2 * p, q, b * p + r);
  }

  lemma PrefixBounded(a: nat, p: nat)
    requires p >= 1
    ensures 0 <= a / p <= a
  {
    assert a == (a / p) * p + a % p;
    if a / p > a {
      MulMono(1, p, a / p);
    }
  }

  lemma QuotientStep(q: nat, bit: nat)
    requires bit > 0
    ensures q * Pow2(bit) == (2 * q) * Pow2(bit - 1)
    ensures q * Pow2(bit) + Pow2(bit - 1) == (2 * q + 1) * Pow2(bit - 1)
  {
    MulAssoc(q, 2, Pow2(bit - 1));
    Distribute(2 * q, 1, Pow2(bit - 1));
  }

  /** One bit of the dividend: the old remainder doubled, with or without a subtraction. */
  lemma DivStep(prefix: nat, next: nat, whole: nat, divisor: nat, rem: nat)
    requires prefix == whole * divisor + rem
    ensures 2 * prefix + next == (2 * whole) * divisor + (2 * rem + next)
    ensures 2 * prefix + next == (2 * whole + 1) * divisor + (2 * rem + next - divisor)
    ensures 2 * rem + next <= 2 * prefix + next
  {
    MulAssoc(2, whole, divisor);
    Distribute(2 * whole, 1, divisor);
    assert whole * divisor >= 0;
  }

  function BitOf(a: u64, bit: nat): (b: nat)
    ensures b <= 1
  {
    a / Pow2(bit) % 2
  }

  /** The dividend's bits from `bit` upwards have been divided; q is the quotient so far, in place. */
  ghost predicate Divided(a: u64, divisor: nat, bit: nat, whole: nat, rem: int, q: int) {
    && 0 <= rem < divisor
    && a / Pow2(bit) == whole * divisor + rem
    && q == whole * Pow2(bit)
  }

  lemma BitStep(a: u64, divisor: nat, bit: nat, whole: nat, rem: nat, q: nat)
    requires bit > 0 && Divided(a, divisor, bit, whole, rem, q)
    ensures var r := 2 * rem + BitOf(a, bit - 1);
            && r < 0x1_0000_0000_0000_0000
            && (r >= divisor ==> Divided(a, divisor, bit - 1, 2 * whole + 1, r - divisor, q + Pow2(bit - 1)))
            && (r < divisor ==> Divided(a, divisor, bit - 1, 2 * whole, r, q))
  {
    hide Pow2;
    PrefixStep(a, bit);
    QuotientStep(whole, bit);
    PrefixBounded(a, Pow2(bit - 1));
    DivStep(a / Pow2(bit), BitOf(a, bit - 1), whole, divisor, rem);
  }

  /**
    `udivmod64`. The shifted remainder is taken modulo 2^64, as the hardware does; it never wraps,
    because a remainder is at most the prefix of the dividend consumed so far.
  */
  method UDivMod(dividend: u64, divisor: u64) returns (quotient: u64, remainder: u64)
    ensures divisor == 0 ==> quotient == U64_MAX && remainder == dividend
    ensures divisor > 0 ==> dividend == quotient * divisor + remainder && remainder < divisor
  {
    hide Divided, BitOf, Pow2;
    if divisor == 0 {
      return U64_MAX, dividend;
    }
    var q: nat, rem: nat, bit := 0, 0, 64;
    ghost var whole: nat := 0;
    StartDivided(dividend, divisor);
    while bit > 0
      invariant 0 <= bit <= 64
      invariant Divided(dividend, divisor, bit, whole, rem, q)
    {
      BitStep(dividend, divisor, bit, whole, rem, q);
      rem := (2 * rem + BitOf(dividend, bit - 1)) % 0x1_0000_0000_0000_0000;
      if rem >= divisor {
        rem := rem - divisor;
        q := q + Pow2(bit - 1);
        whole := 2 * whole + 1;
      } else {
        whole := 2 * whole;
      }
      bit := bit - 1;
    }
    AllDivided(dividend, divisor, whole, rem, q);
    quotient, remainder := q, rem;
  }

  lemma StartDivided(dividend: u64, divisor: nat)
    requires divisor > 0
    ensures Divided(dividend, divisor, 64, 0, 0, 0)
  {
    Pow2Values();
  }

  lemma AllDivided(dividend: u64, divisor: nat, whole: nat, rem: nat, q: nat)
    requires divisor > 0 && Divided(dividend, divisor, 0, whole, rem, q)
    ensures dividend == q * divisor + rem && rem < divisor && q <= dividend
  {
    assert Pow2(0) == 1;
    MulMono(1, divisor, whole);
  }

  /** `memmove` within one buffer. */
  method Move(a: array<byte>, dst: nat, src: nat, n: nat)
    requires dst + n <= a.Length && src + n <= a.Length
    modifies a
    ensures a[dst..dst + n] == old(a[src..src + n])
    ensures forall i :: 0 <= i < a.Length && !(dst <= i < dst + n) ==> a[i] == old(a[i])
  {
    if dst == src || n == 0 {
      return;
    }
    ghost var was := a[..];
    if dst < src {
      var i := 0;
      while i < n
        invariant 0 <= i <= n
        invariant forall m :: dst <= m < dst + i ==> a[m] == was[m - dst + src]
        invariant forall m :: 0 <= m < a.Length && !(dst <= m < dst + i) ==> a[m] == was[m]
      {
        a[dst + i] := a[src + i];
        i := i + 1;
      }
    } else {
      var i := n;
      while i > 0
        invariant 0 <= i <= n
        invariant forall m :: dst + i <= m < dst + n ==> a[m] == was[m - dst + src]
        invariant forall m :: 0 <= m < a.Length && !(dst + i <= m < dst + n) ==> a[m] == was[m]
      {
        i := i - 1;
        a[dst + i] := a[src + i];
      }
    }
  }
}
