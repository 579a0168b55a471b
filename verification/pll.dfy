/** Fixed-point dividers of the audio PLL (circle/lib/gpioclock-rp1.cpp). */
module PllDividers {
  import opened Basics

  const FRACTION := 0x100_0000          // 24 bits
  const FIXED_POINT := 0x1_0000_0000    // 32 bits

  /** DIV_ROUND_CLOSEST for positive numbers */
  function RoundClosest(n: nat, d: nat): (q: nat)
    requires d > 0
  {
    (n + d / 2) / d
  }

  lemma RoundClosestError(n: nat, d: nat)
    requires d > 0
    ensures -(d as int) <= 2 * (RoundClosest(n, d) * d - n) <= d
  {
    var q := RoundClosest(n, d);
    assert q * d <= n + d / 2 < q * d + d by {
      assert n + d / 2 == q * d + (n + d / 2) % d;
    }
  }

  /** The feedback factor as the hardware takes it: integer part, then 24 bits of fraction */
  function Factor(divInt: nat, divFrac: nat): nat {
    divInt * FRACTION + divFrac
  }

  /** The factor is the target rate over the parent rate, in units of 1 / FRACTION, up to one
      rounding to 32 and one to 24 bits of fraction. */
  predicate FactorOf(f: nat, rate: nat, parent: nat) {
    Abs(512 * (f * parent - rate * FRACTION)) <= 257 * parent
  }

  lemma SumTimes(a: int, b: int, n: int)
    ensures (a + b) * n == a * n + b * n
  {}

  lemma TimesTimes(a: int, b: int, n: int)
    ensures a * b * n == a * (b * n)
  {}

  /** Both roundings together: the carry of the second one goes into the integer part. */
  lemma FactorError(rate: nat, parent: nat, d: nat)
    requires parent > 0 && d == RoundClosest(rate * FIXED_POINT, parent) + 128
    ensures FactorOf(d / 256, rate, parent)
  {
    var q, f := d - 128, d / 256;
    RoundClosestError(rate * FIXED_POINT, parent);
    hide RoundClosest;
    var r := d % 256;
    assert q == 256 * f + (r - 128);
    SumTimes(256 * f, r - 128, parent);
    TimesTimes(256, f, parent);
    ProductOrder(-128, r - 128, parent);
    ProductOrder(r - 128, 128, parent);
  }

  lemma FixedPointFits(rate: uint32, parent: uint32)
    requires parent >= 2
    ensures RoundClosest(rate * FIXED_POINT, parent) + 128 < 0x1_0000_0000_0000_0000
    ensures rate * FIXED_POINT + parent / 2 < 0x1_0000_0000_0000_0000
  {
    var q := RoundClosest(rate * FIXED_POINT, parent);
    RoundClosestError(rate * FIXED_POINT, parent);
    ProductOrder(2, parent, q);
  }

  lemma RateFromFactor(f: nat, rate: nat, parent: nat, computed: nat)
    requires FactorOf(f, rate, parent) && computed == (parent * f + FRACTION / 2) / FRACTION
    ensures 512 * Abs(computed - rate) * FRACTION <= 512 * (FRACTION / 2) + 257 * parent
  {
    assert parent * f == f * parent;
    assert -FRACTION <= 2 * (computed * FRACTION - parent * f) <= FRACTION;
  }

  /** Splitting the 32.32 fixed-point number into the fields of the hardware loses nothing. */
  lemma SplitFactor(d: nat)
    ensures Factor(d / FIXED_POINT, d / 256 % FRACTION) == d / 256
  {
    assert d / 256 / FRACTION == d / FIXED_POINT;
  }

  /** Neither does the product for the resulting rate overflow. */
  lemma ProductFits(f: nat, rate: uint32, parent: uint32)
    requires FactorOf(f, rate, parent)
    ensures parent * f + FRACTION / 2 < 0x1_0000_0000_0000_0000
  {
    assert parent * f == f * parent;
  }

  /** All of the arithmetic fits 64 bits, and the rate that results differs from the target by at
      most (2^23 + parent / 2 + parent / 512) / 2^24. */
  method GetPLLCoreDivider(rate: uint32, parentRate: uint32) returns (calcRate: nat, divInt: uint32, divFrac: uint32)
    requires parentRate >= 2
    ensures divFrac < FRACTION && FactorOf(Factor(divInt, divFrac), rate, parentRate)
    ensures 512 * Abs(calcRate - rate) * FRACTION <= 512 * (FRACTION / 2) + 257 * parentRate
    ensures -FRACTION < 2 * (calcRate * FRACTION - parentRate * (divInt * FRACTION + divFrac)) <= FRACTION
  {
    hide FactorOf, RoundClosest, Abs;
    FixedPointFits(rate, parentRate);
    var divFp64: uint64 := rate * FIXED_POINT;
    divFp64 := RoundClosest(divFp64, parentRate);
    divFp64 := divFp64 + 128;
    FactorError(rate, parentRate, divFp64);
    SplitFactor(divFp64);
    divInt := divFp64 / FIXED_POINT;
    divFrac := divFp64 / 256 % FRACTION;
    ProductFits(Factor(divInt, divFrac), rate, parentRate);
    var factor := divInt * FRACTION + divFrac;
    var product: uint64 := parentRate * factor + FRACTION / 2;
    calcRate := product / FRACTION;
    RateFromFactor(Factor(divInt, divFrac), rate, parentRate, calcRate);
  }

  /** With the crystal of 50 MHz the rate is at most 1 Hz off. */
  lemma OneHertz(computed: nat, rate: nat)
    requires 512 * Abs(computed - rate) * FRACTION <= 512 * (FRACTION / 2) + 257 * 50_000_000
    ensures Abs(computed - rate) <= 1
  {}

  // ---------------------------------------------------------------- post dividers

  const MAX_DIV := 7

  function RateDiff(rate: nat, parent: nat, div1: nat, div2: nat): nat
    requires 1 <= div1 <= MAX_DIV && 1 <= div2 <= MAX_DIV
  {
    ProductOrder(1, div1, div2);
    Abs(RoundClosest(parent, div1 * div2) - rate)
  }

  lemma DiffSymmetric(rate: nat, parent: nat, div1: nat, div2: nat)
    requires 1 <= div1 <= MAX_DIV && 1 <= div2 <= MAX_DIV
    ensures RateDiff(rate, parent, div1, div2) == RateDiff(rate, parent, div2, div1)
  {
    assert div1 * div2 == div2 * div1;
  }

  /** q is the rate behind both dividers, rounded to the nearest integer, a tie upwards. */
  predicate RateBehind(q: int, parent: nat, div1: nat, div2: nat) {
    -(div1 * div2) < 2 * (q * (div1 * div2) - parent) <= div1 * div2
  }

  /** There is exactly one such rate, and RateDiff is its distance to the one wanted. */
  lemma RateBehindUnique(rate: nat, parent: nat, div1: nat, div2: nat, q: int)
    requires 1 <= div1 <= MAX_DIV && 1 <= div2 <= MAX_DIV
    ensures div1 * div2 > 0 && RateBehind(RoundClosest(parent, div1 * div2), parent, div1, div2)
    ensures RateBehind(q, parent, div1, div2) ==> RateDiff(rate, parent, div1, div2) == Abs(q - rate)
  {
    ProductOrder(1, div1, div2);
    var d, n := div1 * div2, parent + div1 * div2 / 2;
    var c := RoundClosest(parent, d);
    assert n == c * d + n % d;
    if RateBehind(q, parent, div1, div2) {
      DivModUnique(n, q, n - q * d, d);
    }
  }

  /** No pair of dividers comes closer to the rate, though only pairs with the larger one first
      are tried. */
  method GetPLLDividers(rate: nat, parentRate: nat) returns (divider1: nat, divider2: nat)
    ensures 1 <= divider2 <= divider1 <= MAX_DIV
    ensures forall a, b | 1 <= a <= MAX_DIV && 1 <= b <= MAX_DIV ::
              RateDiff(rate, parentRate, divider1, divider2) <= RateDiff(rate, parentRate, a, b)
    ensures forall a, b, q, best | 1 <= a <= MAX_DIV && 1 <= b <= MAX_DIV ::
              RateBehind(q, parentRate, a, b) && RateBehind(best, parentRate, divider1, divider2) ==>
                Abs(best - rate) <= Abs(q - rate)
  {
    hide RateDiff, RoundClosest, RateBehind;
    divider1, divider2 := MAX_DIV, MAX_DIV;
    var bestRateDiff := RateDiff(rate, parentRate, divider1, divider2);
    var div1 := 1;
    while div1 <= MAX_DIV
      invariant 1 <= div1 <= MAX_DIV + 1 && 1 <= divider2 <= divider1 <= MAX_DIV
      invariant bestRateDiff == RateDiff(rate, parentRate, divider1, divider2)
      invariant forall a, b | 1 <= b <= a < div1 :: bestRateDiff <= RateDiff(rate, parentRate, a, b)
    {
      var div2 := 1;
      while div2 <= div1
        invariant 1 <= div2 <= div1 + 1 && 1 <= divider2 <= divider1 <= MAX_DIV
        invariant bestRateDiff == RateDiff(rate, parentRate, divider1, divider2)
        invariant forall a, b | 1 <= b <= a < div1 :: bestRateDiff <= RateDiff(rate, parentRate, a, b)
        invariant forall b | 1 <= b < div2 :: bestRateDiff <= RateDiff(rate, parentRate, div1, b)
      {
        var rateDiff := RateDiff(rate, parentRate, div1, div2);
        if rateDiff == 0 {
          NoneCloser(rate, parentRate, div1, div2);
          return div1, div2;
        } else if rateDiff < bestRateDiff {
          divider1, divider2, bestRateDiff := div1, div2, rateDiff;
        }
        div2 := div2 + 1;
      }
      div1 := div1 + 1;
    }
    forall a, b | 1 <= a <= MAX_DIV && 1 <= b <= MAX_DIV
      ensures bestRateDiff <= RateDiff(rate, parentRate, a, b)
    {
      DiffSymmetric(rate, parentRate, a, b);
    }
    NoneCloser(rate, parentRate, divider1, divider2);
  }

  lemma NoneCloser(rate: nat, parent: nat, div1: nat, div2: nat)
    requires 1 <= div1 <= MAX_DIV && 1 <= div2 <= MAX_DIV
    requires forall a, b | 1 <= a <= MAX_DIV && 1 <= b <= MAX_DIV ::
               RateDiff(rate, parent, div1, div2) <= RateDiff(rate, parent, a, b)
    ensures forall a, b, q, best | 1 <= a <= MAX_DIV && 1 <= b <= MAX_DIV ::
              RateBehind(q, parent, a, b) && RateBehind(best, parent, div1, div2) ==> Abs(best - rate) <= Abs(q - rate)
  {
    hide RateDiff, RateBehind;
    forall a, b, q, best | 1 <= a <= MAX_DIV && 1 <= b <= MAX_DIV &&
        RateBehind(q, parent, a, b) && RateBehind(best, parent, div1, div2)
      ensures Abs(best - rate) <= Abs(q - rate)
    {
      RateBehindUnique(rate, parent, a, b, q);
      RateBehindUnique(rate, parent, div1, div2, best);
    }
  }
}
