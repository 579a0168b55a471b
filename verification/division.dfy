/** Division by shifting and subtracting (circle/lib/libhelper.cpp). */
module Division {
  import opened Basics

  function Pow2(n: nat): (p: nat)
    ensures p > n
  {
    if n == 0 then 1 else 2 * Pow2(n - 1)
  }

  lemma Pow2Of32()
    ensures Pow2(32) == UINT32_RANGE
  {
    assert Pow2(8) == 0x100;
    assert Pow2(16) == 0x1_0000;
    assert Pow2(24) == 0x100_0000;
  }

  /** The divisor shifted left */
  function Shifted(d: nat, n: nat): (s: nat)
    ensures d > 0 ==> s >= Pow2(n)
  {
    if n == 0 then d else 2 * Shifted(d, n - 1)
  }

  /** Quotient and remainder are exact, with at most 33 rounds of either loop, and the shifted
      divisor stays below 2^33. A division by zero raises an exception. */
  method Divide(nDividend: uint32, nDivisor: uint32)
    returns (result: Option<(uint32, uint32)>, ghost rounds: nat, ghost largest: nat)
    ensures result.None? <==> nDivisor == 0
    ensures result.Some? ==> result.value.0 == nDividend / nDivisor && result.value.1 == nDividend % nDivisor
    ensures rounds <= 33 && largest < 2 * UINT32_RANGE
  {
    rounds, largest := 0, 0;
    if nDivisor == 0 {
      return None, rounds, largest;
    }
    hide Divided;
    var ullDivisor: nat := nDivisor;
    var nCount: nat := 1;
    while nDividend > ullDivisor
      invariant 1 <= nCount <= 33 && 0 < ullDivisor == Shifted(nDivisor, nCount - 1) < 2 * UINT32_RANGE
      decreases nDividend - ullDivisor
    {
      if nCount == 33 {
        Pow2Of32();
      }
      ullDivisor := ullDivisor * 2;
      nCount := nCount + 1;
    }
    rounds, largest := nCount, ullDivisor;
    StartDivided(nDividend, Shifted(nDivisor, nCount));
    var rest: nat := nDividend;
    var nQuotient: nat := 0;
    while nCount > 0
      invariant ullDivisor == Shifted(nDivisor, nCount) / 2
      invariant Divided(nDividend, nQuotient, Shifted(nDivisor, nCount), rest)
    {
      HalfStep(nDividend, nQuotient, Shifted(nDivisor, nCount - 1), rest);
      nCount := nCount - 1;
      nQuotient := nQuotient * 2;
      if rest >= ullDivisor {
        nQuotient := nQuotient + 1;
        rest := rest - ullDivisor;
      }
      ullDivisor := ullDivisor / 2;
    }
    Quotient(nDividend, nQuotient, nDivisor, rest);
    result := Some((nQuotient, rest));
  }

  predicate Divided(dividend: nat, q: nat, divisor: nat, rest: nat) {
    dividend == q * divisor + rest && rest < divisor
  }

  lemma StartDivided(dividend: nat, divisor: nat)
    requires dividend < divisor
    ensures Divided(dividend, 0, divisor, dividend)
  {}

  lemma HalfStep(dividend: nat, q: nat, half: nat, rest: nat)
    requires Divided(dividend, q, 2 * half, rest)
    ensures if rest >= half then Divided(dividend, 2 * q + 1, half, rest - half)
            else Divided(dividend, 2 * q, half, rest)
  {
    assert q * (2 * half) == (2 * q) * half && (2 * q + 1) * half == (2 * q) * half + half;
  }

  lemma Quotient(dividend: nat, q: nat, divisor: nat, rest: nat)
    requires Divided(dividend, q, divisor, rest)
    ensures q == dividend / divisor && rest == dividend % divisor && q <= dividend && rest <= dividend
  {
    DivModUnique(dividend, q, rest, divisor);
    ProductOrder(1, divisor, q);
  }

  const INT_MIN := -0x8000_0000

  /** Division that truncates towards zero: the remainder has the sign of the dividend. */
  predicate Truncates(n: int, d: int, q: int) {
    var r := n - q * d;
    Abs(r) < Abs(d) && (r == 0 || (r > 0 <==> n > 0))
  }

  lemma TruncatesUnique(n: int, d: int, q: int, q': int)
    requires Truncates(n, d, q) && Truncates(n, d, q')
    ensures q == q'
  {
    var e := (q' - q) * d;
    assert e == q' * d - q * d && -Abs(d) < e < Abs(d);
    if d > 0 {
      SmallMultiple(q' - q, d);
    } else {
      assert (q' - q) * (-d) == -e;
      SmallMultiple(q' - q, -d);
    }
  }

  /** Negation of a 32-bit word, read as a signed number */
  function Negated(v: uint32): int {
    var w := (-(v as int)) % UINT32_RANGE;
    if w < 0x8000_0000 then w else w - UINT32_RANGE
  }

  /** Truncates towards zero, like the operator of the language. For the most negative number the
      negation of an operand would overflow. */
  method DivideInteger(nDividend: int32, nDivisor: int32) returns (result: Option<int>)
    requires nDividend != INT_MIN && nDivisor != INT_MIN
    ensures result.None? <==> nDivisor == 0
    ensures result.Some? ==> Truncates(nDividend, nDivisor, result.value)
    ensures result.Some? ==> var q := Abs(nDividend) / Abs(nDivisor);
      result.value == if (nDividend < 0) == (nDivisor < 0) then q else -q
  {
    var a: uint32 := if nDividend < 0 then -(nDividend as int) else nDividend;
    var b: uint32 := if nDivisor < 0 then -(nDivisor as int) else nDivisor;
    var q, _, _ := Divide(a, b);
    if q.None? {
      return None;
    }
    var v := q.value.0;
    QuotientBound(a, b);
    hide Truncates;
    if (nDividend < 0) == (nDivisor < 0) {
      result := Some(v);
    } else {
      result := Some(Negated(v));
    }
    SignedQuotient(a, b, v, nDividend, nDivisor);
  }

  lemma QuotientBound(a: nat, b: nat)
    requires b > 0
    ensures 0 <= a / b <= a && a == (a / b) * b + a % b
  {
    ProductOrder(1, b, a / b);
  }

  lemma SignedQuotient(a: nat, b: nat, q: nat, n: int, d: int)
    requires b > 0 && q == a / b && a == Abs(n) && b == Abs(d)
    ensures Truncates(n, d, if (n < 0) == (d < 0) then q else -(q as int))
  {
    var s := if (n < 0) == (d < 0) then q else -(q as int);
    assert s * d == if n < 0 then -(q * b) else q * b;
    assert a == q * b + a % b;
  }
}
