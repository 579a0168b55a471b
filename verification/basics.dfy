/** Types and arithmetic facts shared by the models of the drivers. */
module Basics {

  datatype Option<+T> = None | Some(value: T)

  const UINT32_RANGE := 0x1_0000_0000

  type uint8 = x: int | 0 <= x < 0x100
  type uint32 = x: int | 0 <= x < UINT32_RANGE
  type uint64 = x: int | 0 <= x < 0x1_0000_0000_0000_0000
  type int32 = x: int | -0x8000_0000 <= x < 0x8000_0000

  function Min(a: int, b: int): int {
    if a <= b then a else b
  }

  function Max(a: int, b: int): int {
    if a >= b then a else b
  }

  function Abs(a: int): (r: int) {
    if a >= 0 then a else -a
  }

  lemma ProductSign(x: nat, y: nat)
    ensures x * y >= 0
  {}

  lemma ProductOrder(a: int, b: int, n: nat)
    ensures a <= b ==> a * n <= b * n
  {
    if a <= b {
      ProductSign(b - a, n);
      assert (b - a) * n == b * n - a * n;
    }
  }

  lemma NonzeroMultiple(d: int, n: nat)
    requires d != 0
    ensures d * n >= n || d * n <= -(n as int)
  {
    if d >= 1 {
      ProductSign(d - 1, n);
      assert (d - 1) * n == d * n - n;
    } else {
      ProductSign(-d - 1, n);
      assert (-d - 1) * n == -(d * n) - n;
    }
  }

  /** A multiple of n strictly between -n and n is zero. */
  lemma SmallMultiple(d: int, n: nat)
    requires -(n as int) < d * n < n
    ensures d == 0
  {
    if d != 0 {
      NonzeroMultiple(d, n);
    }
  }

  /** Quotient and remainder are determined by the division equation. */
  lemma DivModUnique(k: int, q: int, r: int, n: nat)
    requires n > 0 && 0 <= r < n && k == q * n + r
    ensures k / n == q && k % n == r
  {
    var d := q - k / n;
    assert k == (k / n) * n + k % n;
    assert d * n == q * n - (k / n) * n;
    SmallMultiple(d, n);
  }

  /** Position of a counter that runs around a ring of n slots: k modulo n by subtraction,
      which keeps division out of the proofs about rings. */
  function Lap(k: nat, n: nat): (p: nat)
    requires n > 0
    ensures p < n
  {
    if k < n then k else Lap(k - n, n)
  }

  lemma {:induction false} LapNext(k: nat, n: nat)
    requires n > 0
    ensures Lap(k + 1, n) == if Lap(k, n) == n - 1 then 0 else Lap(k, n) + 1
  {
    if k >= n {
      LapNext(k - n, n);
    }
  }

  /** Counters less than one lap apart stand on different slots. */
  lemma {:induction false} LapDistinct(a: nat, b: nat, n: nat)
    requires a < b < a + n
    ensures Lap(a, n) != Lap(b, n)
  {
    if a >= n {
      LapDistinct(a - n, b - n, n);
    }
  }

  lemma {:induction false} LapIsModulo(k: nat, n: nat)
    requires n > 0
    ensures Lap(k, n) == k % n
  {
    if k >= n {
      LapIsModulo(k - n, n);
      var q := (k - n) / n;
      assert k - n == q * n + (k - n) % n;
      assert (q + 1) * n == q * n + n;
      DivModUnique(k, q + 1, (k - n) % n, n);
    } else {
      DivModUnique(k, 0, k, n);
    }
  }

  /** The distance of two counters survives reading both through a wrapping register. */
  lemma IndexDistance(a: nat, b: nat, m: nat)
    requires b <= a < b + m
    ensures (a % m - b % m) % m == a - b
  {
    var q := b / m - a / m;
    assert q * m == (b / m) * m - (a / m) * m;
    DivModUnique(a % m - b % m, q, a - b, m);
  }

  lemma LapDistance(a: nat, b: nat, m: nat)
    requires b <= a < b + m
    ensures (Lap(a, m) - Lap(b, m)) % m == a - b
  {
    LapIsModulo(a, m);
    LapIsModulo(b, m);
    IndexDistance(a, b, m);
  }
}
