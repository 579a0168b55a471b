/** Circles on a frame (circle/lib/2dgraphics.cpp): which pixels the midpoint circle plots. */
module CircleSpec {
  import opened Basics

  /** (a, b) with a >= b lies on the circle: a is the integer nearest to the root of r*r - b*b. */
  predicate NearCircle(a: int, b: int, r: int) {
    a * a - a <= r * r - b * b < a * a + a
  }

  /** A pixel, relative to the centre, of the digital circle: all eight octants */
  predicate OnCircle(dx: int, dy: int, r: nat) {
    if r == 0 then dx == 0 && dy == 0
    else NearCircle(Max(Abs(dx), Abs(dy)), Min(Abs(dx), Abs(dy)), r)
  }

  /** The pixels that DrawCircleOutline sets: it sets the rightmost pixel twice and the
      leftmost one never. */
  predicate OnOutline(dx: int, dy: int, r: nat) {
    OnCircle(dx, dy, r) && !(r > 0 && dx + r == 0 && dy == 0)
  }

  lemma SquareOrder(a: int, b: int)
    requires 0 <= a <= b
    ensures a * a - a <= b * b - b && a * a + a <= b * b + b && a * a <= b * b
    ensures a < b ==> a * a + a <= b * b - b
  {
    if a < b {
      ProductOrder(a, b, b);
      ProductOrder(a, b, a);
      ProductOrder(a, b - 1, a + b);
      assert (a + b) * (b - a) == b * b - a * a;
      ProductOrder(1, b - a, a + b);
    }
  }

  /** The nearest integer is unique. */
  lemma NearUnique(a: int, a': int, b: int, r: int)
    requires 0 <= a && 0 <= a' && NearCircle(a, b, r) && NearCircle(a', b, r)
    ensures a == a'
  {
    if a < a' {
      SquareOrder(a, a');
    } else if a' < a {
      SquareOrder(a', a);
    }
  }

  /** In coordinates: the square of the distance from the centre deviates from that of the radius by no
      more than the larger coordinate, a deviation of exactly this much is possible outwards only. */
  lemma CircleDeviation(dx: int, dy: int, r: nat)
    requires r > 0
    ensures var a := Max(Abs(dx), Abs(dy)); OnCircle(dx, dy, r) <==> -a < dx * dx + dy * dy - r * r <= a
  {
    assert Abs(dx) * Abs(dx) == dx * dx && Abs(dy) * Abs(dy) == dy * dy;
  }

  /** State of the loop: the decision term belongs to the current point. */
  predicate AtPoint(x: int, y: int, p: int, r: nat) {
    && 0 <= y && 0 <= x <= r
    && p == (y + 1) * (y + 1) + x * x - x - r * r
    && NearCircle(x, y, r)
  }

  lemma FirstPoint(r: nat)
    requires r > 0
    ensures AtPoint(r, 0, 1 - r, r)
  {}

  /** One round of the loop: the next point is on the circle too, or the loop breaks and no
      further row of the octant has a point. */
  lemma NextPoint(x: int, y: int, p: int, r: nat)
    requires AtPoint(x, y, p, r) && x > y
    ensures p <= 0 ==> AtPoint(x, y + 1, p + 2 * (y + 1) + 1, r)
    ensures p > 0 && x - 1 >= y + 1 ==> AtPoint(x - 1, y + 1, p + 2 * (y + 1) - 2 * (x - 1) + 1, r)
  {
    var y' := y + 1;
    assert (y' + 1) * (y' + 1) == y' * y' + 2 * y' + 1;
    assert (x - 1) * (x - 1) == x * x - 2 * x + 1;
    assert y' * y' == y * y + 2 * y + 1;
  }

  /** The decision term stays in 32 bits. */
  lemma DecisionFits(x: int, y: int, p: int, r: nat)
    requires AtPoint(x, y, p, r)
    ensures -2 * (r as int) <= p <= 2 * y + 1
  {
    assert (y + 1) * (y + 1) == y * y + 2 * y + 1;
  }

  /** Beyond the last row there is no pixel of the octant. */
  ghost predicate LastRow(y: int, r: nat) {
    forall a, b | y < b <= a :: !NearCircle(a, b, r)
  }

  lemma EndsOnDiagonal(x: int, r: nat)
    requires 0 <= x && NearCircle(x, x, r)
    ensures LastRow(x, r)
  {
    forall a, b | x < b <= a
      ensures !NearCircle(a, b, r)
    {
      SquareOrder(x, a);
      SquareOrder(x, b);
    }
  }

  lemma EndsByBreak(y: int, p: int, r: nat)
    requires AtPoint(y + 1, y, p, r) && p > 0
    ensures LastRow(y, r)
  {
    forall a, b | y < b <= a
      ensures !NearCircle(a, b, r)
    {
      SquareOrder(y + 1, a);
      SquareOrder(y + 1, b);
    }
  }

  /** The pixels of a row of the octant, mirrored eight times */
  lemma RowPixels(x: int, y: int, r: nat, dx: int, dy: int)
    requires r > 0 && 0 <= y <= x && NearCircle(x, y, r)
    ensures OnCircle(dx, dy, r) && Min(Abs(dx), Abs(dy)) == y <==>
      (Abs(dx) == x && Abs(dy) == y) || (Abs(dx) == y && Abs(dy) == x)
  {
    var a, b := Max(Abs(dx), Abs(dy)), Min(Abs(dx), Abs(dy));
    if NearCircle(a, b, r) && b == y {
      NearUnique(a, x, y, r);
    }
  }

  // ---------------------------------------------------------------- entry guard

  /** Unsigned 32-bit wrap-around */
  function Wrap(v: int): uint32 {
    v % UINT32_RANGE
  }

  /** A 32-bit word read as a signed number */
  function Signed(v: uint32): int {
    if v < 0x8000_0000 then v else v - UINT32_RANGE
  }

  const MAX_FRAME := 0x4000_0000

  predicate GuardPasses(nX: uint32, nY: uint32, r: uint32, width: nat, height: nat) {
    Wrap(nX + r) < width && Wrap(nY + r) < height && Wrap(nX - r) < width && Wrap(nY - r) < height
  }

  predicate InFrame(x: int, y: int, width: nat, height: nat) {
    0 <= x < width && 0 <= y < height
  }

  /** The magnitude of the radius: a word above 2^31 acts like a negative number. */
  function Reach(r: uint32): nat {
    Abs(Signed(r))
  }

  /** If the centre is inside, the guard does what it is for: the circle does not leave the frame. */
  lemma GuardKeepsInside(nX: uint32, nY: uint32, r: uint32, width: nat, height: nat)
    requires width <= MAX_FRAME && height <= MAX_FRAME
    requires GuardPasses(nX, nY, r, width, height) && InFrame(nX, nY, width, height)
    ensures Reach(r) <= nX && nX + Reach(r) < width && Reach(r) <= nY && nY + Reach(r) < height
    ensures Wrap(nX + r) == nX + Signed(r) && Wrap(nX - r) == nX - Signed(r)
    ensures Wrap(nY + r) == nY + Signed(r) && Wrap(nY - r) == nY - Signed(r)
  {}

  /** The circle does not leave the frame. */
  predicate CircleInside(nX: int, nY: int, r: int, width: nat, height: nat) {
    r <= nX && nX + r < width && r <= nY && nY + r < height
  }

  /** What the guard lets through: circles inside of the frame, for every centre inside of it, and for
      small radii for all centres. */
  lemma GuardIff(nX: uint32, nY: uint32, r: uint32, width: nat, height: nat)
    requires width <= MAX_FRAME && height <= MAX_FRAME && r < 0x8000_0000
    requires InFrame(nX, nY, width, height) || r < 0x8000
    ensures GuardPasses(nX, nY, r, width, height) <==> CircleInside(nX, nY, r, width, height)
  {
    GuardOfCoordinate(nX, r, width);
    GuardOfCoordinate(nY, r, height);
    hide Wrap;
  }

  lemma GuardOfCoordinate(n: uint32, r: uint32, size: nat)
    requires size <= MAX_FRAME && r < 0x8000_0000 && (n < size || r < 0x8000)
    ensures Wrap(n + r) < size && Wrap(n - r) < size <==> r <= n && n + r < size
  {
    WrapSum(n + r);
    WrapSum(n - r);
    hide Wrap;
  }

  lemma WrapSum(v: int)
    requires -UINT32_RANGE <= v < 2 * UINT32_RANGE
    ensures Wrap(v) == if v < 0 then v + UINT32_RANGE else if v < UINT32_RANGE then v else v - UINT32_RANGE
  {}

  /** The pixels written for a radius: above 2^31 the loop is not entered. */
  predicate Written(dx: int, dy: int, r: uint32) {
    if Signed(r) >= 0 then OnOutline(dx, dy, r)
    else (dx == Signed(r) && dy == 0) || (dx == 0 && (dy == Signed(r) || dy == -Signed(r)))
  }

  lemma CircleReach(dx: int, dy: int, r: uint32)
    requires Written(dx, dy, r)
    ensures -(Reach(r) as int) <= dx <= Reach(r) && -(Reach(r) as int) <= dy <= Reach(r)
  {
    if 0 < Signed(r) {
      var a, b := Max(Abs(dx), Abs(dy)), Min(Abs(dx), Abs(dy));
      ProductSign(b, b);
      if a > r {
        SquareOrder(r, a);
      }
    }
  }

  /** The guard lets every pixel of the circle into the frame exactly if the centre is inside:
      its wrapping sums do not look at the centre itself. */
  lemma GuardSufficesIffCentreInside(nX: uint32, nY: uint32, r: uint32, width: nat, height: nat)
    requires width <= MAX_FRAME && height <= MAX_FRAME && GuardPasses(nX, nY, r, width, height)
    ensures (forall dx, dy | Written(dx, dy, r) :: InFrame(Wrap(nX + dx), Wrap(nY + dy), width, height))
       <==> InFrame(nX, nY, width, height)
  {
    hide Written, InFrame;
    if InFrame(nX, nY, width, height) {
      forall dx, dy | Written(dx, dy, r)
        ensures InFrame(Wrap(nX + dx), Wrap(nY + dy), width, height)
      {
        CircleReach(dx, dy, r);
        StaysInside(nX, nY, r, width, height, dx, dy);
      }
    } else {
      var q := Signed(r);
      AxisPixels(r);
      OutsideAxis(nX, nY, r, width, height);
    }
  }

  lemma StaysInside(nX: uint32, nY: uint32, r: uint32, width: nat, height: nat, dx: int, dy: int)
    requires width <= MAX_FRAME && height <= MAX_FRAME
    requires GuardPasses(nX, nY, r, width, height) && InFrame(nX, nY, width, height)
    requires -(Reach(r) as int) <= dx <= Reach(r) && -(Reach(r) as int) <= dy <= Reach(r)
    ensures InFrame(Wrap(nX + dx), Wrap(nY + dy), width, height)
    ensures Wrap(nX + dx) == nX + dx && Wrap(nY + dy) == nY + dy
  {
    GuardKeepsInside(nX, nY, r, width, height);
  }

  lemma AxisPixels(r: uint32)
    ensures Written(Signed(r), 0, r) && Written(0, Signed(r), r)
  {
    if 0 < Signed(r) {
      FirstPoint(r);
      RowPixels(r, 0, r, r, 0);
      RowPixels(r, 0, r, 0, r);
    }
  }

  lemma OutsideAxis(nX: uint32, nY: uint32, r: uint32, width: nat, height: nat)
    requires !InFrame(nX, nY, width, height)
    ensures !InFrame(Wrap(nX + Signed(r)), Wrap(nY + 0), width, height)
         || !InFrame(Wrap(nX + 0), Wrap(nY + Signed(r)), width, height)
  {}

  /** An input that passes the guard of a frame of 100 x 100 and writes outside of it */
  lemma GuardCounterexample()
    ensures GuardPasses(0x8000_000A, 0x8000_000A, 0x7FFF_FFF6, 100, 100)
    ensures Written(0, 0x7FFF_FFF6, 0x7FFF_FFF6)
    ensures !InFrame(Wrap(0x8000_000A + 0), Wrap(0x8000_000A + 0x7FFF_FFF6), 100, 100)
  {
    AxisPixels(0x7FFF_FFF6);
  }

  /** The leftmost pixel is the only one of the circle that is missing. */
  lemma OnlyLeftmostMissing(r: nat, dx: int, dy: int)
    requires r > 0
    ensures OnCircle(-(r as int), 0, r)
    ensures OnCircle(dx, dy, r) && !OnOutline(dx, dy, r) <==> dx + r == 0 && dy == 0
  {
    FirstPoint(r);
    RowPixels(r, 0, r, -(r as int), 0);
  }
}
