/** Geometry of lines on a pixel grid, shared by the models of both line algorithms. */
module Raster {
  import opened Basics

  /** A line between two pixels */
  datatype Segment = Segment(x0: uint32, y0: uint32, x1: uint32, y1: uint32) {
    function Dx(): nat { Abs(x1 - x0) }
    function Dy(): nat { Abs(y1 - y0) }
    predicate Flat() { Dx() >= Dy() }
    function Major(): nat { Max(Dx(), Dy()) }
    function Minor(): nat { if Flat() then Dy() else Dx() }
  }

  /** Number of steps from one coordinate to another, counted towards a third */
  function Along(c: int, from: int, to: int): int {
    if from < to then c - from else from - c
  }

  /** The coordinate a number of steps from one coordinate towards another */
  function Ahead(steps: int, from: int, to: int): int {
    if from < to then from + steps else from - steps
  }

  /** j is the integer nearest to k * minor / major; a tie is rounded down. */
  predicate NearestDown(k: int, j: int, major: nat, minor: nat) {
    if major == 0 then j == 0 else -(major as int) <= 2 * (j * major - k * minor) < major
  }

  /** j is the integer nearest to k * minor / major; a tie is rounded up. */
  predicate NearestUp(k: int, j: int, major: nat, minor: nat) {
    if major == 0 then j == 0 else -(major as int) < 2 * (j * major - k * minor) <= major
  }

  /** The pixel i steps ahead in x and j steps ahead in y lies between the end points along the
      major axis and is the nearest one to the ideal line on the minor axis. */
  predicate StepsDown(s: Segment, i: int, j: int) {
    && 0 <= i <= s.Dx() && 0 <= j <= s.Dy()
    && if s.Flat() then NearestDown(i, j, s.Dx(), s.Dy()) else NearestDown(j, i, s.Dy(), s.Dx())
  }

  predicate StepsUp(s: Segment, i: int, j: int) {
    && 0 <= i <= s.Dx() && 0 <= j <= s.Dy()
    && if s.Flat() then NearestUp(i, j, s.Dx(), s.Dy()) else NearestUp(j, i, s.Dy(), s.Dx())
  }

  predicate OnLineDown(s: Segment, x: int, y: int) {
    StepsDown(s, Along(x, s.x0, s.x1), Along(y, s.y0, s.y1))
  }

  predicate OnLineUp(s: Segment, x: int, y: int) {
    StepsUp(s, Along(x, s.x0, s.x1), Along(y, s.y0, s.y1))
  }

  /** Steps of a pixel along the major axis */
  function Progress(s: Segment, x: int, y: int): int {
    if s.Flat() then Along(x, s.x0, s.x1) else Along(y, s.y0, s.y1)
  }

  lemma NearestUnique(k: int, j: int, j': int, major: nat, minor: nat)
    requires || (NearestDown(k, j, major, minor) && NearestDown(k, j', major, minor))
             || (NearestUp(k, j, major, minor) && NearestUp(k, j', major, minor))
    ensures j == j'
  {
    if major > 0 {
      assert (j - j') * major == j * major - j' * major;
      SmallMultiple(j - j', major);
    }
  }

  /** The nearest minor coordinate stays within the line and starts and ends at its end points. */
  lemma NearestRange(k: int, j: int, major: nat, minor: nat)
    requires NearestDown(k, j, major, minor) || NearestUp(k, j, major, minor)
    requires 0 <= k <= major && minor <= major
    ensures 0 <= j <= minor
    ensures k == 0 ==> j == 0
    ensures k == major ==> j == minor
  {
    if major > 0 {
      ProductOrder(0, k, minor);
      ProductOrder(k, major, minor);
      var p := k * minor;
      assert 0 <= p <= major * minor && -(major as int) <= 2 * (j * major - p) <= major;
      NearestBounds(j, p, major, minor);
    }
  }

  lemma NearestBounds(j: int, p: int, major: nat, minor: nat)
    requires major > 0 && 0 <= p <= major * minor && -(major as int) <= 2 * (j * major - p) <= major
    ensures 0 <= j <= minor
    ensures p == 0 ==> j == 0
    ensures p == major * minor ==> j == minor
  {
    ProductOrder(j, -1, major);
    ProductOrder(1, j, major);
    ProductOrder(minor + 1, j, major);
    ProductOrder(j, minor - 1, major);
    assert (minor + 1) * major == major * minor + major && (minor - 1) * major == major * minor - major;
  }

  /** One step along the major axis */
  lemma NearestStep(k: int, j: int, major: nat, minor: nat)
    requires minor <= major && major > 0
    ensures NearestDown(k, j, major, minor) ==>
      NearestDown(k + 1, if 2 * (j * major - k * minor - minor) < -(major as int) then j + 1 else j, major, minor)
    ensures NearestUp(k, j, major, minor) ==>
      NearestUp(k + 1, if 2 * (j * major - k * minor - minor) <= -(major as int) then j + 1 else j, major, minor)
  {
    assert (k + 1) * minor == k * minor + minor;
    assert (j + 1) * major == j * major + major;
  }

  /** Either algorithm draws exactly one pixel for every step along the major axis,
      so one more than the larger coordinate difference, from end point to end point. */
  lemma OnePixelPerStep(s: Segment, x: int, y: int, x': int, y': int)
    requires || (OnLineDown(s, x, y) && OnLineDown(s, x', y'))
             || (OnLineUp(s, x, y) && OnLineUp(s, x', y'))
    ensures Progress(s, x, y) == Progress(s, x', y') ==> x == x' && y == y'
    ensures Progress(s, x, y) == 0 ==> x == s.x0 && y == s.y0
    ensures Progress(s, x, y) == s.Major() ==> x == s.x1 && y == s.y1
  {
    hide NearestDown, NearestUp;
    var i, j := Along(x, s.x0, s.x1), Along(y, s.y0, s.y1);
    var i', j' := Along(x', s.x0, s.x1), Along(y', s.y0, s.y1);
    if s.Flat() {
      NearestRange(i, j, s.Dx(), s.Dy());
      if i == i' {
        NearestUnique(i, j, j', s.Dx(), s.Dy());
      }
    } else {
      NearestRange(j, i, s.Dy(), s.Dx());
      if j == j' {
        NearestUnique(j, i, i', s.Dy(), s.Dx());
      }
    }
  }

  /** Every pixel drawn is within half a pixel of the ideal line on the minor axis. */
  lemma HalfPixel(s: Segment, x: int, y: int)
    requires OnLineDown(s, x, y) || OnLineUp(s, x, y)
    ensures var i, j := Along(x, s.x0, s.x1), Along(y, s.y0, s.y1);
      Abs(2 * (j * s.Dx() - i * s.Dy())) <= s.Major()
  {
    var i, j := Along(x, s.x0, s.x1), Along(y, s.y0, s.y1);
    if !s.Flat() {
      assert 2 * (i * s.Dy() - j * s.Dx()) == -(2 * (j * s.Dx() - i * s.Dy()));
    }
  }

  /** The vector from the start of the line to the pixel, times the one from the start to the end: twice
      the area between pixel and line. It is 0 on the ideal line. */
  function Cross(s: Segment, x: int, y: int): int {
    (y - s.y0) * (s.x1 - s.x0) - (x - s.x0) * (s.y1 - s.y0)
  }

  predicate InBox(s: Segment, x: int, y: int) {
    Min(s.x0, s.x1) <= x <= Max(s.x0, s.x1) && Min(s.y0, s.y1) <= y <= Max(s.y0, s.y1)
  }

  lemma CrossOfSteps(s: Segment, x: int, y: int)
    ensures var i, j := Along(x, s.x0, s.x1), Along(y, s.y0, s.y1);
      && (InBox(s, x, y) <==> 0 <= i <= s.Dx() && 0 <= j <= s.Dy())
      && Abs(2 * Cross(s, x, y)) == Abs(2 * (j * s.Dx() - i * s.Dy()))
  {
    var i, j, dx, dy := Along(x, s.x0, s.x1), Along(y, s.y0, s.y1), s.Dx() as int, s.Dy() as int;
    var a, b := s.x1 - s.x0, s.y1 - s.y0;
    var sx, sy := if s.x0 < s.x1 then 1 else -1, if s.y0 < s.y1 then 1 else -1;
    assert a == sx * dx && b == sy * dy && x - s.x0 == sx * i && y - s.y0 == sy * j;
    SignedProducts(i, j, dx, dy, sx, sy);
  }

  lemma SignedProducts(i: int, j: int, dx: int, dy: int, sx: int, sy: int)
    requires (sx == 1 || sx == -1) && (sy == 1 || sy == -1)
    ensures (sy * j) * (sx * dx) - (sx * i) * (sy * dy) == (sx * sy) * (j * dx - i * dy)
  {
    if sx == 1 && sy == 1 {
    } else if sx == 1 {
      assert (-j) * dx == -(j * dx) && i * (-dy) == -(i * dy);
    } else if sy == 1 {
      assert j * (-dx) == -(j * dx) && (-i) * dy == -(i * dy);
    } else {
      assert (-j) * (-dx) == j * dx && (-i) * (-dy) == i * dy;
    }
  }

  /** In coordinates: a pixel of either line lies between the end points and at most half a pixel beside
      the ideal line, and every pixel less than half a pixel beside it belongs to both. */
  lemma NearIdealLine(s: Segment, x: int, y: int)
    requires s.Major() > 0
    ensures OnLineDown(s, x, y) || OnLineUp(s, x, y) <==> InBox(s, x, y) && Abs(2 * Cross(s, x, y)) <= s.Major()
    ensures OnLineDown(s, x, y) && OnLineUp(s, x, y) <==> InBox(s, x, y) && Abs(2 * Cross(s, x, y)) < s.Major()
  {
    CrossOfSteps(s, x, y);
    hide Cross, InBox;
    var i, j := Along(x, s.x0, s.x1), Along(y, s.y0, s.y1);
    if !s.Flat() {
      assert 2 * (i * s.Dy() - j * s.Dx()) == -(2 * (j * s.Dx() - i * s.Dy()));
    }
  }

  /** The two line algorithms of the system draw different pixels exactly where the ideal line
      passes half way between two pixels. */
  lemma AlgorithmsDifferExactlyOnTies(s: Segment, x: int, y: int)
    requires s.Major() > 0
    ensures OnLineDown(s, x, y) != OnLineUp(s, x, y) <==>
      var i, j := Along(x, s.x0, s.x1), Along(y, s.y0, s.y1);
      0 <= i <= s.Dx() && 0 <= j <= s.Dy() && Abs(2 * (j * s.Dx() - i * s.Dy())) == s.Major()
  {
    var i, j := Along(x, s.x0, s.x1), Along(y, s.y0, s.y1);
    if !s.Flat() {
      assert 2 * (i * s.Dy() - j * s.Dx()) == -(2 * (j * s.Dx() - i * s.Dy()));
    }
  }
}
