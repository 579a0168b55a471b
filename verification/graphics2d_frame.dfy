/** Drawing into a frame in place (circle/lib/2dgraphics.cpp). */
module Graphics2D {
  import opened Basics
  import opened Raster
  import opened CircleSpec

  type Color = uint32

  /** Index of a pixel in a frame stored row by row */
  function PixelIndex(w: nat, h: nat, x: int, y: int): (i: nat)
    requires InFrame(x, y, w, h)
    ensures i < w * h
  {
    ProductOrder(y + 1, h, w);
    ProductSign(y, w);
    assert (y + 1) * w == y * w + w;
    w * y + x
  }

  /** Every pixel has a place of its own. */
  lemma SamePixel(w: nat, h: nat, x: int, y: int, px: int, py: int)
    requires InFrame(x, y, w, h) && InFrame(px, py, w, h)
    ensures PixelIndex(w, h, x, y) == PixelIndex(w, h, px, py) ==> x == px && y == py
  {
    if PixelIndex(w, h, x, y) == PixelIndex(w, h, px, py) {
      assert (y - py) * w == w * y - w * py;
      SmallMultiple(y - py, w);
    }
  }

  /** A frame as a value: the pixels row by row */
  datatype Frame = Frame(w: nat, h: nat, data: seq<Color>) {
    predicate Valid() {
      |data| == w * h
    }

    function At(x: int, y: int): Color
      requires Valid() && InFrame(x, y, w, h)
    {
      data[PixelIndex(w, h, x, y)]
    }
  }

  ghost predicate SameShape(f: Frame, g: Frame) {
    f.Valid() && g.Valid() && f.w == g.w && f.h == g.h
  }

  ghost predicate PixelSet(f: Frame, g: Frame, x: int, y: int, c: Color) {
    && SameShape(f, g)
    && forall px, py | InFrame(px, py, f.w, f.h) :: g.At(px, py) == if px == x && py == y then c else f.At(px, py)
  }

  /** The outline up to a row of the octant has been drawn, and nothing else has changed. */
  ghost predicate OutlineUpTo(f: Frame, g: Frame, cx: int, cy: int, r: nat, row: int, c: Color) {
    && SameShape(f, g)
    && forall px, py | InFrame(px, py, f.w, f.h) ::
        g.At(px, py) ==
          if OnOutline(px - cx, py - cy, r) && Min(Abs(px - cx), Abs(py - cy)) <= row then c else f.At(px, py)
  }

  ghost predicate OutlineDrawn(f: Frame, g: Frame, cx: int, cy: int, r: uint32, c: Color) {
    && SameShape(f, g)
    && forall px, py | InFrame(px, py, f.w, f.h) ::
        g.At(px, py) == if Written(px - cx, py - cy, r) then c else f.At(px, py)
  }

  ghost predicate CornersSet(f: Frame, g: Frame, cx: int, cy: int, x: int, y: int, c: Color) {
    && SameShape(f, g)
    && forall px, py | InFrame(px, py, f.w, f.h) ::
        g.At(px, py) == if Abs(px - cx) == x && Abs(py - cy) == y then c else f.At(px, py)
  }

  lemma FourCorners(f0: Frame, f1: Frame, f2: Frame, f3: Frame, f4: Frame, cx: int, cy: int, x: nat, y: nat, c: Color)
    requires PixelSet(f0, f1, cx + x, cy + y, c) && PixelSet(f1, f2, cx - x, cy + y, c)
    requires PixelSet(f2, f3, cx + x, cy - y, c) && PixelSet(f3, f4, cx - x, cy - y, c)
    ensures CornersSet(f0, f4, cx, cy, x, y, c)
  {
    hide Frame.At;
  }

  lemma RowExtendsOutline(f: Frame, g1: Frame, g2: Frame, g3: Frame, cx: int, cy: int, r: nat, x: int, y: int, c: Color)
    requires r > 0 && 0 < y <= x && NearCircle(x, y, r)
    requires OutlineUpTo(f, g1, cx, cy, r, y - 1, c) && CornersSet(g1, g2, cx, cy, x, y, c)
    requires if x == y then g3 == g2 else CornersSet(g2, g3, cx, cy, y, x, c)
    ensures OutlineUpTo(f, g3, cx, cy, r, y, c)
  {
    hide Frame.At, OnCircle, NearCircle;
    forall px, py | InFrame(px, py, f.w, f.h)
      ensures g3.At(px, py) ==
        if OnOutline(px - cx, py - cy, r) && Min(Abs(px - cx), Abs(py - cy)) <= y then c else f.At(px, py)
    {
      RowPixels(x, y, r, px - cx, py - cy);
    }
  }

  lemma LastRowCompletesOutline(f: Frame, g: Frame, cx: int, cy: int, r: uint32, row: int, c: Color)
    requires 0 < r < 0x8000_0000 && LastRow(row, r) && OutlineUpTo(f, g, cx, cy, r, row, c)
    ensures OutlineDrawn(f, g, cx, cy, r, c)
  {
    hide Frame.At, NearCircle;
  }

  /** Exactly the word of the pixel in a buffer with rows of that width has been written. */
  ghost predicate WordWritten(before: seq<Color>, after: seq<Color>, width: nat, x: nat, y: nat, c: Color) {
    var i := width * y + x;
    0 <= i < |before| && after == before[i := c]
  }

  class C2DGraphics {
    const width: nat
    const height: nat
    const buffer: array<Color>

    ghost predicate Valid() {
      width <= MAX_FRAME && height <= MAX_FRAME && buffer.Length == width * height
    }

    constructor (width: nat, height: nat)
      requires width <= MAX_FRAME && height <= MAX_FRAME
      ensures Valid() && this.width == width && this.height == height && fresh(buffer)
    {
      this.width := width;
      this.height := height;
      ProductSign(width, height);
      buffer := new Color[width * height](_ => 0);
    }

    ghost function Value(): (f: Frame)
      requires Valid()
      reads buffer
      ensures f.Valid() && f.w == width && f.h == height
    {
      Frame(width, height, buffer[..])
    }

    /** SetPixel does not check its coordinates. */
    method SetPixel(nX: uint32, nY: uint32, nColor: Color)
      requires Valid() && InFrame(nX, nY, width, height)
      modifies buffer
      ensures PixelSet(old(Value()), Value(), nX, nY, nColor)
      ensures WordWritten(old(buffer[..]), buffer[..], width, nX, nY, nColor)
    {
      ghost var f := Value();
      assert PixelIndex(width, height, nX, nY) == width * nY + nX;
      forall px, py | InFrame(px, py, width, height)
        ensures PixelIndex(width, height, nX, nY) == PixelIndex(width, height, px, py) ==> nX == px && nY == py
      {
        SamePixel(width, height, nX, nY, px, py);
      }
      hide PixelIndex;
      buffer[PixelIndex(width, height, nX, nY)] := nColor;
    }

    /** Four of the eight SetPixel calls of one round of the loop of DrawCircleOutline */
    method SetCorners(nX: uint32, nY: uint32, x: uint32, y: uint32, nColor: Color)
      requires Valid() && x <= nX && nX + x < width && y <= nY && nY + y < height
      modifies buffer
      ensures CornersSet(old(Value()), Value(), nX, nY, x, y, nColor)
    {
      hide PixelSet, WordWritten, CornersSet;
      ghost var f0 := Value();
      SetPixel(Wrap(x + nX), Wrap(y + nY), nColor);
      ghost var f1 := Value();
      SetPixel(Wrap(nX - x), Wrap(y + nY), nColor);
      ghost var f2 := Value();
      SetPixel(Wrap(x + nX), Wrap(nY - y), nColor);
      ghost var f3 := Value();
      SetPixel(Wrap(nX - x), Wrap(nY - y), nColor);
      FourCorners(f0, f1, f2, f3, Value(), nX, nY, x, y, nColor);
    }

    /** For every radius with which the arithmetic of the candidates does not overflow: below 32768
        exactly the pixels nearer to the centre than the radius are set, from there on none. */
    method DrawCircle(nX: uint32, nY: uint32, nRadius: uint32, nColor: Color)
      requires Valid()
      requires GuardPasses(nX, nY, nRadius, width, height) ==> DiscFits(nRadius)
      modifies buffer
      ensures if GuardPasses(nX, nY, nRadius, width, height) && nRadius < 0x8000
              then DiscDrawn(old(Value()), Value(), nX, nY, nRadius, nColor) else Value() == old(Value())
      ensures nRadius < 0x8000 && CircleInside(nX, nY, nRadius, width, height) ==>
        DiscDrawn(old(Value()), Value(), nX, nY, nRadius, nColor)
      ensures nRadius >= 0x8000 || !CircleInside(nX, nY, nRadius, width, height) ==> Value() == old(Value())
    {
      if nRadius < 0x8000 {
        GuardIff(nX, nY, nRadius, width, height);
      }
      if Wrap(nX + nRadius) >= width || Wrap(nY + nRadius) >= height
         || Wrap(nX - nRadius) >= width || Wrap(nY - nRadius) >= height {
        return;
      }
      hide DiscUpTo, DiscDrawn, PixelSet, WordWritten, Frame.At, Candidate, Wrap, Signed, DiscFits, SquareSum;
      ghost var f := Value();
      var r2 := Signed(Wrap(nRadius * nRadius));
      var area := Wrap(4 * Wrap(nRadius * nRadius));
      var rr := Wrap(nRadius * 2);
      DiscStart(f, nX, nY, nRadius, nColor);
      for i := 0 to area
        invariant if nRadius < 0x8000 then DiscUpTo(f, Value(), nX, nY, nRadius, i, nColor) else Value() == f
      {
        DividerPositive(nRadius);
        var tx, ty := Signed(Wrap(Rest(i, rr) - nRadius)), Signed(Wrap(Quotient(i, rr) - nRadius));
        assert tx == CandidateX(i, nRadius) && ty == CandidateY(i, nRadius);
        ghost var g := Value();
        if nRadius < 0x8000 {
          SmallDisc(i, nRadius);
        } else {
          LargeDisc(i, nRadius);
        }
        if tx * tx + ty * ty < r2 {
          SmallRadius(nX, nY, nRadius, width, height);
          InsideReach(tx, ty, nRadius);
          StaysInside(nX, nY, nRadius, width, height, tx, ty);
          SetPixel(Wrap(nX + tx), Wrap(nY + ty), nColor);
        }
        if nRadius < 0x8000 {
          DiscExtends(f, g, Value(), nX, nY, nRadius, i, tx, ty, nColor);
        }
      }
      if nRadius < 0x8000 {
        SmallArea(nRadius);
        DiscEnd(f, Value(), nX, nY, nRadius, nColor);
      }
    }

    /** The SetPixel calls before the loop of DrawCircleOutline */
    method SetAxisPixels(nX: uint32, nY: uint32, nRadius: uint32, nColor: Color)
      requires Valid() && GuardPasses(nX, nY, nRadius, width, height) && InFrame(nX, nY, width, height)
      modifies buffer
      ensures Signed(nRadius) > 0 ==> OutlineUpTo(old(Value()), Value(), nX, nY, nRadius, 0, nColor)
      ensures Signed(nRadius) <= 0 ==> OutlineDrawn(old(Value()), Value(), nX, nY, nRadius, nColor)
    {
      hide Frame.At, PixelSet, WordWritten, OutlineUpTo, OutlineDrawn;
      ghost var f0 := Value();
      GuardKeepsInside(nX, nY, nRadius, width, height);
      SetPixel(Wrap(nRadius + nX), nY, nColor);
      ghost var f1 := Value();
      if nRadius > 0 {
        SetPixel(nX, Wrap(nY - nRadius), nColor);
        ghost var f2 := Value();
        SetPixel(Wrap(nRadius + nX), nY, nColor);
        ghost var f3 := Value();
        SetPixel(nX, Wrap(nRadius + nY), nColor);
        AxisDrawn(f0, f1, f2, f3, Value(), nX, nY, nRadius, nColor);
      } else {
        PointDrawn(f0, f1, nX, nY, nColor);
      }
    }

    lemma OutlineGuard(nX: uint32, nY: uint32, r: uint32)
      requires Valid() && (GuardPasses(nX, nY, r, width, height) ==> InFrame(nX, nY, width, height))
      ensures r < 0x8000_0000 ==>
        (GuardPasses(nX, nY, r, width, height) <==> CircleInside(nX, nY, r, width, height))
    {
      if r < 0x8000_0000 && InFrame(nX, nY, width, height) {
        GuardIff(nX, nY, r, width, height);
      }
    }

    /** Sets exactly the pixels of the digital circle except the leftmost one. */
    method DrawCircleOutline(nX: uint32, nY: uint32, nRadius: uint32, nColor: Color)
      requires Valid()
      requires GuardPasses(nX, nY, nRadius, width, height) ==> InFrame(nX, nY, width, height)
      modifies buffer
      ensures if GuardPasses(nX, nY, nRadius, width, height)
              then OutlineDrawn(old(Value()), Value(), nX, nY, nRadius, nColor) else Value() == old(Value())
      ensures nRadius < 0x8000_0000 && CircleInside(nX, nY, nRadius, width, height) ==>
        OutlineDrawn(old(Value()), Value(), nX, nY, nRadius, nColor)
      ensures nRadius < 0x8000_0000 && !CircleInside(nX, nY, nRadius, width, height) ==> Value() == old(Value())
    {
      OutlineGuard(nX, nY, nRadius);
      if Wrap(nX + nRadius) >= width || Wrap(nY + nRadius) >= height
         || Wrap(nX - nRadius) >= width || Wrap(nY - nRadius) >= height {
        return;
      }
      hide Frame.At, NearCircle, OnCircle, AtPoint, PixelSet, WordWritten, CornersSet, OutlineUpTo, OutlineDrawn, Wrap;
      ghost var f0 := Value();
      SetAxisPixels(nX, nY, nRadius, nColor);
      GuardKeepsInside(nX, nY, nRadius, width, height);
      var r := nRadius;
      InitialDecision(nRadius);
      var p: int32 := Signed(Wrap(1 - nRadius));
      var y := 0;
      if 0 < Signed(nRadius) {
        FirstPoint(nRadius);
      }
      while Signed(r) > y
        invariant 0 <= y && r <= nRadius
        invariant if Signed(nRadius) > 0 then y <= r && AtPoint(r, y, p, nRadius) else r == nRadius && y == 0
        invariant Signed(nRadius) > 0 ==> OutlineUpTo(f0, Value(), nX, nY, nRadius, y, nColor)
        invariant Signed(nRadius) <= 0 ==> OutlineDrawn(f0, Value(), nX, nY, nRadius, nColor)
        decreases nRadius - y
      {
        ghost var x0, p0 := r, p;
        NextPoint(r, y, p, nRadius);
        DecisionFits(r, y, p, nRadius);
        y := y + 1;
        if p <= 0 {
          p := p + 2 * y + 1;
        } else {
          r := r - 1;
          p := p + 2 * y - 2 * r + 1;
        }
        if r < y {
          EndsByBreak(y - 1, p0, nRadius);
          LastRowCompletesOutline(f0, Value(), nX, nY, nRadius, y - 1, nColor);
          return;
        }
        PointIsNear(r, y, p, nRadius);
        ghost var g := Value();
        SetCorners(nX, nY, r, y, nColor);
        ghost var h := Value();
        if r != y {
          SetCorners(nX, nY, y, r, nColor);
        }
        RowExtendsOutline(f0, g, h, Value(), nX, nY, nRadius, r, y, nColor);
      }
      if Signed(nRadius) > 0 {
        PointIsNear(r, y, p, nRadius);
        EndsOnDiagonal(y, nRadius);
        LastRowCompletesOutline(f0, Value(), nX, nY, nRadius, y, nColor);
      }
    }

    /** Sets exactly the pixels of the line, if both end points are in the frame. */
    method DrawLine(nX1: uint32, nY1: uint32, nX2: uint32, nY2: uint32, nColor: Color)
      requires Valid()
      modifies buffer
      ensures if InFrame(nX1, nY1, width, height) && InFrame(nX2, nY2, width, height)
              then LineUpTo(old(Value()), Value(), Segment(nX1, nY1, nX2, nY2),
                            Segment(nX1, nY1, nX2, nY2).Major() + 1, nColor)
              else Value() == old(Value())
    {
      if nX1 >= width || nY1 >= height || nX2 >= width || nY2 >= height {
        return;
      }
      hide LineUpTo, PixelSet, WordWritten, Frame.At;
      var s := Segment(nX1, nY1, nX2, nY2);
      ghost var f := Value();
      SetPixel(nX1, nY1, nColor);
      UpStart(f, Value(), s, nColor);
      if s.Flat() {
        DrawFlat(s, nColor, f);
      } else {
        DrawSteep(s, nColor, f);
      }
    }

    /** The loop of DrawLine for lines that are at least as wide as high */
    method DrawFlat(s: Segment, nColor: Color, ghost f: Frame)
      requires Valid() && s.Flat()
      requires InFrame(s.x0, s.y0, width, height) && InFrame(s.x1, s.y1, width, height)
      requires LineUpTo(f, Value(), s, 1, nColor)
      modifies buffer
      ensures LineUpTo(f, Value(), s, s.Major() + 1, nColor)
    {
      hide LineUpTo, PixelSet, WordWritten, StepsUp, Frame.At, UpAt, OnLineUp, Progress, NearestUp;
      var dx: int32 := s.x1 - s.x0;
      var dy: int32 := s.y1 - s.y0;
      var dxabs := if dx > 0 then dx else -dx;
      var dyabs := if dy > 0 then dy else -dy;
      var sgndx: int := if dx > 0 then 1 else -1;
      var sgndy: int := if dy > 0 then 1 else -1;
      var y: int32 := dxabs / 2;
      var px, py := s.x0, s.y0;
      ghost var j := 0;
      UpBegin(s, dxabs, dyabs);
      hide Ahead, InFrame;
      for n := 0 to dxabs
        invariant UpAt(n, j, y, dxabs, dyabs) && 0 <= y <= dxabs && StepsUp(s, n, j) && 0 <= j <= dyabs
        invariant px == Ahead(n, s.x0, s.x1) && py == Ahead(j, s.y0, s.y1)
        invariant LineUpTo(f, Value(), s, n + 1, nColor)
      {
        UpRound(n, j, y, dxabs, dyabs);
        UpOnLine(s, n + 1, if y + dyabs >= dxabs then j + 1 else j);
        AheadNext(n, s.x0, s.x1);
        AheadNext(j, s.y0, s.y1);
        y := y + dyabs;
        if y >= dxabs {
          y := y - dxabs;
          py := py + sgndy;
          j := j + 1;
        }
        px := px + sgndx;
        UpPixel(s, n + 1, j);
        AheadInside(s, n + 1, j, width, height);
        ghost var g := Value();
        SetPixel(px, py, nColor);
        UpExtends(f, g, Value(), s, px, py, nColor);
      }
    }

    /** The loop of DrawLine for lines that are higher than wide */
    method DrawSteep(s: Segment, nColor: Color, ghost f: Frame)
      requires Valid() && !s.Flat()
      requires InFrame(s.x0, s.y0, width, height) && InFrame(s.x1, s.y1, width, height)
      requires LineUpTo(f, Value(), s, 1, nColor)
      modifies buffer
      ensures LineUpTo(f, Value(), s, s.Major() + 1, nColor)
    {
      hide LineUpTo, PixelSet, WordWritten, StepsUp, Frame.At, UpAt, OnLineUp, Progress, NearestUp;
      var dx: int32 := s.x1 - s.x0;
      var dy: int32 := s.y1 - s.y0;
      var dxabs := if dx > 0 then dx else -dx;
      var dyabs := if dy > 0 then dy else -dy;
      var sgndx: int := if dx > 0 then 1 else -1;
      var sgndy: int := if dy > 0 then 1 else -1;
      var x: int32 := dyabs / 2;
      var px, py := s.x0, s.y0;
      ghost var i := 0;
      UpBegin(s, dyabs, dxabs);
      hide Ahead, InFrame;
      for n := 0 to dyabs
        invariant UpAt(n, i, x, dyabs, dxabs) && 0 <= x <= dyabs && StepsUp(s, i, n) && 0 <= i <= dxabs
        invariant px == Ahead(i, s.x0, s.x1) && py == Ahead(n, s.y0, s.y1)
        invariant LineUpTo(f, Value(), s, n + 1, nColor)
      {
        UpRound(n, i, x, dyabs, dxabs);
        UpOnLine(s, if x + dxabs >= dyabs then i + 1 else i, n + 1);
        AheadNext(n, s.y0, s.y1);
        AheadNext(i, s.x0, s.x1);
        x := x + dxabs;
        if x >= dyabs {
          x := x - dyabs;
          px := px + sgndx;
          i := i + 1;
        }
        py := py + sgndy;
        UpPixel(s, i, n + 1);
        AheadInside(s, i, n + 1, width, height);
        ghost var g := Value();
        SetPixel(px, py, nColor);
        UpExtends(f, g, Value(), s, px, py, nColor);
      }
    }

    /** Sets exactly the rectangle if it lies inside the frame, else nothing: the guard wraps at
        32 bits, but so do the bounds of the loops. */
    method DrawRect(nX: uint32, nY: uint32, nWidth: uint32, nHeight: uint32, nColor: Color)
      requires Valid()
      modifies buffer
      ensures RectUpTo(old(Value()), Value(), nX, nY,
                       if nX + nWidth <= width && nY + nHeight <= height then nWidth else 0,
                       nHeight, 0, nColor)
    {
      hide RectUpTo, PixelSet, WordWritten, Frame.At;
      ghost var f := Value();
      NoRect(f, nX, nY, nHeight, nColor);
      if Wrap(nX + nWidth) > width || Wrap(nY + nHeight) > height {
        return;
      }
      var i := nY;
      ghost var w := if nX + nWidth < UINT32_RANGE then nWidth else 0;
      RectStart(f, nX, nY, w, nColor);
      while i < Wrap(nY + nHeight)
        invariant nY <= i && (i <= nY + nHeight < UINT32_RANGE || i == nY)
        invariant RectUpTo(f, Value(), nX, nY, w, i - nY, 0, nColor)
      {
        var j := nX;
        while j < Wrap(nX + nWidth)
          invariant nX <= j && (j <= nX + nWidth < UINT32_RANGE || j == nX)
          invariant RectUpTo(f, Value(), nX, nY, w, i - nY, j - nX, nColor)
        {
          ghost var g := Value();
          SetPixel(j, i, nColor);
          RectPixel(f, g, Value(), nX, nY, w, i - nY, j - nX, nColor);
          j := j + 1;
        }
        RectRow(f, Value(), nX, nY, w, i - nY, nColor);
        i := i + 1;
      }
      RectDone(f, Value(), nX, nY, w, i - nY,
               if nX + nWidth <= width && nY + nHeight <= height then nWidth else 0, nHeight, nColor);
    }
  }

  // ---------------------------------------------------------------- lines

  ghost predicate LineUpTo(f: Frame, g: Frame, s: Segment, steps: int, c: Color) {
    && SameShape(f, g)
    && forall x, y | InFrame(x, y, f.w, f.h) ::
        g.At(x, y) == if OnLineUp(s, x, y) && Progress(s, x, y) < steps then c else f.At(x, y)
  }

  /** State of the loop of DrawLine: the accumulator holds half the major distance plus the deviation. */
  predicate UpAt(n: int, j: int, acc: int, major: nat, minor: nat) {
    && acc == major / 2 + n * minor - j * major
    && (0 <= acc < major || major == 0 == acc)
  }

  lemma UpBegin(s: Segment, major: nat, minor: nat)
    ensures UpAt(0, 0, major / 2, major, minor)
    ensures StepsUp(s, 0, 0) && s.x0 == Ahead(0, s.x0, s.x1) && s.y0 == Ahead(0, s.y0, s.y1)
  {}

  lemma AheadNext(n: int, from: int, to: int)
    ensures Ahead(n + 1, from, to) == Ahead(n, from, to) + if to > from then 1 else -1
  {}

  lemma AheadInside(s: Segment, i: int, j: int, width: nat, height: nat)
    requires InFrame(s.x0, s.y0, width, height) && InFrame(s.x1, s.y1, width, height)
    requires 0 <= i <= s.Dx() && 0 <= j <= s.Dy()
    ensures InFrame(Ahead(i, s.x0, s.x1), Ahead(j, s.y0, s.y1), width, height)
    ensures 0 <= Ahead(i, s.x0, s.x1) < UINT32_RANGE && 0 <= Ahead(j, s.y0, s.y1) < UINT32_RANGE
  {}

  lemma UpRound(n: int, j: int, acc: int, major: nat, minor: nat)
    requires UpAt(n, j, acc, major, minor) && major > 0 && minor <= major
    ensures var over := acc + minor >= major;
      UpAt(n + 1, if over then j + 1 else j, if over then acc + minor - major else acc + minor, major, minor)
    ensures 0 <= acc < major
    ensures var over := acc + minor >= major;
      NearestUp(n + 1, if over then j + 1 else j, major, minor)
  {
    assert (n + 1) * minor == n * minor + minor && (j + 1) * major == j * major + major;
  }

  lemma UpOnLine(s: Segment, i: int, j: int)
    requires 0 <= i && 0 <= j
    requires if s.Flat() then i <= s.Dx() && NearestUp(i, j, s.Dx(), s.Dy())
             else j <= s.Dy() && NearestUp(j, i, s.Dy(), s.Dx())
    ensures StepsUp(s, i, j) && i <= s.Dx() && j <= s.Dy()
  {
    hide NearestUp;
    if s.Flat() {
      NearestRange(i, j, s.Dx(), s.Dy());
    } else {
      NearestRange(j, i, s.Dy(), s.Dx());
    }
  }

  lemma UpPixel(s: Segment, i: int, j: int)
    requires StepsUp(s, i, j)
    ensures var x, y := Ahead(i, s.x0, s.x1), Ahead(j, s.y0, s.y1);
      OnLineUp(s, x, y) && Progress(s, x, y) == if s.Flat() then i else j
  {
    hide NearestUp;
  }

  lemma UpStart(f: Frame, g: Frame, s: Segment, c: Color)
    requires PixelSet(f, g, s.x0, s.y0, c)
    ensures StepsUp(s, 0, 0) && LineUpTo(f, g, s, 1, c)
  {
    assert OnLineUp(s, s.x0, s.y0);
    hide Frame.At, OnLineUp, Progress;
    forall x, y | InFrame(x, y, f.w, f.h)
      ensures g.At(x, y) == if OnLineUp(s, x, y) && Progress(s, x, y) < 1 then c else f.At(x, y)
    {
      ProgressRange(s, x, y);
      ProgressRange(s, s.x0, s.y0);
      if OnLineUp(s, x, y) {
        OnePixelPerStep(s, x, y, s.x0, s.y0);
      }
    }
  }

  lemma ProgressRange(s: Segment, x: int, y: int)
    ensures OnLineUp(s, x, y) ==> 0 <= Progress(s, x, y) <= s.Major()
    ensures Progress(s, s.x0, s.y0) == 0
  {
    hide NearestUp;
  }

  lemma UpExtends(f: Frame, g1: Frame, g2: Frame, s: Segment, x: int, y: int, c: Color)
    requires OnLineUp(s, x, y) && LineUpTo(f, g1, s, Progress(s, x, y), c) && PixelSet(g1, g2, x, y, c)
    ensures LineUpTo(f, g2, s, Progress(s, x, y) + 1, c)
  {
    hide Frame.At, OnLineUp, Progress;
    forall px, py | InFrame(px, py, f.w, f.h)
      ensures g2.At(px, py) ==
        if OnLineUp(s, px, py) && Progress(s, px, py) < Progress(s, x, y) + 1 then c else f.At(px, py)
    {
      if OnLineUp(s, px, py) {
        OnePixelPerStep(s, x, y, px, py);
      }
    }
  }

  // ---------------------------------------------------------------- rectangles

  /** Of a rectangle the given number of rows and of pixels of the next row have been set. */
  ghost predicate RectUpTo(f: Frame, g: Frame, left: int, top: int, w: nat, rows: int, columns: int, c: Color) {
    && SameShape(f, g)
    && forall x, y | InFrame(x, y, f.w, f.h) ::
        g.At(x, y) == if left <= x < left + w && top <= y && (y < top + rows || (y == top + rows && x < left + columns))
                      then c else f.At(x, y)
  }

  lemma NoRect(f: Frame, left: int, top: int, rows: int, c: Color)
    requires f.Valid()
    ensures RectUpTo(f, f, left, top, 0, rows, 0, c)
  {
    hide Frame.At;
  }

  lemma RectStart(f: Frame, left: int, top: int, w: nat, c: Color)
    requires f.Valid()
    ensures RectUpTo(f, f, left, top, w, 0, 0, c)
  {
    hide Frame.At;
  }

  lemma RectPixel(f: Frame, g1: Frame, g2: Frame, left: int, top: int, w: nat, rows: nat, columns: nat, c: Color)
    requires columns < w && RectUpTo(f, g1, left, top, w, rows, columns, c)
    requires PixelSet(g1, g2, left + columns, top + rows, c)
    ensures RectUpTo(f, g2, left, top, w, rows, columns + 1, c)
  {
    hide Frame.At;
  }

  lemma RectRow(f: Frame, g: Frame, left: int, top: int, w: nat, rows: nat, c: Color)
    requires RectUpTo(f, g, left, top, w, rows, w, c)
    ensures RectUpTo(f, g, left, top, w, rows + 1, 0, c)
  {
    hide Frame.At;
  }

  lemma RectDone(f: Frame, g: Frame, left: int, top: int, w: nat, rows: nat, w': nat, rows': nat, c: Color)
    requires RectUpTo(f, g, left, top, w, rows, 0, c)
    requires (w == w' && rows == rows') || ((w == 0 || rows == 0) && (w' == 0 || rows' == 0))
    ensures RectUpTo(f, g, left, top, w', rows', 0, c)
  {
    hide Frame.At;
  }

  // ---------------------------------------------------------------- circles

  lemma InitialDecision(r: uint32)
    ensures -0x8000_0000 <= Signed(Wrap(1 - r)) < 0x8000_0000
    ensures Signed(r) > 0 ==> Signed(Wrap(1 - r)) == 1 - r
  {}

  lemma PointIsNear(x: int, y: int, p: int, r: nat)
    requires AtPoint(x, y, p, r)
    ensures NearCircle(x, y, r)
  {}

  lemma PointDrawn(f0: Frame, f1: Frame, cx: int, cy: int, c: Color)
    requires PixelSet(f0, f1, cx, cy, c)
    ensures OutlineDrawn(f0, f1, cx, cy, 0, c)
  {
    hide Frame.At;
  }

  /** The axis pixels: the whole of row 0 without its leftmost pixel, or all there is for a
      radius that acts like a negative number. */
  lemma AxisDrawn(f0: Frame, f1: Frame, f2: Frame, f3: Frame, f4: Frame, cx: int, cy: int, r: uint32, c: Color)
    requires r > 0
    requires PixelSet(f0, f1, cx + Signed(r), cy, c) && PixelSet(f1, f2, cx, cy - Signed(r), c)
    requires PixelSet(f2, f3, cx + Signed(r), cy, c) && PixelSet(f3, f4, cx, cy + Signed(r), c)
    ensures Signed(r) > 0 ==> OutlineUpTo(f0, f4, cx, cy, r, 0, c)
    ensures Signed(r) <= 0 ==> OutlineDrawn(f0, f4, cx, cy, r, c)
  {
    hide Frame.At, NearCircle, OnCircle;
    if Signed(r) > 0 {
      FirstPoint(r);
      forall px, py | InFrame(px, py, f0.w, f0.h)
        ensures f4.At(px, py) ==
          if OnOutline(px - cx, py - cy, r) && Min(Abs(px - cx), Abs(py - cy)) <= 0 then c else f0.At(px, py)
      {
        RowPixels(r, 0, r, px - cx, py - cy);
      }
    }
  }

  lemma SmallRadius(nX: uint32, nY: uint32, r: uint32, width: nat, height: nat)
    requires width <= MAX_FRAME && height <= MAX_FRAME && r < 0x8000 && GuardPasses(nX, nY, r, width, height)
    ensures InFrame(nX, nY, width, height)
  {}

  predicate InDisc(dx: int, dy: int, r: nat) {
    dx * dx + dy * dy < r * r
  }

  /** Number of the candidate of the loop of DrawCircle that a pixel is */
  function Candidate(dx: int, dy: int, r: nat): int {
    (dy + r) * (2 * r) + dx + r
  }

  ghost predicate DiscUpTo(f: Frame, g: Frame, cx: int, cy: int, r: nat, i: int, c: Color) {
    && SameShape(f, g)
    && forall x, y | InFrame(x, y, f.w, f.h) ::
        g.At(x, y) == if InDisc(x - cx, y - cy, r) && Candidate(x - cx, y - cy, r) < i then c else f.At(x, y)
  }

  ghost predicate DiscDrawn(f: Frame, g: Frame, cx: int, cy: int, r: nat, c: Color) {
    && SameShape(f, g)
    && forall x, y | InFrame(x, y, f.w, f.h) :: g.At(x, y) == if InDisc(x - cx, y - cy, r) then c else f.At(x, y)
  }

  lemma SquareBound(r: nat)
    requires r < 0x8000
    ensures 0 <= r * r < 0x4000_0000
  {
    ProductOrder(r, 0x7FFF, r);
  }

  lemma InsideReach(dx: int, dy: int, r: nat)
    requires InDisc(dx, dy, r)
    ensures -(r as int) < dx < r && -(r as int) < dy < r
  {
    SquareSmaller(dx, dy, r);
    SquareSmaller(dy, dx, r);
  }

  lemma SquareSmaller(a: int, b: int, r: nat)
    requires a * a + b * b < r * r
    ensures -(r as int) < a < r
  {
    ProductSign(Abs(b), Abs(b));
    ProductOrder(r, Abs(a), r);
    ProductOrder(r, Abs(a), Abs(a));
  }

  /** Pixels of the disc are numbered from 0 to 4 * r * r, each differently. */
  lemma CandidateRange(dx: int, dy: int, r: nat)
    requires InDisc(dx, dy, r)
    ensures 0 <= Candidate(dx, dy, r) < 4 * (r * r)
  {
    InsideReach(dx, dy, r);
    ProductOrder(0, dy + r, 2 * r);
    ProductOrder(dy + r, 2 * r - 1, 2 * r);
    assert (2 * r - 1) * (2 * r) == 4 * (r * r) - 2 * r;
  }

  lemma CandidateUnique(dx: int, dy: int, tx: int, ty: int, r: nat)
    requires -(r as int) <= dx < r && -(r as int) <= tx < r && Candidate(dx, dy, r) == Candidate(tx, ty, r)
    ensures dx == tx && dy == ty
  {
    assert (dy - ty) * (2 * r) == (dy + r) * (2 * r) - (ty + r) * (2 * r);
    SmallMultiple(dy - ty, 2 * r);
  }

  lemma DiscStart(f: Frame, cx: int, cy: int, r: nat, c: Color)
    requires f.Valid()
    ensures DiscUpTo(f, f, cx, cy, r, 0, c)
  {
    hide Frame.At, Candidate, InDisc;
    forall x, y | InFrame(x, y, f.w, f.h)
      ensures InDisc(x - cx, y - cy, r) ==> Candidate(x - cx, y - cy, r) >= 0
    {
      if InDisc(x - cx, y - cy, r) {
        CandidateRange(x - cx, y - cy, r);
      }
    }
  }

  lemma DiscEnd(f: Frame, g: Frame, cx: int, cy: int, r: nat, c: Color)
    requires DiscUpTo(f, g, cx, cy, r, 4 * (r * r), c)
    ensures DiscDrawn(f, g, cx, cy, r, c)
  {
    hide Frame.At, Candidate, InDisc;
    forall x, y | InFrame(x, y, f.w, f.h)
      ensures InDisc(x - cx, y - cy, r) ==> Candidate(x - cx, y - cy, r) < 4 * (r * r)
    {
      if InDisc(x - cx, y - cy, r) {
        CandidateRange(x - cx, y - cy, r);
      }
    }
  }

  lemma DiscExtends(f: Frame, g1: Frame, g2: Frame, cx: int, cy: int, r: nat, i: int, tx: int, ty: int, c: Color)
    requires DiscUpTo(f, g1, cx, cy, r, i, c)
    requires Candidate(tx, ty, r) == i && -(r as int) <= tx < r
    requires if tx * tx + ty * ty < r * r then PixelSet(g1, g2, cx + tx, cy + ty, c) else g2 == g1
    ensures DiscUpTo(f, g2, cx, cy, r, i + 1, c)
  {
    assert InDisc(tx, ty, r) <==> tx * tx + ty * ty < r * r;
    hide Frame.At, Candidate, InDisc;
    forall x, y | InFrame(x, y, f.w, f.h)
      ensures g2.At(x, y) ==
        if InDisc(x - cx, y - cy, r) && Candidate(x - cx, y - cy, r) < i + 1 then c else f.At(x, y)
    {
      if InDisc(x - cx, y - cy, r) && Candidate(x - cx, y - cy, r) == i {
        InsideReach(x - cx, y - cy, r);
        CandidateUnique(x - cx, y - cy, tx, ty, r);
      }
    }
  }

  // ---------------------------------------------------------------- radii of discs

  /** Number of rounds of the loop of DrawCircle */
  function CandidateCount(r: uint32): uint32 {
    Wrap(4 * Wrap(r * r))
  }

  function Quotient(i: nat, d: nat): (q: nat)
    requires d > 0
  {
    i / d
  }

  function Rest(i: nat, d: nat): (m: nat)
    requires d > 0
  {
    i % d
  }

  lemma DivisionEquation(i: nat, d: nat)
    requires d > 0
    ensures i == Quotient(i, d) * d + Rest(i, d) && Rest(i, d) < d
    ensures i < d ==> Quotient(i, d) == 0
  {
    if i < d {
      DivModUnique(i, 0, i, d);
    }
  }

  /** The candidate of a round, relative to the centre */
  function CandidateX(i: uint32, r: uint32): int
    requires Wrap(2 * r) > 0
  {
    Signed(Wrap(Rest(i, Wrap(2 * r)) - r))
  }

  function CandidateY(i: uint32, r: uint32): int
    requires Wrap(2 * r) > 0
  {
    Signed(Wrap(Quotient(i, Wrap(2 * r)) - r))
  }

  /** What a round compares with the square of the radius */
  function SquareSum(i: uint32, r: uint32): int
    requires Wrap(2 * r) > 0
  {
    CandidateX(i, r) * CandidateX(i, r) + CandidateY(i, r) * CandidateY(i, r)
  }

  /** No round overflows a signed word. */
  ghost predicate DiscFits(r: uint32) {
    CandidateCount(r) > 0 ==>
      Wrap(2 * r) > 0 && forall i: uint32 :: i < CandidateCount(r) ==> SquareSum(i, r) < 0x8000_0000
  }

  lemma DividerPositive(r: uint32)
    requires CandidateCount(r) > 0
    ensures Wrap(2 * r) > 0
  {
    assert 0x8000_0000 * 0x8000_0000 == 0x4000_0000 * UINT32_RANGE;
  }

  lemma SmallArea(r: uint32)
    requires r < 0x8000
    ensures CandidateCount(r) == 4 * (r * r) && Wrap(r * r) == r * r && Signed(Wrap(r * r)) == r * r
    ensures Wrap(2 * r) == 2 * r
  {
    SquareBound(r);
    var q := r * r;
    assert Wrap(q) == q && Wrap(4 * q) == 4 * q;
  }

  /** Below 32768 the arithmetic of a round is that of the integers. */
  lemma SmallDisc(i: uint32, r: uint32)
    requires r < 0x8000 && i < CandidateCount(r)
    ensures Wrap(2 * r) > 0 && Signed(Wrap(r * r)) == r * r
    ensures var tx, ty := CandidateX(i, r), CandidateY(i, r);
      Candidate(tx, ty, r) == i && -(r as int) <= tx < r && -(r as int) <= ty < r
  {
    SmallArea(r);
    hide Wrap, Signed, CandidateCount, Quotient, Rest;
    DivisionEquation(i, 2 * r);
    var q, m := Quotient(i, 2 * r), Rest(i, 2 * r);
    QuotientBelow(i, q, m, r);
    SignedSmall(q - r);
    SignedSmall(m - r);
  }

  lemma QuotientBelow(i: nat, q: nat, m: nat, r: nat)
    requires i == q * (2 * r) + m && i < 4 * (r * r)
    ensures q < 2 * r
  {
    ProductOrder(2 * r, q, 2 * r);
    assert (2 * r) * (2 * r) == 4 * (r * r);
  }

  lemma SignedSmall(v: int)
    requires -0x8000_0000 <= v < 0x8000_0000
    ensures Signed(Wrap(v)) == v
  {}

  lemma SmallDiscFits(r: uint32)
    requires r < 0x8000
    ensures DiscFits(r)
  {
    if CandidateCount(r) > 0 {
      DividerPositive(r);
      forall i: uint32 | i < CandidateCount(r)
        ensures SquareSum(i, r) < 0x8000_0000
      {
        SmallDisc(i, r);
        hide CandidateCount, Wrap, Signed;
        var tx, ty := CandidateX(i, r), CandidateY(i, r);
        SquareAtMost(tx, 0x8000);
        SquareAtMost(ty, 0x8000);
        SquareBelow(tx, ty, r);
      }
    }
  }

  lemma SquareAtMost(a: int, m: nat)
    requires -(m as int) <= a <= m
    ensures a * a <= m * m
  {
    ProductOrder(Abs(a), m, Abs(a));
    ProductOrder(Abs(a), m, m);
  }

  lemma SquareBelow(tx: int, ty: int, r: nat)
    requires r < 0x8000 && -(r as int) <= tx < r && -(r as int) <= ty < r
    ensures tx * tx + ty * ty < 0x8000_0000
  {
    SquareAtMost(tx, 0x7FFF);
    SquareAtMost(ty, 0x7FFF);
  }

  /** A word above 2^31 is the negative of s; modulo 2^32 its square is that of s. */
  lemma NegativeSquare(r: uint32, s: nat)
    requires r + s == UINT32_RANGE && s < 0x8000
    ensures Wrap(r * r) == s * s == Signed(Wrap(r * r))
  {
    SquareBound(s);
    assert r * r == (UINT32_RANGE - 2 * s) * UINT32_RANGE + s * s;
    DivModUnique(r * r, UINT32_RANGE - 2 * s, s * s, UINT32_RANGE);
  }

  lemma FirstCandidate(r: uint32)
    requires Wrap(2 * r) > 0
    ensures r < 0x8000_0000 ==> SquareSum(0, r) == 2 * (r * r)
    ensures r > 0x8000_0000 ==> SquareSum(0, r) == 2 * ((UINT32_RANGE - r) * (UINT32_RANGE - r))
  {
    DivisionEquation(0, Wrap(2 * r));
    WordOf(r);
    hide Wrap, Signed, Quotient, Rest;
    var x := CandidateX(0, r);
    assert SquareSum(0, r) == x * x + x * x;
    if r < 0x8000_0000 {
      assert x == -(r as int) && x * x == r * r;
    }
  }

  lemma WordOf(r: uint32)
    ensures Signed(Wrap(0 - r)) == if r <= 0x8000_0000 then -(r as int) else UINT32_RANGE - r
  {}

  /** With a larger radius and no overflow no candidate is set. */
  lemma LargeDisc(i: uint32, r: uint32)
    requires r >= 0x8000 && i < CandidateCount(r) && DiscFits(r)
    ensures Wrap(2 * r) > 0
    ensures var tx, ty := CandidateX(i, r), CandidateY(i, r);
      tx * tx + ty * ty >= Signed(Wrap(r * r))
  {
    DividerPositive(r);
    FirstCandidate(r);
    assert SquareSum(0, r) < 0x8000_0000;
    if r < 0x8000_0000 {
      LargeSquare(r);
    } else {
      assert r != 0x8000_0000;
      var s := UINT32_RANGE - r;
      if s >= 0x8000 {
        LargeSquare(s);
      }
      NegativeDisc(i, r, s);
    }
  }

  lemma LargeSquare(r: nat)
    requires r >= 0x8000
    ensures 2 * (r * r) >= 0x8000_0000
  {
    ProductOrder(0x8000, r, r);
  }

  lemma NegativeDisc(i: uint32, r: uint32, s: nat)
    requires r + s == UINT32_RANGE && 0 < s < 0x8000 && i < CandidateCount(r)
    ensures Wrap(2 * r) > 0
    ensures var tx, ty := CandidateX(i, r), CandidateY(i, r);
      tx * tx + ty * ty >= Signed(Wrap(r * r))
  {
    NegativeSquare(r, s);
    NegativeWords(r, s);
    hide Wrap, Signed, Quotient, Rest;
    DivisionEquation(i, Wrap(2 * r));
    SquareAtMost(0, Abs(CandidateX(i, r)));
  }

  lemma NegativeWords(r: uint32, s: nat)
    requires r + s == UINT32_RANGE && 0 < s < 0x8000
    ensures CandidateCount(r) == 4 * (s * s) < UINT32_RANGE - 2 * s == Wrap(2 * r)
    ensures Signed(Wrap(0 - r)) == s
  {
    NegativeSquare(r, s);
    SquareAtMost(s, 0x7FFF);
    hide Signed;
    var q := s * s;
    assert Wrap(r * r) == q && Wrap(4 * q) == 4 * q;
  }

  /** For every radius from 32768 on the loop ends before it reaches a pixel of the disc. */
  lemma DiscPixelBeyondLoop(r: uint32)
    requires r >= 0x8000
    ensures InDisc(0, r - 1, r) && Candidate(0, r - 1, r) >= CandidateCount(r)
  {
    assert (r - 1) * (r - 1) == r * r - 2 * r + 1;
    assert Candidate(0, r - 1, r) == 4 * (r * r) - r;
    ProductOrder(0x8000, r, r);
    if r == 0x8000 {
      assert CandidateCount(r) == 0;
    } else {
      ProductOrder(0x8001, r, r);
    }
  }

  /** The loop covers the disc exactly if the radius is below 32768. */
  lemma LoopCoversDiscIff(r: uint32)
    ensures (forall dx, dy | InDisc(dx, dy, r) :: 0 <= Candidate(dx, dy, r) < CandidateCount(r)) <==> r < 0x8000
  {
    hide InDisc, Candidate, CandidateCount;
    if r < 0x8000 {
      forall dx, dy | InDisc(dx, dy, r)
        ensures 0 <= Candidate(dx, dy, r) < CandidateCount(r)
      {
        SmallArea(r);
        CandidateRange(dx, dy, r);
      }
    } else {
      DiscPixelBeyondLoop(r);
    }
  }

  /** An input without an overflow for which nothing is drawn, although the disc is in the frame */
  lemma LargeDiscInput()
    ensures GuardPasses(0x9000, 0x9000, 0x8000, 0x1_2000, 0x1_2000) && 0x1_2000 <= MAX_FRAME
    ensures InFrame(0x9000, 0x9000, 0x1_2000, 0x1_2000) && InDisc(0, 0, 0x8000)
    ensures DiscFits(0x8000) && CandidateCount(0x8000) == 0
  {
    hide SquareSum;
    assert 0x8000 * 0x8000 == 0x4000_0000;
  }
}
