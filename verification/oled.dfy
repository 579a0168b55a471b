/**
 The display buffer of the SSD1306 (src/oled.cpp): a control byte, then one byte for every
 column of 8 pixels, page by page. Its meaning is a 128 x 64 grid of booleans.
*/
module OledSpec {
  import opened Basics
  import opened Raster

  const DISPLAY_WIDTH := 128
  const DISPLAY_HEIGHT := 64
  const DISPLAY_BUFFER_SIZE := DISPLAY_WIDTH * ((DISPLAY_HEIGHT + 7) / 8)
  const I2C_BUFFER_SIZE := DISPLAY_BUFFER_SIZE + 1
  const CONTROL_BYTE: bv8 := 0x40

  predicate OnDisplay(x: int, y: int) {
    0 <= x < DISPLAY_WIDTH && 0 <= y < DISPLAY_HEIGHT
  }

  function Mask(i: nat): bv8
    requires i < 8
  {
    match i
    case 0 => 0x01 case 1 => 0x02 case 2 => 0x04 case 3 => 0x08
    case 4 => 0x10 case 5 => 0x20 case 6 => 0x40 case _ => 0x80
  }

  /** Index in the I2C buffer of the byte that holds a pixel */
  function ByteIndex(x: nat, y: nat): (i: nat)
    requires OnDisplay(x, y)
    ensures 1 <= i < I2C_BUFFER_SIZE
  {
    1 + y / 8 * DISPLAY_WIDTH + x
  }

  /** Number of the bit in that byte */
  function BitIndex(y: nat): (i: nat)
    ensures i < 8
  {
    y % 8
  }

  predicate BitOn(byte: bv8, i: nat)
    requires i < 8
  {
    byte & Mask(i) != 0
  }

  function BitSet(byte: bv8, i: nat, on: bool): bv8
    requires i < 8
  {
    if on then byte | Mask(i) else byte & !Mask(i)
  }

  lemma BitSetAt(byte: bv8, i: nat, on: bool, j: nat)
    requires i < 8 && j < 8
    ensures BitOn(BitSet(byte, i, on), j) == if i == j then on else BitOn(byte, j)
  {}

  lemma MaskIsPower(i: nat)
    requires i < 8
    ensures Mask(i) == (1 as bv8) << i
  {
    assert i == 0 || i == 1 || i == 2 || i == 3 || i == 4 || i == 5 || i == 6 || i == 7;
  }

  predicate Lit(b: seq<bv8>, x: nat, y: nat)
    requires |b| == I2C_BUFFER_SIZE && OnDisplay(x, y)
  {
    BitOn(b[ByteIndex(x, y)], BitIndex(y))
  }

  function SetPixel(b: seq<bv8>, x: nat, y: nat, on: bool): (r: seq<bv8>)
    requires |b| == I2C_BUFFER_SIZE && OnDisplay(x, y)
    ensures |r| == |b|
  {
    var i := ByteIndex(x, y);
    b[i := BitSet(b[i], BitIndex(y), on)]
  }

  /** A pixel is a bit of the buffer: the pages are 128 bytes each, and the lowest bit is the top row. */
  lemma LitIsBit(b: seq<bv8>, x: nat, y: nat)
    requires |b| == I2C_BUFFER_SIZE && OnDisplay(x, y)
    ensures Lit(b, x, y) <==> b[1 + y / 8 * 128 + x] & ((1 as bv8) << (y % 8)) != 0
  {
    MaskIsPower(y % 8);
  }

  /** One bit of one byte has the new value, and the rest is the same. */
  ghost predicate OneBit(b: seq<bv8>, b': seq<bv8>, i: nat, k: nat, on: bool) {
    && i < |b| == |b'| && k <= 8
    && b'[i] == (if on then b[i] | ((1 as bv8) << k) else b[i] & !((1 as bv8) << k))
    && forall j :: 0 <= j < |b| && j != i ==> b'[j] == b[j]
  }

  lemma SetPixelIsOneBit(b: seq<bv8>, x: nat, y: nat, on: bool)
    requires |b| == I2C_BUFFER_SIZE && OnDisplay(x, y)
    ensures OneBit(b, SetPixel(b, x, y, on), 1 + y / 8 * 128 + x, y % 8, on)
  {
    MaskIsPower(y % 8);
    hide Mask;
  }

  /** Every pixel has a bit of its own. */
  lemma SameBit(x: nat, y: nat, px: nat, py: nat)
    requires OnDisplay(x, y) && OnDisplay(px, py)
    ensures ByteIndex(x, y) == ByteIndex(px, py) && BitIndex(y) == BitIndex(py) ==> x == px && y == py
  {
    var q, p := y / 8, py / 8;
    assert y == 8 * q + y % 8 && py == 8 * p + py % 8;
  }

  /** Setting a pixel of the packed buffer changes that pixel of the grid and no other. */
  lemma SetPixelRefinesGrid(b: seq<bv8>, x: nat, y: nat, on: bool, px: nat, py: nat)
    requires |b| == I2C_BUFFER_SIZE && OnDisplay(x, y) && OnDisplay(px, py)
    ensures Lit(SetPixel(b, x, y, on), px, py) == if px == x && py == y then on else Lit(b, px, py)
    ensures SetPixel(b, x, y, on)[0] == b[0]
  {
    hide Mask, ByteIndex, BitIndex, BitOn, BitSet;
    BitSetAt(b[ByteIndex(x, y)], BitIndex(y), on, BitIndex(py));
    SameBit(x, y, px, py);
  }

  // ---------------------------------------------------------------- lines

  /** The error term of DrawLine after i steps in x and j steps in y */
  function ErrorTerm(s: Segment, i: int, j: int): int {
    j * s.Dx() - i * s.Dy() + s.Dx() - s.Dy()
  }

  predicate IsInt(v: int) {
    -0x8000_0000 <= v < 0x8000_0000
  }

  /** What a round of the loop computes from the error term fits an int. */
  predicate RoundFits(s: Segment, err: int) {
    && IsInt(2 * err)
    && (2 * err > -(s.Dy() as int) ==> IsInt(err - s.Dy()))
    && (2 * err < s.Dx() ==> IsInt(err + s.Dx() - if 2 * err > -(s.Dy() as int) then s.Dy() else 0))
  }

  /** Both distances are ints, and no round of the loop overflows. */
  ghost predicate NoOverflow(s: Segment) {
    && IsInt(s.Dx()) && IsInt(s.Dy())
    && forall i, j | StepsDown(s, i, j) && (i < s.Dx() || j < s.Dy()) :: RoundFits(s, ErrorTerm(s, i, j))
  }

  /** A condition on the distances alone */
  predicate ShortEnough(s: Segment) {
    if s.Dy() == 0 then 2 * s.Dx() < 0x8000_0000
    else if s.Dx() == 0 then 2 * s.Dy() <= 0x8000_0000
    else 3 * s.Major() - 2 * s.Minor() <= 0x8000_0000 && 3 * s.Major() <= 0x1_0000_0000
  }

  lemma SmallLinesAreShort(s: Segment)
    requires s.Dx() < 0x2000_0000 && s.Dy() < 0x2000_0000
    ensures ShortEnough(s)
  {}

  lemma ShortRoundFits(s: Segment, i: int, j: int)
    requires ShortEnough(s) && StepsDown(s, i, j)
    ensures RoundFits(s, ErrorTerm(s, i, j))
  {
    var dx, dy, e := s.Dx(), s.Dy(), j * s.Dx() - i * s.Dy();
    if s.Flat() {
      if dy == 0 {
        assert j == 0;
      }
      assert dx > 0 ==> -(dx as int) <= 2 * e < dx;
    } else {
      if dx == 0 {
        assert i == 0;
      }
      assert -(dy as int) < 2 * e <= dy by {
        assert i * dy - j * dx == -e;
      }
    }
  }

  /** So coordinate differences below 2^29 never overflow. */
  lemma ShortLinesDoNotOverflow(s: Segment)
    requires ShortEnough(s)
    ensures NoOverflow(s)
  {
    hide RoundFits, StepsDown, ErrorTerm;
    forall i, j | StepsDown(s, i, j)
      ensures RoundFits(s, ErrorTerm(s, i, j))
    {
      ShortRoundFits(s, i, j);
    }
  }

  /** For lines along an axis the condition is exact. */
  lemma AxisLineOverflowsIff(s: Segment)
    requires IsInt(s.Dx()) && IsInt(s.Dy()) && s.Minor() == 0
    ensures NoOverflow(s) <==> ShortEnough(s)
  {
    if ShortEnough(s) {
      ShortLinesDoNotOverflow(s);
    } else {
      assert StepsDown(s, 0, 0);
      assert !RoundFits(s, ErrorTerm(s, 0, 0));
    }
  }

  /** State of the loop of DrawLine: the steps taken and the error term that belongs to them */
  predicate AtStep(s: Segment, i: int, j: int, err: int) {
    StepsDown(s, i, j) && err == ErrorTerm(s, i, j)
  }

  lemma RoundFlat(i: int, j: int, dx: nat, dy: nat)
    requires dx >= dy && NearestDown(i, j, dx, dy) && 0 <= i < dx
    ensures var err := j * dx - i * dy + dx - dy;
      && 2 * err > -(dy as int)
      && (var j' := if 2 * err < dx then j + 1 else j; NearestDown(i + 1, j', dx, dy) && 0 <= j' <= dy)
  {
    NearestStep(i, j, dx, dy);
    hide NearestDown;
    var j' := if 2 * (j * dx - i * dy - dy) < -(dx as int) then j + 1 else j;
    NearestRange(i + 1, j', dx, dy);
    assert 2 * (j * dx - i * dy) > -2 * (dx as int) + dy by {
      StrictlyNearest(i, j, dx, dy);
    }
  }

  /** On a diagonal the deviation is zero, so it never reaches the tie. */
  lemma StrictlyNearest(k: int, j: int, major: nat, minor: nat)
    requires NearestDown(k, j, major, minor) && 0 < major && minor <= major
    ensures 2 * (j * major - k * minor) > -2 * (major as int) + minor
  {
    if minor == major {
      assert (j - k) * major == j * major - k * minor;
      SmallMultiple(j - k, major);
    }
  }

  lemma RoundSteep(i: int, j: int, dx: nat, dy: nat)
    requires dy > dx && NearestDown(j, i, dy, dx) && 0 <= j < dy
    ensures var err := j * dx - i * dy + dx - dy;
      && 2 * err < dx
      && (var i' := if 2 * err > -(dy as int) then i + 1 else i; NearestDown(j + 1, i', dy, dx) && 0 <= i' <= dx)
  {
    assert -(dy as int) <= 2 * (i * dy - j * dx);
    NearestStep(j, i, dy, dx);
    hide NearestDown;
    var i' := if 2 * (i * dy - j * dx - dx) < -(dy as int) then i + 1 else i;
    NearestRange(j + 1, i', dy, dx);
  }

  lemma FirstStep(s: Segment)
    ensures AtStep(s, 0, 0, s.Dx() - s.Dy())
  {}

  /** The pixel at the current step is the next one of the line. */
  lemma StepIsOnLine(s: Segment, i: int, j: int, err: int)
    requires AtStep(s, i, j, err)
    ensures var x, y := Ahead(i, s.x0, s.x1), Ahead(j, s.y0, s.y1);
      && OnLineDown(s, x, y) && Progress(s, x, y) == if s.Flat() then i else j
  {
    hide NearestDown;
  }

  lemma LastStep(s: Segment, i: int, j: int, err: int)
    requires AtStep(s, i, j, err)
    ensures (if s.Flat() then i else j) == s.Major() <==> i == s.Dx() && j == s.Dy()
  {
    hide NearestDown;
    if s.Flat() {
      NearestRange(i, j, s.Dx(), s.Dy());
    } else {
      NearestRange(j, i, s.Dy(), s.Dx());
    }
  }

  /** One round of the loop steps once along the major axis, and never stalls. */
  lemma RoundSteps(s: Segment, i: int, j: int, err: int)
    requires AtStep(s, i, j, err) && (if s.Flat() then i else j) < s.Major()
    ensures 0 <= i <= s.Dx() && 0 <= j <= s.Dy()
    ensures var xs, ys := 2 * err > -(s.Dy() as int), 2 * err < s.Dx();
      var i', j' := if xs then i + 1 else i, if ys then j + 1 else j;
      && i' <= s.Dx() && j' <= s.Dy()
      && AtStep(s, i', j', err - (if xs then s.Dy() else 0) + (if ys then s.Dx() else 0))
      && (if s.Flat() then xs else ys)
  {
    var dx, dy := s.Dx(), s.Dy();
    assert (j + 1) * dx == j * dx + dx && (i + 1) * dy == i * dy + dy;
    hide NearestDown;
    if s.Flat() {
      RoundFlat(i, j, dx, dy);
    } else {
      RoundSteep(i, j, dx, dy);
    }
  }

  /** The part of a line up to a number of steps has been drawn, and nothing else has changed. */
  ghost predicate DrawnUpTo(before: seq<bv8>, after: seq<bv8>, s: Segment, steps: int, on: bool)
    requires |before| == |after| == I2C_BUFFER_SIZE
  {
    && after[0] == before[0]
    && forall x, y | OnDisplay(x, y) :: Lit(after, x, y) ==
        if OnLineDown(s, x, y) && Progress(s, x, y) < steps then on else Lit(before, x, y)
  }

  /** The state of the grid after a pixel has been drawn, which need not be on the display. */
  ghost predicate PixelDrawn(before: seq<bv8>, after: seq<bv8>, x: int, y: int, on: bool)
    requires |before| == |after| == I2C_BUFFER_SIZE
  {
    && after[0] == before[0]
    && forall px, py | OnDisplay(px, py) :: Lit(after, px, py) == if px == x && py == y then on else Lit(before, px, py)
  }

  lemma PixelSet(b: seq<bv8>, x: nat, y: nat, on: bool)
    requires |b| == I2C_BUFFER_SIZE && OnDisplay(x, y)
    ensures PixelDrawn(b, SetPixel(b, x, y, on), x, y, on)
  {
    hide Lit;
    forall px, py | OnDisplay(px, py)
      ensures Lit(SetPixel(b, x, y, on), px, py) == if px == x && py == y then on else Lit(b, px, py)
    {
      SetPixelRefinesGrid(b, x, y, on, px, py);
    }
  }

  lemma NothingDrawn(b: seq<bv8>, s: Segment, on: bool)
    requires |b| == I2C_BUFFER_SIZE
    ensures DrawnUpTo(b, b, s, 0, on)
  {
    hide Lit;
  }

  lemma PixelExtendsLine(b0: seq<bv8>, b1: seq<bv8>, b2: seq<bv8>, s: Segment, x: int, y: int, on: bool)
    requires |b0| == |b1| == |b2| == I2C_BUFFER_SIZE && OnLineDown(s, x, y)
    requires DrawnUpTo(b0, b1, s, Progress(s, x, y), on) && PixelDrawn(b1, b2, x, y, on)
    ensures DrawnUpTo(b0, b2, s, Progress(s, x, y) + 1, on)
  {
    hide OnLineDown, Progress, Lit;
    forall px, py | OnDisplay(px, py)
      ensures Lit(b2, px, py) ==
        if OnLineDown(s, px, py) && Progress(s, px, py) < Progress(s, x, y) + 1 then on else Lit(b0, px, py)
    {
      if OnLineDown(s, px, py) {
        OnePixelPerStep(s, x, y, px, py);
      }
    }
  }

  lemma StepExtendsLine(b0: seq<bv8>, b1: seq<bv8>, b2: seq<bv8>, s: Segment, i: int, j: int, err: int, on: bool)
    requires |b0| == |b1| == |b2| == I2C_BUFFER_SIZE && AtStep(s, i, j, err)
    requires DrawnUpTo(b0, b1, s, if s.Flat() then i else j, on)
    requires PixelDrawn(b1, b2, Ahead(i, s.x0, s.x1), Ahead(j, s.y0, s.y1), on)
    ensures DrawnUpTo(b0, b2, s, (if s.Flat() then i else j) + 1, on)
  {
    hide DrawnUpTo, PixelDrawn, AtStep;
    StepIsOnLine(s, i, j, err);
    PixelExtendsLine(b0, b1, b2, s, Ahead(i, s.x0, s.x1), Ahead(j, s.y0, s.y1), on);
  }

  lemma DistancesFit(s: Segment)
    requires NoOverflow(s)
    ensures IsInt(s.Dx()) && IsInt(s.Dy())
  {}

  /** Exactly the pixels of the line that are on the display have been drawn. */
  ghost predicate LineDrawn(before: seq<bv8>, after: seq<bv8>, s: Segment, on: bool)
    requires |before| == |after| == I2C_BUFFER_SIZE
  {
    && after[0] == before[0]
    && forall x, y | OnDisplay(x, y) :: Lit(after, x, y) == if OnLineDown(s, x, y) then on else Lit(before, x, y)
  }

  lemma WholeLine(before: seq<bv8>, after: seq<bv8>, s: Segment, on: bool)
    requires |before| == |after| == I2C_BUFFER_SIZE
    requires DrawnUpTo(before, after, s, s.Major() + 1, on)
    ensures LineDrawn(before, after, s, on)
  {
    hide Lit, NearestDown;
  }

  // ---------------------------------------------------------------- rectangles

  /** Exactly the pixels of a rectangle that are on the display have been drawn. */
  ghost predicate AreaDrawn(before: seq<bv8>, after: seq<bv8>, left: int, right: int, top: int, bottom: int, on: bool)
    requires |before| == |after| == I2C_BUFFER_SIZE
  {
    && after[0] == before[0]
    && forall x, y | OnDisplay(x, y) ::
        Lit(after, x, y) == if left <= x < right && top <= y < bottom then on else Lit(before, x, y)
  }

  /** Row behind the last one that DrawFillRect paints: none if the sum wraps */
  function EndRow(nY: nat, nH: nat): int {
    if nY + nH < UINT32_RANGE then nY + nH else nY
  }

  /** The end column that DrawFillRect passes to DrawLine, with the wrap of its sum */
  function LastColumn(nX: nat, nW: nat): int {
    (nX + nW - 1) % UINT32_RANGE
  }

  /** The columns that are painted: where the end column has wrapped the line runs backwards. */
  function FirstColumn(nX: nat, nW: nat): int {
    Min(nX, LastColumn(nX, nW))
  }

  function EndColumn(nX: nat, nW: nat): int {
    Max(nX, LastColumn(nX, nW)) + 1
  }

  /** A row is so short that its error term does not overflow. */
  predicate RowFits(nX: nat, nW: nat) {
    Abs(LastColumn(nX, nW) - nX) < 0x4000_0000
  }

  /** Otherwise it does, see LongRowOverflows; but there may be no row. */
  predicate RectFits(nX: nat, nY: nat, nW: nat, nH: nat) {
    EndRow(nY, nH) > nY ==> RowFits(nX, nW)
  }

  lemma RowFitsIff(nX: uint32, nW: uint32, y: uint32)
    ensures RowFits(nX, nW) <==> NoOverflow(Segment(nX, y, LastColumn(nX, nW), y))
  {
    var s := Segment(nX, y, LastColumn(nX, nW), y);
    if IsInt(s.Dx()) {
      hide NoOverflow;
      AxisLineOverflowsIff(s);
    }
  }

  lemma RowExtendsArea(b0: seq<bv8>, b1: seq<bv8>, b2: seq<bv8>, nX: uint32, nW: uint32, top: nat, y: nat, on: bool)
    requires |b0| == |b1| == |b2| == I2C_BUFFER_SIZE && top <= y < UINT32_RANGE
    requires AreaDrawn(b0, b1, FirstColumn(nX, nW), EndColumn(nX, nW), top, y, on)
    requires LineDrawn(b1, b2, Segment(nX, y, LastColumn(nX, nW), y), on)
    ensures AreaDrawn(b0, b2, FirstColumn(nX, nW), EndColumn(nX, nW), top, y + 1, on)
  {
    hide Lit, LastColumn;
    LastColumnInRange(nX, nW);
  }

  lemma LastColumnInRange(nX: nat, nW: nat)
    ensures 0 <= LastColumn(nX, nW) < UINT32_RANGE
  {}

  /** A pixel of the rectangle that was asked for */
  predicate InRect(nX: nat, nY: nat, nW: nat, nH: nat, x: int, y: int) {
    nX <= x < nX + nW && nY <= y < nY + nH
  }

  /** A pixel that is painted */
  predicate Painted(nX: nat, nY: nat, nW: nat, nH: nat, x: int, y: int) {
    FirstColumn(nX, nW) <= x < EndColumn(nX, nW) && nY <= y < EndRow(nY, nH)
  }

  /** What the caller can check: neither sum wraps and the width is not 0, or nothing of what goes
      wrong then is visible. */
  predicate ExactCall(nX: nat, nY: nat, nW: nat, nH: nat) {
    || nH == 0 || nY >= DISPLAY_HEIGHT
    || if nY + nH >= UINT32_RANGE then nW == 0 || nX >= DISPLAY_WIDTH
       else (nW >= 1 && nX + nW <= UINT32_RANGE) || LastColumn(nX, nW) >= DISPLAY_WIDTH
  }

  /** DrawFillRect paints exactly the rectangle clipped to the display if and only if the caller's
      condition holds, for all arguments with which no row overflows. */
  lemma FillRectIsExactIff(nX: uint32, nY: uint32, nW: uint32, nH: uint32)
    requires RectFits(nX, nY, nW, nH)
    ensures (forall x, y | OnDisplay(x, y) :: Painted(nX, nY, nW, nH, x, y) == InRect(nX, nY, nW, nH, x, y))
       <==> ExactCall(nX, nY, nW, nH)
  {
    ColumnsOf(nX, nW);
    hide LastColumn;
    if nH > 0 && nY < DISPLAY_HEIGHT {
      if nY + nH >= UINT32_RANGE {
        if nW > 0 && nX < DISPLAY_WIDTH {
          assert OnDisplay(nX, nY) && InRect(nX, nY, nW, nH, nX, nY) && !Painted(nX, nY, nW, nH, nX, nY);
        }
      } else if !ExactCall(nX, nY, nW, nH) {
        var x := LastColumn(nX, nW);
        assert OnDisplay(x, nY) && Painted(nX, nY, nW, nH, x, nY) && !InRect(nX, nY, nW, nH, x, nY);
      }
    }
  }

  lemma ColumnsOf(nX: uint32, nW: uint32)
    ensures LastColumn(nX, nW) ==
      if nX + nW == 0 then UINT32_RANGE - 1
      else if nX + nW <= UINT32_RANGE then nX + nW - 1
      else nX + nW - 1 - UINT32_RANGE
  {}

  /** The failing inputs: a width of 0, rows that wrap, columns that wrap. In the first and the last
      one the pixel is painted but not asked for, in the second one it is the other way round. */
  lemma InexactInputs()
    ensures RectFits(10, 10, 0, 1) && Painted(10, 10, 0, 1, 9, 10) && !InRect(10, 10, 0, 1, 9, 10)
    ensures RectFits(10, 10, 1, 0xFFFF_FFFF) && !Painted(10, 10, 1, 0xFFFF_FFFF, 10, 20)
    ensures InRect(10, 10, 1, 0xFFFF_FFFF, 10, 20)
    ensures RectFits(100, 10, 0xFFFF_FFCE, 1) && Painted(100, 10, 0xFFFF_FFCE, 1, 49, 10)
    ensures !InRect(100, 10, 0xFFFF_FFCE, 1, 49, 10)
  {}

  /** Variables of the loop of DrawLine */
  datatype Cursor = Cursor(x: int, y: int, err: int)

  function Round(c: Cursor, dx: int, dy: int, sx: int, sy: int): Cursor {
    var xs, ys := 2 * c.err > -dy, 2 * c.err < dx;
    Cursor(if xs then c.x + sx else c.x, if ys then c.y + sy else c.y,
           c.err - (if xs then dy else 0) + (if ys then dx else 0))
  }

  function Rounds(n: nat, c: Cursor, dx: int, dy: int, sx: int, sy: int): Cursor {
    if n == 0 then c else Round(Rounds(n - 1, c, dx, dy, sx, sy), dx, dy, sx, sy)
  }

  /** A distance of two columns read as a signed number */
  function SignedDistance(d: nat): int {
    if d < 0x8000_0000 then d else d - UINT32_RANGE
  }

  /** The loop of DrawLine for a row between two columns, after n rounds. The other coordinates are
      equal, so their distance is 0 and their step -1. */
  function Row(x0: int, x1: int, y: int, n: nat): Cursor {
    var dx := SignedDistance(Abs(x1 - x0));
    Rounds(n, Cursor(x0, y, dx), dx, 0, if x0 < x1 then 1 else -1, -1)
  }

  lemma Stalls(k: nat, n: nat)
    requires k >= 1 && n >= 1
    ensures var e := -(k * n); 2 * e + k < 0 && e < 0 && e - k == -(k * (n + 1))
  {
    ProductOrder(1, n, k);
  }

  /** As long as the distance is negative as a signed number no round moves x, until the doubled error
      term overflows. */
  lemma {:induction false} LongRowStalls(x0: uint32, x1: uint32, y: uint32, n: nat)
    requires Abs(x1 - x0) >= 0x8000_0000
    ensures var k := UINT32_RANGE - Abs(x1 - x0); Row(x0, x1, y, n) == Cursor(x0, y - n, -(k * (n + 1)))
  {
    if n > 0 {
      LongRowStalls(x0, x1, y, n - 1);
      Stalls(UINT32_RANGE - Abs(x1 - x0), n);
    }
  }

  /** A row that is too long does not reach its end before a doubled error term overflows, which
      happens after at most 2^30 rounds. */
  lemma LongRowOverflows(x0: uint32, x1: uint32, y: uint32) returns (n: nat)
    requires Abs(x1 - x0) >= 0x4000_0000
    ensures n <= 0x4000_0000 && !IsInt(2 * Row(x0, x1, y, n).err)
    ensures forall m :: 0 <= m <= n ==> Row(x0, x1, y, m).x != x1
  {
    n := 0;
    if Abs(x1 - x0) >= 0x8000_0000 {
      n := 0x4000_0000;
      var k := UINT32_RANGE - Abs(x1 - x0);
      ProductOrder(1, k, n + 1);
      forall m | 0 <= m <= n
        ensures Row(x0, x1, y, m).x != x1
      {
        LongRowStalls(x0, x1, y, m);
      }
      LongRowStalls(x0, x1, y, n);
    }
  }

  /** With width 0 at the left edge the end column wraps to 0xFFFFFFFF: it takes exactly 2^30 rounds. */
  lemma EmptyRowAtLeftEdgeOverflows(y: uint32, n: nat)
    requires n <= 0x4000_0000
    ensures LastColumn(0, 0) == 0xFFFF_FFFF
    ensures var c := Row(0, 0xFFFF_FFFF, y, n); c == Cursor(0, y - n, -1 - n) && (IsInt(2 * c.err) <==> n < 0x4000_0000)
  {
    LongRowStalls(0, 0xFFFF_FFFF, y, n);
  }

  /** The square of a button: its rows do not overflow if and only if no side edge crosses the range
      of the coordinates, or there is no row. */
  lemma ButtonFitsIff(nCX: uint32, nCY: uint32, half: nat)
    requires 0 < half < 0x1000
    ensures RectFits((nCX - half) % UINT32_RANGE, (nCY - half) % UINT32_RANGE, 2 * half + 1, 2 * half + 1) <==>
      (half <= nCX && nCX + half < UINT32_RANGE) || !ButtonHasRows(nCY, half)
  {
    WrapOnce(nCX - half);
    WrapOnce(nCY - half);
    var left := (nCX - half) % UINT32_RANGE;
    ColumnsOf(left, 2 * half + 1);
  }

  predicate ButtonHasRows(nCY: nat, half: nat) {
    half <= nCY && nCY + half + 1 < UINT32_RANGE
  }

  lemma WrapOnce(v: int)
    requires -UINT32_RANGE <= v < UINT32_RANGE
    ensures v % UINT32_RANGE == if v < 0 then v + UINT32_RANGE else v
  {}
}
