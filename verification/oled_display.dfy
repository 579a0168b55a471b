/** Drawing into the display buffer in place (src/oled.cpp). */
module OledDisplay {
  import opened Basics
  import opened Raster
  import opened OledSpec

  class COLED {
    const i2cBuffer: array<bv8>

    ghost predicate Valid()
      reads i2cBuffer
    {
      i2cBuffer.Length == I2C_BUFFER_SIZE && i2cBuffer[0] == CONTROL_BYTE
    }

    constructor ()
      ensures Valid() && fresh(i2cBuffer)
      ensures forall x, y | OnDisplay(x, y) :: !Lit(i2cBuffer[..], x, y)
    {
      i2cBuffer := new bv8[I2C_BUFFER_SIZE](i => if i == 0 then CONTROL_BYTE else 0);
    }

    method Clear()
      requires Valid()
      modifies i2cBuffer
      ensures Valid() && i2cBuffer[0] == 0x40 && forall k :: 1 <= k < i2cBuffer.Length ==> i2cBuffer[k] == 0
      ensures forall x, y | OnDisplay(x, y) :: !Lit(i2cBuffer[..], x, y)
    {
      var i := 1;
      while i < I2C_BUFFER_SIZE
        invariant 1 <= i <= I2C_BUFFER_SIZE && i2cBuffer[0] == CONTROL_BYTE
        invariant forall k :: 1 <= k < i ==> i2cBuffer[k] == 0
      {
        i2cBuffer[i] := 0;
        i := i + 1;
      }
    }

    method DrawPixel(nX: uint32, nY: uint32, bOn: bool)
      requires Valid()
      modifies i2cBuffer
      ensures Valid()
      ensures PixelDrawn(old(i2cBuffer[..]), i2cBuffer[..], nX, nY, bOn)
      ensures if nX < 128 && nY < 64 then OneBit(old(i2cBuffer[..]), i2cBuffer[..], 1 + nY / 8 * 128 + nX, nY % 8, bOn)
              else i2cBuffer[..] == old(i2cBuffer[..])
    {
      if nX >= DISPLAY_WIDTH || nY >= DISPLAY_HEIGHT {
        return;
      }
      ghost var b := i2cBuffer[..];
      PixelSet(b, nX, nY, bOn);
      SetPixelIsOneBit(b, nX, nY, bOn);
      hide Lit, Mask, BitIndex, ByteIndex, PixelDrawn, BitSet, OneBit;
      var i := ByteIndex(nX, nY);
      if bOn {
        i2cBuffer[i] := i2cBuffer[i] | Mask(BitIndex(nY));
      } else {
        i2cBuffer[i] := i2cBuffer[i] & !Mask(BitIndex(nY));
      }
      assert i2cBuffer[..] == SetPixel(b, nX, nY, bOn);
    }

    /** Draws exactly the pixels of the line that are on the display, in one round of the loop
        for each step along the longer axis. */
    method DrawLine(nX0: uint32, nY0: uint32, nX1: uint32, nY1: uint32, bOn: bool) returns (ghost rounds: nat)
      requires Valid() && NoOverflow(Segment(nX0, nY0, nX1, nY1))
      modifies i2cBuffer
      ensures Valid()
      ensures var s := Segment(nX0, nY0, nX1, nY1);
        rounds == s.Major() && LineDrawn(old(i2cBuffer[..]), i2cBuffer[..], s, bOn)
    {
      hide StepsDown, PixelDrawn, DrawnUpTo, AtStep, Lit, LineDrawn, NoOverflow;
      DistancesFit(Segment(nX0, nY0, nX1, nY1));
      ghost var s := Segment(nX0, nY0, nX1, nY1);
      var x, y := nX0, nY0;
      var dx: int32 := if nX1 > nX0 then nX1 - nX0 else nX0 - nX1;
      var dy: int32 := if nY1 > nY0 then nY1 - nY0 else nY0 - nY1;
      var sx: int := if nX0 < nX1 then 1 else -1;
      var sy: int := if nY0 < nY1 then 1 else -1;
      var err: int32 := dx - dy;
      rounds := 0;
      ghost var i, j := 0, 0;
      FirstStep(s);
      NothingDrawn(i2cBuffer[..], s, bOn);
      while true
        invariant Valid()
        invariant AtStep(s, i, j, err) && 0 <= i <= s.Dx() && 0 <= j <= s.Dy()
        invariant x == Ahead(i, nX0, nX1) && y == Ahead(j, nY0, nY1)
        invariant rounds == (if s.Flat() then i else j) <= s.Major()
        invariant DrawnUpTo(old(i2cBuffer[..]), i2cBuffer[..], s, rounds, bOn)
        decreases s.Major() - rounds
      {
        ghost var b1 := i2cBuffer[..];
        DrawPixel(x, y, bOn);
        LastStep(s, i, j, err);
        StepExtendsLine(old(i2cBuffer[..]), b1, i2cBuffer[..], s, i, j, err, bOn);
        if x == nX1 && y == nY1 {
          WholeLine(old(i2cBuffer[..]), i2cBuffer[..], s, bOn);
          break;
        }
        RoundSteps(s, i, j, err);
        RoundDoesNotOverflow(s, i, j, err);
        var e2: int32 := err * 2;
        if e2 > -dy {
          err := err - dy;
          x := x + sx;
          i := i + 1;
        }
        if e2 < dx {
          err := err + dx;
          y := y + sy;
          j := j + 1;
        }
        rounds := rounds + 1;
      }
    }

    /** Paints the columns from nX to the end column, which may have wrapped, in all rows, or in none
        if their sum wraps. */
    method DrawFillRect(nX: uint32, nY: uint32, nW: uint32, nH: uint32, bOn: bool)
      requires Valid() && RectFits(nX, nY, nW, nH)
      modifies i2cBuffer
      ensures Valid()
      ensures AreaDrawn(old(i2cBuffer[..]), i2cBuffer[..],
                        FirstColumn(nX, nW), EndColumn(nX, nW), nY, EndRow(nY, nH), bOn)
      ensures nW > 0 && nX + nW <= UINT32_RANGE && nY + nH < UINT32_RANGE ==>
        AreaDrawn(old(i2cBuffer[..]), i2cBuffer[..], nX, nX + nW, nY, nY + nH, bOn)
    {
      hide AreaDrawn, LineDrawn, NoOverflow, LastColumn, RowFits;
      var y := nY;
      EmptyArea(i2cBuffer[..], FirstColumn(nX, nW), EndColumn(nX, nW), nY, bOn);
      LastColumnInRange(nX, nW);
      ColumnsOf(nX, nW);
      while y < (nY + nH) % UINT32_RANGE
        invariant Valid() && nY <= y <= EndRow(nY, nH)
        invariant AreaDrawn(old(i2cBuffer[..]), i2cBuffer[..], FirstColumn(nX, nW), EndColumn(nX, nW), nY, y, bOn)
      {
        ghost var b1 := i2cBuffer[..];
        RowFitsIff(nX, nW, y);
        var nX1 := LastColumn(nX, nW);
        var _ := DrawLine(nX, y, nX1, y, bOn);
        RowExtendsArea(old(i2cBuffer[..]), b1, i2cBuffer[..], nX, nW, nY, y, bOn);
        y := y + 1;
      }
    }

    /** Lights the square around the centre and nothing else, but nothing at all if the square would
        cross the top edge or the largest row. */
    method DrawButton(nCX: uint32, nCY: uint32, bPressed: bool)
      requires Valid()
      requires var half := if bPressed then 5 else 2;
        RectFits((nCX - half) % UINT32_RANGE, (nCY - half) % UINT32_RANGE, 2 * half + 1, 2 * half + 1)
      modifies i2cBuffer
      ensures Valid()
      ensures var half := if bPressed then 5 else 2;
        AreaDrawn(old(i2cBuffer[..]), i2cBuffer[..], nCX - half, nCX + half + 1, nCY - half,
                  if ButtonHasRows(nCY, half) then nCY + half + 1 else nCY - half, true)
    {
      var nHalf := if bPressed then 5 else 2;
      ghost var b0 := i2cBuffer[..];
      var left, top := (nCX - nHalf) % UINT32_RANGE, (nCY - nHalf) % UINT32_RANGE;
      DrawFillRect(left, top, nHalf * 2 + 1, nHalf * 2 + 1, true);
      ButtonArea(b0, i2cBuffer[..], nCX, nCY, nHalf);
    }
  }

  lemma ButtonArea(b0: seq<bv8>, b1: seq<bv8>, nCX: uint32, nCY: uint32, half: nat)
    requires |b0| == |b1| == I2C_BUFFER_SIZE && 0 < half < 0x1000
    requires var left, top, n := (nCX - half) % UINT32_RANGE, (nCY - half) % UINT32_RANGE, 2 * half + 1;
      && RectFits(left, top, n, n)
      && AreaDrawn(b0, b1, FirstColumn(left, n), EndColumn(left, n), top, EndRow(top, n), true)
    ensures AreaDrawn(b0, b1, nCX - half, nCX + half + 1, nCY - half,
                      if ButtonHasRows(nCY, half) then nCY + half + 1 else nCY - half, true)
  {
    ButtonFitsIff(nCX, nCY, half);
    WrapOnce(nCX - half);
    WrapOnce(nCY - half);
    ColumnsOf((nCX - half) % UINT32_RANGE, 2 * half + 1);
    hide Lit, LastColumn, RectFits;
  }

  lemma EmptyArea(b: seq<bv8>, left: int, right: int, top: int, on: bool)
    requires |b| == I2C_BUFFER_SIZE
    ensures AreaDrawn(b, b, left, right, top, top, on)
  {
    hide Lit;
  }

  lemma RoundDoesNotOverflow(s: Segment, i: int, j: int, err: int)
    requires NoOverflow(s) && AtStep(s, i, j, err) && (i < s.Dx() || j < s.Dy())
    ensures RoundFits(s, err)
  {
    hide StepsDown, RoundFits;
  }
}
