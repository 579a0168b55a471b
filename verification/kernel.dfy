/** What the main loop keeps on the display (src/kernel.cpp): an octagon with a button on each
    vertex, larger if the button is pressed. */
module Kernel {
  import opened Basics
  import opened Raster
  import opened OledSpec
  import opened OledDisplay

  datatype Buttons = Buttons(
    north: bool, east: bool, south: bool, west: bool,
    dpadUp: bool, dpadDown: bool, dpadLeft: bool, dpadRight: bool)

  const VERTICES := 8

  const POSITIONS: seq<(uint32, uint32)> :=
    [(42, 10), (86, 10), (118, 23), (118, 41), (86, 54), (42, 54), (10, 41), (10, 23)]

  /** The button on a vertex, clockwise from the top left one */
  function Pressed(s: Buttons, i: nat): bool
    requires i < VERTICES
  {
    match i
    case 0 => s.dpadLeft case 1 => s.north case 2 => s.east case 3 => s.south
    case 4 => s.west case 5 => s.dpadUp case 6 => s.dpadRight case _ => s.dpadDown
  }

  function Edge(i: nat): Segment
    requires i < VERTICES
  {
    var j := (i + 1) % VERTICES;
    Segment(POSITIONS[i].0, POSITIONS[i].1, POSITIONS[j].0, POSITIONS[j].1)
  }

  predicate InButton(s: Buttons, i: nat, x: int, y: int)
    requires i < VERTICES
  {
    var half := if Pressed(s, i) then 5 else 2;
    Abs(x - POSITIONS[i].0) <= half && Abs(y - POSITIONS[i].1) <= half
  }

  predicate OnEdges(n: nat, x: int, y: int)
    requires n <= VERTICES
  {
    exists i | 0 <= i < n :: OnLineDown(Edge(i), x, y)
  }

  predicate InButtons(s: Buttons, n: nat, x: int, y: int)
    requires n <= VERTICES
  {
    exists i | 0 <= i < n :: InButton(s, i, x, y)
  }

  /** The picture of a button state */
  predicate InPicture(s: Buttons, x: int, y: int) {
    OnEdges(VERTICES, x, y) || InButtons(s, VERTICES, x, y)
  }

  /** The first edges and the first buttons are lit, and nothing else is. */
  ghost predicate Shows(b: seq<bv8>, s: Buttons, edges: nat, buttons: nat)
    requires |b| == I2C_BUFFER_SIZE && edges <= VERTICES && buttons <= VERTICES
  {
    forall x, y | OnDisplay(x, y) :: Lit(b, x, y) <==> OnEdges(edges, x, y) || InButtons(s, buttons, x, y)
  }

  lemma EdgeFits(i: nat)
    requires i < VERTICES
    ensures NoOverflow(Edge(i))
  {
    hide NoOverflow;
    ShortLinesDoNotOverflow(Edge(i));
  }

  lemma EdgeAdds(b0: seq<bv8>, b1: seq<bv8>, s: Buttons, i: nat)
    requires |b0| == |b1| == I2C_BUFFER_SIZE && i < VERTICES
    requires Shows(b0, s, i, 0) && LineDrawn(b0, b1, Edge(i), true)
    ensures Shows(b1, s, i + 1, 0)
  {
    hide Lit, OnLineDown, Edge, InButton;
  }

  lemma ButtonAdds(b0: seq<bv8>, b1: seq<bv8>, s: Buttons, i: nat)
    requires |b0| == |b1| == I2C_BUFFER_SIZE && i < VERTICES && Shows(b0, s, VERTICES, i)
    requires var half := if Pressed(s, i) then 5 else 2; var (cx, cy) := POSITIONS[i];
      AreaDrawn(b0, b1, cx - half, cx + half + 1, cy - half, cy + half + 1, true)
    ensures Shows(b1, s, VERTICES, i + 1)
  {
    hide Lit, OnEdges, Pressed;
    forall x, y | OnDisplay(x, y)
      ensures Lit(b1, x, y) <==> OnEdges(VERTICES, x, y) || InButtons(s, i + 1, x, y)
    {
      assert InButtons(s, i + 1, x, y) <==> InButtons(s, i, x, y) || InButton(s, i, x, y);
      assert InButton(s, i, x, y) <==>
        var half := if Pressed(s, i) then 5 else 2; var (cx, cy) := POSITIONS[i];
        cx - half <= x < cx + half + 1 && cy - half <= y < cy + half + 1;
    }
  }

  /** A pixel outside of the octagon, just where the button grows when it is pressed */
  function Probe(i: nat): (int, int)
    requires i < VERTICES
  {
    [(42, 5), (86, 5), (123, 23), (123, 41), (86, 59), (42, 59), (5, 41), (5, 23)][i]
  }

  lemma ProbeOffEdges(i: nat, k: nat)
    requires i < VERTICES && k < VERTICES
    ensures !OnLineDown(Edge(k), Probe(i).0, Probe(i).1)
  {
    hide NearestDown;
  }

  lemma ProbeOffOthers(s: Buttons, i: nat, k: nat)
    requires i < VERTICES && k < VERTICES
    ensures InButton(s, k, Probe(i).0, Probe(i).1) <==> k == i && Pressed(s, i)
  {
    hide Pressed;
  }

  lemma ProbeShowsButton(s: Buttons, i: nat)
    requires i < VERTICES
    ensures OnDisplay(Probe(i).0, Probe(i).1)
    ensures InPicture(s, Probe(i).0, Probe(i).1) <==> Pressed(s, i)
  {
    hide OnLineDown, InButton, Pressed;
    var x, y := Probe(i).0, Probe(i).1;
    forall k | 0 <= k < VERTICES
      ensures !OnLineDown(Edge(k), x, y)
      ensures InButton(s, k, x, y) <==> k == i && Pressed(s, i)
    {
      ProbeOffEdges(i, k);
      ProbeOffOthers(s, i, k);
    }
    assert !OnEdges(VERTICES, x, y);
    assert InButtons(s, VERTICES, x, y) <==> InButton(s, i, x, y);
  }

  /** The display tells all button states apart. */
  lemma PictureDeterminesState(s: Buttons, s': Buttons)
    requires forall x, y | OnDisplay(x, y) :: InPicture(s, x, y) == InPicture(s', x, y)
    ensures s == s'
  {
    hide InPicture, Probe;
    forall i | 0 <= i < VERTICES
      ensures Pressed(s, i) == Pressed(s', i)
    {
      ProbeShowsButton(s, i);
      ProbeShowsButton(s', i);
    }
    assert Pressed(s, 0) == Pressed(s', 0) && Pressed(s, 1) == Pressed(s', 1) && Pressed(s, 2) == Pressed(s', 2)
        && Pressed(s, 3) == Pressed(s', 3) && Pressed(s, 4) == Pressed(s', 4) && Pressed(s, 5) == Pressed(s', 5)
        && Pressed(s, 6) == Pressed(s', 6) && Pressed(s, 7) == Pressed(s', 7);
  }

  predicate InSquare(cx: int, cy: int, pressed: bool, x: int, y: int) {
    var half := if pressed then 5 else 2;
    cx - half <= x <= cx + half && cy - half <= y <= cy + half
  }

  lemma ButtonsOfPicture(s: Buttons, x: int, y: int)
    ensures InButtons(s, VERTICES, x, y) <==>
      || InSquare(42, 10, s.dpadLeft, x, y) || InSquare(86, 10, s.north, x, y)
      || InSquare(118, 23, s.east, x, y) || InSquare(118, 41, s.south, x, y)
      || InSquare(86, 54, s.west, x, y) || InSquare(42, 54, s.dpadUp, x, y)
      || InSquare(10, 41, s.dpadRight, x, y) || InSquare(10, 23, s.dpadDown, x, y)
  {
    assert InButton(s, 0, x, y) <==> InSquare(42, 10, s.dpadLeft, x, y);
    assert InButton(s, 1, x, y) <==> InSquare(86, 10, s.north, x, y);
    assert InButton(s, 2, x, y) <==> InSquare(118, 23, s.east, x, y);
    assert InButton(s, 3, x, y) <==> InSquare(118, 41, s.south, x, y);
    assert InButton(s, 4, x, y) <==> InSquare(86, 54, s.west, x, y);
    assert InButton(s, 5, x, y) <==> InSquare(42, 54, s.dpadUp, x, y);
    assert InButton(s, 6, x, y) <==> InSquare(10, 41, s.dpadRight, x, y);
    assert InButton(s, 7, x, y) <==> InSquare(10, 23, s.dpadDown, x, y);
    hide InButton, InSquare;
  }

  lemma EdgesOfPicture(x: int, y: int)
    ensures OnEdges(VERTICES, x, y) <==>
      || OnLineDown(Segment(42, 10, 86, 10), x, y) || OnLineDown(Segment(86, 10, 118, 23), x, y)
      || OnLineDown(Segment(118, 23, 118, 41), x, y) || OnLineDown(Segment(118, 41, 86, 54), x, y)
      || OnLineDown(Segment(86, 54, 42, 54), x, y) || OnLineDown(Segment(42, 54, 10, 41), x, y)
      || OnLineDown(Segment(10, 41, 10, 23), x, y) || OnLineDown(Segment(10, 23, 42, 10), x, y)
  {
    hide OnLineDown;
    assert Edge(0) == Segment(42, 10, 86, 10) && Edge(1) == Segment(86, 10, 118, 23);
    assert Edge(2) == Segment(118, 23, 118, 41) && Edge(3) == Segment(118, 41, 86, 54);
    assert Edge(4) == Segment(86, 54, 42, 54) && Edge(5) == Segment(42, 54, 10, 41);
    assert Edge(6) == Segment(10, 41, 10, 23) && Edge(7) == Segment(10, 23, 42, 10);
    hide Edge;
  }

  /** The picture in coordinates: eight edges, and around each corner the square of its button. */
  ghost predicate Octagon(s: Buttons, x: int, y: int) {
    || OnLineDown(Segment(42, 10, 86, 10), x, y) || OnLineDown(Segment(86, 10, 118, 23), x, y)
    || OnLineDown(Segment(118, 23, 118, 41), x, y) || OnLineDown(Segment(118, 41, 86, 54), x, y)
    || OnLineDown(Segment(86, 54, 42, 54), x, y) || OnLineDown(Segment(42, 54, 10, 41), x, y)
    || OnLineDown(Segment(10, 41, 10, 23), x, y) || OnLineDown(Segment(10, 23, 42, 10), x, y)
    || InSquare(42, 10, s.dpadLeft, x, y) || InSquare(86, 10, s.north, x, y)
    || InSquare(118, 23, s.east, x, y) || InSquare(118, 41, s.south, x, y)
    || InSquare(86, 54, s.west, x, y) || InSquare(42, 54, s.dpadUp, x, y)
    || InSquare(10, 41, s.dpadRight, x, y) || InSquare(10, 23, s.dpadDown, x, y)
  }

  lemma PictureIsOctagon(b: seq<bv8>, s: Buttons)
    requires |b| == I2C_BUFFER_SIZE && Shows(b, s, VERTICES, VERTICES)
    ensures forall x, y | OnDisplay(x, y) :: Lit(b, x, y) <==> Octagon(s, x, y)
  {
    hide Lit, OnLineDown, InSquare, OnEdges, InButtons;
    forall x, y | OnDisplay(x, y)
      ensures Lit(b, x, y) <==> Octagon(s, x, y)
    {
      EdgesOfPicture(x, y);
      ButtonsOfPicture(s, x, y);
    }
  }

  /** Which key makes which square larger */
  lemma KeysOfSquares(s: Buttons)
    ensures InPicture(s, 42, 5) <==> s.dpadLeft
    ensures InPicture(s, 86, 5) <==> s.north
    ensures InPicture(s, 123, 23) <==> s.east
    ensures InPicture(s, 123, 41) <==> s.south
    ensures InPicture(s, 86, 59) <==> s.west
    ensures InPicture(s, 42, 59) <==> s.dpadUp
    ensures InPicture(s, 5, 41) <==> s.dpadRight
    ensures InPicture(s, 5, 23) <==> s.dpadDown
  {
    hide InPicture;
    for i := 0 to VERTICES
      invariant forall k :: 0 <= k < i ==> (InPicture(s, Probe(k).0, Probe(k).1) <==> Pressed(s, k))
    {
      ProbeShowsButton(s, i);
    }
    assert Probe(0) == (42, 5) && Probe(1) == (86, 5) && Probe(2) == (123, 23) && Probe(3) == (123, 41);
    assert Probe(4) == (86, 59) && Probe(5) == (42, 59) && Probe(6) == (5, 41) && Probe(7) == (5, 23);
  }

  class CKernel {
    const oled: COLED
    var prevState: Buttons

    /** The buffer shows the state drawn last, whatever was drawn before. */
    ghost predicate Valid()
      reads this, oled, oled.i2cBuffer
    {
      oled.Valid() && Shows(oled.i2cBuffer[..], prevState, VERTICES, VERTICES)
    }

    /** Up to the first draw, before the loop */
    constructor ()
      ensures Valid() && fresh(oled.i2cBuffer)
      ensures prevState == Buttons(false, false, false, false, false, false, false, false)
    {
      oled := new COLED();
      prevState := Buttons(false, false, false, false, false, false, false, false);
      new;
      DrawOLEDButtons(prevState);
    }

    method DrawOLEDButtons(state: Buttons)
      requires oled.Valid()
      modifies oled.i2cBuffer
      ensures oled.Valid() && Shows(oled.i2cBuffer[..], state, VERTICES, VERTICES)
      ensures forall x, y | OnDisplay(x, y) :: Lit(oled.i2cBuffer[..], x, y) <==> Octagon(state, x, y)
    {
      hide Lit, Shows, LineDrawn, AreaDrawn, Edge, NoOverflow, Pressed;
      oled.Clear();
      NothingShown(oled.i2cBuffer[..], state);
      for i := 0 to VERTICES
        invariant oled.Valid() && Shows(oled.i2cBuffer[..], state, i, 0)
      {
        ghost var b := oled.i2cBuffer[..];
        EdgeFits(i);
        var e := Edge(i);
        var _ := oled.DrawLine(e.x0, e.y0, e.x1, e.y1, true);
        EdgeAdds(b, oled.i2cBuffer[..], state, i);
      }
      for i := 0 to VERTICES
        invariant oled.Valid() && Shows(oled.i2cBuffer[..], state, VERTICES, i)
      {
        ghost var b := oled.i2cBuffer[..];
        PositionInside(i, Pressed(state, i));
        oled.DrawButton(POSITIONS[i].0, POSITIONS[i].1, Pressed(state, i));
        ButtonAdds(b, oled.i2cBuffer[..], state, i);
      }
      PictureIsOctagon(oled.i2cBuffer[..], state);
    }

    /** One round of the main loop. The picture changes only while no transfer runs, and after such a
        round it is that of the current state. */
    method Round(state: Buttons, showDone: bool)
      requires Valid()
      modifies `prevState, oled.i2cBuffer
      ensures Valid()
      ensures showDone ==> prevState == state
      ensures !showDone || state == old(prevState) ==>
        prevState == old(prevState) && oled.i2cBuffer[..] == old(oled.i2cBuffer[..])
    {
      if showDone && state != prevState {
        DrawOLEDButtons(state);
        prevState := state;
      }
    }
  }

  lemma NothingShown(b: seq<bv8>, s: Buttons)
    requires |b| == I2C_BUFFER_SIZE && forall x, y | OnDisplay(x, y) :: !Lit(b, x, y)
    ensures Shows(b, s, 0, 0)
  {
    hide Lit;
  }

  lemma PositionInside(i: nat, pressed: bool)
    requires i < VERTICES
    ensures var half := if pressed then 5 else 2; var (cx, cy) := POSITIONS[i];
      && ButtonHasRows(cy, half)
      && RectFits((cx - half) % UINT32_RANGE, (cy - half) % UINT32_RANGE, 2 * half + 1, 2 * half + 1)
  {
    var half := if pressed then 5 else 2;
    var (cx, cy) := POSITIONS[i];
    assert 5 <= cx < 0x100 && 5 <= cy < 0x100;
    hide RectFits;
    ButtonFitsIff(cx, cy, half);
  }
}
