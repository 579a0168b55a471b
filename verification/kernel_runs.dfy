/**
 The main loop (src/kernel.cpp) and the display transfer together: which button states get on the
 wire. Between two polls of the buttons the interrupt handler and the controller go on.
*/
module KernelRuns {
  import opened Basics
  import opened OledSpec
  import opened Kernel
  import Display = DisplaySpec

  function AsBytes(b: seq<bv8>): Display.Frame {
    seq(|b|, i requires 0 <= i < |b| => b[i] as uint8)
  }

  /** The bytes of a display buffer that shows a button state */
  ghost predicate Picture(frame: Display.Frame, s: Buttons) {
    exists b: seq<bv8> ::
      AsBytes(b) == frame && |b| == I2C_BUFFER_SIZE && b[0] == CONTROL_BYTE && Shows(b, s, VERTICES, VERTICES)
  }

  /** What DrawOLEDButtons leaves in the buffer is a picture. */
  lemma DrawnIsPicture(b: seq<bv8>, s: Buttons)
    requires |b| == I2C_BUFFER_SIZE && b[0] == CONTROL_BYTE && Shows(b, s, VERTICES, VERTICES)
    ensures Picture(AsBytes(b), s)
  {
    hide Shows, AsBytes;
  }

  lemma SameBytes(b: seq<bv8>, b': seq<bv8>)
    requires AsBytes(b) == AsBytes(b')
    ensures b == b'
  {
    assert |b| == |AsBytes(b)| == |AsBytes(b')| == |b'|;
    forall i | 0 <= i < |b|
      ensures b[i] == b'[i]
    {
      assert AsBytes(b)[i] == AsBytes(b')[i];
      SameByte(b[i], b'[i]);
    }
  }

  lemma SameByte(x: bv8, y: bv8)
    requires x as int == y as int
    ensures x == y
  {
    assert (x as int) as bv8 == (y as int) as bv8;
  }

  /** A picture on the wire determines the state of the buttons. */
  lemma PictureOfOneState(frame: Display.Frame, s: Buttons, s': Buttons)
    requires Picture(frame, s) && Picture(frame, s')
    ensures s == s'
  {
    hide InPicture, Shows;
    var b: seq<bv8> :| AsBytes(b) == frame && |b| == I2C_BUFFER_SIZE && Shows(b, s, VERTICES, VERTICES);
    var b': seq<bv8> :| AsBytes(b') == frame && |b'| == I2C_BUFFER_SIZE && Shows(b', s', VERTICES, VERTICES);
    SameBytes(b, b');
    SamePicture(b, s, s');
    PictureDeterminesState(s, s');
  }

  lemma SamePicture(b: seq<bv8>, s: Buttons, s': Buttons)
    requires |b| == I2C_BUFFER_SIZE && Shows(b, s, VERTICES, VERTICES) && Shows(b, s', VERTICES, VERTICES)
    ensures forall x, y | OnDisplay(x, y) :: InPicture(s, x, y) == InPicture(s', x, y)
  {
    hide Lit, OnEdges, InButtons;
    forall x, y | OnDisplay(x, y)
      ensures InPicture(s, x, y) == InPicture(s', x, y)
    {
      assert Lit(b, x, y) == InPicture(s, x, y);
      assert Lit(b, x, y) == InPicture(s', x, y);
    }
  }

  // ---------------------------------------------------------------- runs

  /** prev is prevState; history: the states drawn so far, also the one being drawn */
  datatype System = System(display: Display.Display, prev: Buttons, states: seq<Buttons>)

  /** A poll comes with the picture that would be drawn. */
  datatype Event = Poll(state: Buttons, picture: Display.Frame) | Other(e: Display.Event)

  ghost predicate Enabled(s: System, e: Event) {
    match e
    case Poll(state, picture) =>
      Display.TaskRuns(s.display) && s.display.pc.Loop? && Picture(picture, state) && |picture| == |s.display.buffer|
    case Other(e) => !e.BeginDraw? && Display.Enabled(s.display, e)
  }

  ghost function Step(s: System, e: Event): System
    requires Display.Inv(s.display) && Enabled(s, e)
  {
    match e
    case Poll(state, picture) =>
      if !s.display.busy && state != s.prev
      then System(Display.Step(s.display, Display.BeginDraw(picture)), state, s.states + [state])
      else s
    case Other(e) => s.(display := Display.Step(s.display, e))
  }

  /** The k-th frame drawn shows the k-th state, and a state is drawn only if it differs from the one
      before. */
  ghost predicate SysInv(s: System) {
    && Display.Inv(s.display)
    && |s.states| == |s.display.drawn| + (if s.display.pc.Drawing? then 1 else 0)
    && (forall k :: 0 <= k < |s.display.drawn| ==> Picture(s.display.drawn[k], s.states[k]))
    && (s.display.pc.Drawing? ==> Picture(s.display.pc.target, s.states[|s.states| - 1]))
    && (forall k :: 0 < k < |s.states| ==> s.states[k - 1] != s.states[k])
    && (s.states != [] ==> s.prev == s.states[|s.states| - 1])
  }

  /** Frames and their targets change only at the end of a drawing. */
  lemma DrawnHistory(d: Display.Display, e: Display.Event)
    requires Display.Inv(d) && Display.Enabled(d, e) && !e.BeginDraw?
    ensures var d' := Display.Step(d, e);
      && d'.drawn == (if e.EndDraw? then d.drawn + [d.pc.target] else d.drawn)
      && (d'.pc.Drawing? <==> d.pc.Drawing? && !e.EndDraw?)
      && (d'.pc.Drawing? ==> d'.pc == d.pc)
      && (e.EndDraw? ==> d.pc.Drawing?)
  {
    hide Display.Conserved, Display.InStep;
  }

  lemma OtherKeeps(s: System, e: Display.Event)
    requires SysInv(s) && Enabled(s, Other(e))
    ensures SysInv(Step(s, Other(e)))
  {
    hide Picture, Display.Inv, Display.Step, Display.Enabled;
    Display.StepKeeps(s.display, e);
    DrawnHistory(s.display, e);
  }

  lemma PollKeeps(s: System, state: Buttons, picture: Display.Frame)
    requires SysInv(s) && Enabled(s, Poll(state, picture))
    ensures SysInv(Step(s, Poll(state, picture)))
  {
    hide Picture, Display.Inv, Display.Step;
    if !s.display.busy && state != s.prev {
      var d := s.display;
      Display.StepKeeps(d, Display.BeginDraw(picture));
      DrawingBegins(d, picture);
    }
  }

  lemma DrawingBegins(d: Display.Display, picture: Display.Frame)
    requires Display.Inv(d) && Display.Enabled(d, Display.BeginDraw(picture))
    ensures Display.Step(d, Display.BeginDraw(picture)) == d.(pc := Display.Drawing(picture))
  {}

  /** A poll begins to draw the state it has read exactly if no transfer is running and the state differs
      from the one drawn last; otherwise it changes nothing. */
  lemma PollDraws(s: System, state: Buttons, picture: Display.Frame)
    requires SysInv(s) && Enabled(s, Poll(state, picture))
    ensures var s' := Step(s, Poll(state, picture));
      if !s.display.busy && state != s.prev
      then
        && s'.states == s.states + [state] && s'.prev == state
        && s'.display == s.display.(pc := Display.Drawing(picture))
      else s' == s
  {
    hide Picture;
    if !s.display.busy && state != s.prev {
      DrawingBegins(s.display, picture);
    }
  }

  lemma StepKeeps(s: System, e: Event)
    requires SysInv(s) && Enabled(s, e)
    ensures SysInv(Step(s, e))
  {
    hide SysInv, Step;
    match e
    case Poll(state, picture) => PollKeeps(s, state, picture);
    case Other(f) => OtherKeeps(s, f);
  }

  const NO_BUTTON := Buttons(false, false, false, false, false, false, false, false)

  /** Every interleaving: an event that is not enabled does not happen. */
  ghost function Run(events: seq<Event>): (s: System)
    ensures SysInv(s)
  {
    if events == [] then System(Display.Init(I2C_BUFFER_SIZE), NO_BUTTON, [])
    else
      var s := Run(events[..|events| - 1]);
      var e := events[|events| - 1];
      if Enabled(s, e) then StepKeeps(s, e); Step(s, e) else s
  }

  /** The k-th transfer put the picture of the k-th state on the wire, or after an error a prefix. */
  ghost predicate ShowsInTurn(ended: seq<Display.Transfer>, states: seq<Buttons>) {
    && |ended| <= |states|
    && forall k :: 0 <= k < |ended| ==>
         && Picture(ended[k].frame, states[k])
         && if ended[k].ok then ended[k].sent == ended[k].frame else ended[k].sent <= ended[k].frame
  }

  /** In every run: the transfers show the states drawn, one after the other, and no state twice in a
      row. When the loop is idle, the last transfer was that of the state drawn last. */
  lemma RunShowsStates(events: seq<Event>)
    ensures var s := Run(events);
      && ShowsInTurn(s.display.ended, s.states)
      && (forall k :: 0 < k < |s.states| ==> s.states[k - 1] != s.states[k])
      && (s.display.pc.Loop? && !s.display.busy ==>
            && |s.display.ended| == |s.states|
            && (s.states != [] ==> Picture(s.display.ended[|s.states| - 1].frame, s.prev)))
  {
    var s := Run(events);
    hide Run, Picture;
  }
}
