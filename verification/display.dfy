/**
 The display transfer as a step system: the main loop (src/kernel.cpp) draws into the display
 buffer (src/oled.cpp) and starts a transfer that the interrupt handler feeds to the FIFO of
 the I2C controller (src/i2cmasterasync.cpp), while the controller sends.
*/
module DisplaySpec {
  import opened Basics

  const FIFO_SIZE := 16

  type Frame = seq<uint8>

  /** Where the task is: in the main loop, drawing a frame, about to show it, or at one of the
      steps of WriteAsync. */
  datatype Pc =
    | Loop
    | Drawing(target: Frame)
    | Show
    | WaitInactive
    | ClearStatus
    | ClearFifo
    | Prefill

  /** Where the interrupt handler is. The status has been read on its entry. */
  datatype Irq = NoIrq | Filling(doneSeen: bool)

  /** A transfer that has ended: the submitted frame, the bytes sent, and whether without an error */
  datatype Transfer = Transfer(frame: Frame, sent: Frame, ok: bool)

  datatype Display = Display(
    pc: Pc, irq: Irq,
    buffer: Frame, busy: bool, pos: nat, remaining: nat,
    // controller: transmit FIFO, bytes sent since the start, flags, interrupt enable
    fifo: Frame, wire: Frame, dlen: nat, active: bool, done: bool, err: bool, ints: bool,
    // history: the frames drawn to the end, the one submitted last, and the transfers that ended
    drawn: seq<Frame>, submitted: Frame, ended: seq<Transfer>)

  datatype Event =
    // task
    | BeginDraw(target: Frame) | DrawByte(i: nat, v: uint8) | EndDraw
    | StartShow | PollInactive | ResetStatus | ResetFifo | PrefillRound
    // interrupt
    | EnterIrq(txw: bool) | FillRound
    // controller
    | SendByte | Finish | Fail(withDone: bool)

  predicate TaskRuns(s: Display) {
    s.irq.NoIrq?
  }

  predicate Enabled(s: Display, e: Event) {
    match e
    case BeginDraw(target) => TaskRuns(s) && s.pc.Loop? && !s.busy && |target| == |s.buffer|
    case DrawByte(i, _) => TaskRuns(s) && s.pc.Drawing? && i < |s.buffer|
    case EndDraw => TaskRuns(s) && s.pc.Drawing? && s.buffer == s.pc.target
    case StartShow => TaskRuns(s) && s.pc.Show?
    case PollInactive => TaskRuns(s) && s.pc.WaitInactive? && !s.active
    case ResetStatus => TaskRuns(s) && s.pc.ClearStatus?
    case ResetFifo => TaskRuns(s) && s.pc.ClearFifo?
    case PrefillRound => TaskRuns(s) && s.pc.Prefill?
    case EnterIrq(_) => s.irq.NoIrq? && s.ints
    case FillRound => s.irq.Filling?
    case SendByte => s.active && s.fifo != [] && |s.wire| < s.dlen
    case Finish => s.active && |s.wire| == s.dlen
    case Fail(_) => s.active
  }

  /** One round of FillFIFO, if there is something to send and room for it */
  function Push(s: Display): Display
    requires s.pos < |s.buffer| && s.remaining > 0
  {
    s.(fifo := s.fifo + [s.buffer[s.pos]], pos := s.pos + 1, remaining := s.remaining - 1)
  }

  predicate CanPush(s: Display) {
    s.remaining > 0 && |s.fifo| < FIFO_SIZE
  }

  /** The end of the handler after a completed transfer */
  function Complete(s: Display): Display {
    s.(irq := NoIrq, busy := false, done := false, ints := false,
       ended := s.ended + [Transfer(s.submitted, s.wire, true)])
  }

  function Step(s: Display, e: Event): Display
    requires Enabled(s, e) && (CanPush(s) ==> s.pos < |s.buffer|)
  {
    match e
    case BeginDraw(target) => s.(pc := Drawing(target))
    case DrawByte(i, v) => s.(buffer := s.buffer[i := v])
    case EndDraw => s.(pc := Show, drawn := s.drawn + [s.buffer])
    case StartShow =>
      if s.busy then s.(pc := Loop)
      else s.(pc := WaitInactive, pos := 0, remaining := |s.buffer|, busy := true, submitted := s.buffer)
    case PollInactive => s.(pc := ClearStatus)
    case ResetStatus => s.(pc := ClearFifo, done := false, err := false, dlen := |s.buffer|)
    case ResetFifo => s.(pc := Prefill, fifo := [], wire := [])
    case PrefillRound =>
      if CanPush(s) then Push(s) else s.(pc := Loop, active := true, ints := true)
    case EnterIrq(txw) =>
      if s.err
      then s.(busy := false, err := false, ints := false, ended := s.ended + [Transfer(s.submitted, s.wire, false)])
      else if txw then s.(irq := Filling(s.done))
      else if s.done then Complete(s) else s
    case FillRound =>
      if CanPush(s) then Push(s)
      else if s.irq.doneSeen then Complete(s) else s.(irq := NoIrq)
    case SendByte => s.(wire := s.wire + [s.fifo[0]], fifo := s.fifo[1..])
    case Finish => s.(done := true, active := false)
    case Fail(withDone) => s.(err := true, active := false, done := s.done || withDone)
  }

  /** Bytes sent, bytes in the FIFO and the rest of the buffer make up the submitted frame. */
  predicate Conserved(wire: Frame, fifo: Frame, buffer: Frame, pos: nat, submitted: Frame) {
    pos <= |buffer| && wire + fifo + buffer[pos..] == submitted
  }

  /** The k-th transfer was one of the k-th frame drawn: all of it, or after an error a prefix. */
  ghost predicate InStep(ended: seq<Transfer>, drawn: seq<Frame>) {
    && |ended| <= |drawn|
    && forall k :: 0 <= k < |ended| ==>
         && ended[k].frame == drawn[k]
         && if ended[k].ok then ended[k].sent == ended[k].frame else ended[k].sent <= ended[k].frame
  }

  /** A frame is drawn that is not sent yet. */
  predicate Pending(s: Display) {
    s.pc.Show? || s.busy
  }

  /** From the fill of the FIFO to the end of the transfer */
  predicate InFlight(s: Display) {
    s.ints || s.pc.Prefill?
  }

  /** Every frame drawn was transferred, but for the one that is pending. */
  ghost predicate History(s: Display) {
    && InStep(s.ended, s.drawn)
    && |s.drawn| == |s.ended| + (if Pending(s) then 1 else 0)
    && (Pending(s) ==> s.drawn[|s.ended|] == s.buffer)
  }

  ghost predicate Inv(s: Display) {
    // flags of the driver
    && s.busy == (s.ints || s.pc.WaitInactive? || s.pc.ClearStatus? || s.pc.ClearFifo? || s.pc.Prefill?)
    && (s.ints ==> s.pc.Loop?)
    && (s.irq.Filling? ==> s.ints)
    && (s.active ==> s.ints) && (s.err ==> !s.active)
    && |s.fifo| <= FIFO_SIZE
    // the buffer does not change while it is being sent
    && (s.pc.Show? ==> !s.busy)
    && (s.busy ==> s.buffer == s.submitted && s.pos + s.remaining == |s.buffer|)
    && (InFlight(s) ==>
          && Conserved(s.wire, s.fifo, s.buffer, s.pos, s.submitted)
          && s.dlen == |s.buffer| && |s.wire| <= s.dlen)
    && (s.pc.WaitInactive? || s.pc.ClearStatus? || s.pc.ClearFifo? ==> s.pos == 0)
    && (s.pc.ClearFifo? ==> s.dlen == |s.buffer|)
    && ((s.pc.ClearFifo? || s.pc.Prefill?) ==> !s.done && !s.err)
    // what the flags of the controller say
    && (s.ints && s.done && !s.err ==> |s.wire| == s.dlen && !s.active)
    && (s.irq.Filling? && s.irq.doneSeen ==> s.done && !s.err)
    && (s.ints ==> !s.pc.Prefill? && (s.active || s.done || s.err))
    && History(s)
    && (s.remaining > 0 ==> s.pos < |s.buffer|)
  }

  lemma PushConserves(wire: Frame, fifo: Frame, buffer: Frame, pos: nat, submitted: Frame)
    requires Conserved(wire, fifo, buffer, pos, submitted) && pos < |buffer|
    ensures Conserved(wire, fifo + [buffer[pos]], buffer, pos + 1, submitted)
  {
    assert buffer[pos..] == [buffer[pos]] + buffer[pos + 1..];
  }

  lemma SendConserves(wire: Frame, fifo: Frame, buffer: Frame, pos: nat, submitted: Frame)
    requires Conserved(wire, fifo, buffer, pos, submitted) && fifo != []
    ensures Conserved(wire + [fifo[0]], fifo[1..], buffer, pos, submitted)
  {
    assert fifo == [fifo[0]] + fifo[1..];
  }

  /** What is on the wire is a prefix of the frame, and the frame if it is as long. */
  lemma SentIsPrefix(wire: Frame, fifo: Frame, buffer: Frame, pos: nat, submitted: Frame)
    requires Conserved(wire, fifo, buffer, pos, submitted)
    ensures wire <= submitted && |wire| + |fifo| + |buffer| - pos == |submitted|
    ensures |wire| == |submitted| ==> wire == submitted
  {
    assert wire + (fifo + buffer[pos..]) == submitted;
  }

  lemma EndInStep(ended: seq<Transfer>, drawn: seq<Frame>, t: Transfer)
    requires InStep(ended, drawn) && |ended| < |drawn| && t.frame == drawn[|ended|]
    requires if t.ok then t.sent == t.frame else t.sent <= t.frame
    ensures InStep(ended + [t], drawn)
  {}

  lemma DrawInStep(ended: seq<Transfer>, drawn: seq<Frame>, frame: Frame)
    requires InStep(ended, drawn)
    ensures InStep(ended, drawn + [frame])
  {}

  lemma TaskKeeps(s: Display, e: Event)
    requires Inv(s) && Enabled(s, e)
    requires e.BeginDraw? || e.DrawByte? || e.EndDraw? || e.StartShow? || e.PollInactive? || e.ResetStatus?
          || e.ResetFifo?
    ensures Inv(Step(s, e))
  {
    if e.ResetFifo? {
      assert [] + [] + s.buffer[0..] == s.submitted;
    }
    DrawInStep(s.ended, s.drawn, s.buffer);
    hide Conserved, InStep;
  }

  lemma FillKeeps(s: Display, e: Event)
    requires Inv(s) && Enabled(s, e) && (e.PrefillRound? || e.FillRound?)
    ensures Inv(Step(s, e))
  {
    if CanPush(s) {
      PushKeeps(s);
    } else {
      FillEnds(s, e);
    }
    hide Inv;
  }

  lemma PushKeeps(s: Display)
    requires Inv(s) && CanPush(s) && (s.pc.Prefill? || s.irq.Filling?)
    ensures Inv(Push(s))
  {
    PushConserves(s.wire, s.fifo, s.buffer, s.pos, s.submitted);
    hide Conserved, InStep;
  }

  lemma FillEnds(s: Display, e: Event)
    requires Inv(s) && Enabled(s, e) && (e.PrefillRound? || e.FillRound?) && !CanPush(s)
    ensures Inv(Step(s, e))
  {
    if e.FillRound? && s.irq.doneSeen {
      CompleteKeeps(s);
    } else {
      hide Conserved, InStep;
    }
  }

  lemma CompleteKeeps(s: Display)
    requires Inv(s) && s.ints && s.done && !s.err
    ensures Inv(Complete(s))
  {
    SentIsPrefix(s.wire, s.fifo, s.buffer, s.pos, s.submitted);
    HistoryEnds(s, Transfer(s.submitted, s.wire, true));
    hide Conserved, History;
  }

  /** The end of the pending transfer */
  lemma HistoryEnds(s: Display, t: Transfer)
    requires History(s) && s.busy && !s.pc.Show? && t.frame == s.buffer
    requires if t.ok then t.sent == t.frame else t.sent <= t.frame
    ensures forall s': Display :: s'.ended == s.ended + [t] && s'.drawn == s.drawn && !Pending(s') ==> History(s')
  {
    EndInStep(s.ended, s.drawn, t);
    hide InStep;
  }

  lemma IrqKeeps(s: Display, e: Event)
    requires Inv(s) && Enabled(s, e) && e.EnterIrq?
    ensures Inv(Step(s, e))
  {
    if s.err {
      SentIsPrefix(s.wire, s.fifo, s.buffer, s.pos, s.submitted);
      HistoryEnds(s, Transfer(s.submitted, s.wire, false));
      hide Conserved, History;
    } else if !e.txw && s.done {
      CompleteKeeps(s);
    } else {
      hide Conserved, InStep;
    }
  }

  lemma ControllerKeeps(s: Display, e: Event)
    requires Inv(s) && Enabled(s, e) && (e.SendByte? || e.Finish? || e.Fail?)
    ensures Inv(Step(s, e))
  {
    if s.fifo != [] {
      SendConserves(s.wire, s.fifo, s.buffer, s.pos, s.submitted);
    }
    hide Conserved, InStep;
  }

  /** The invariant is kept by every step of the task, of the handler and of the controller. */
  lemma StepKeeps(s: Display, e: Event)
    requires Inv(s) && Enabled(s, e)
    ensures Inv(Step(s, e))
  {
    hide Step, Enabled;
    match e
    case PrefillRound => FillKeeps(s, e);
    case FillRound => FillKeeps(s, e);
    case EnterIrq(_) => IrqKeeps(s, e);
    case SendByte => ControllerKeeps(s, e);
    case Finish => ControllerKeeps(s, e);
    case Fail(_) => ControllerKeeps(s, e);
    case _ => TaskKeeps(s, e);
  }

  function Init(size: nat): Display {
    var blank := seq(size, _ => 0);
    Display(Loop, NoIrq, blank, false, 0, 0, [], [], 0, false, false, false, false, [], [], [])
  }

  // ---------------------------------------------------------------- runs

  /** Every interleaving: an event that is not enabled does not happen. */
  function Run(size: nat, events: seq<Event>): (s: Display)
    ensures Inv(s)
  {
    if events == [] then Init(size)
    else
      var s := Run(size, events[..|events| - 1]);
      var e := events[|events| - 1];
      if Enabled(s, e) then StepKeeps(s, e); Step(s, e) else s
  }

  /** In every run: an enabled interrupt means that the driver is busy, no byte of a transfer in
      flight is lost, repeated or changed, and the FIFO does not overrun. */
  lemma RunConserves(size: nat, events: seq<Event>)
    ensures var s := Run(size, events);
      && (s.ints ==> s.busy) && |s.fifo| <= FIFO_SIZE
      && (s.ints ==> s.pos <= |s.buffer| && s.wire + s.fifo + s.buffer[s.pos..] == s.submitted == s.buffer)
  {}

  /** In every run: the k-th transfer to end is one of the k-th frame drawn, so each frame drawn is
      sent once and in order. Without an error exactly the whole frame went over the wire, else a
      prefix of it. At most one drawn frame has not been sent yet. */
  lemma RunSendsWholeFrames(size: nat, events: seq<Event>)
    ensures var s := Run(size, events);
      && |s.ended| <= |s.drawn| <= |s.ended| + 1
      && (forall k :: 0 <= k < |s.ended| ==>
            && s.ended[k].frame == s.drawn[k]
            && if s.ended[k].ok then s.ended[k].sent == s.ended[k].frame else s.ended[k].sent <= s.ended[k].frame)
      && (s.busy ==> |s.drawn| == |s.ended| + 1 && s.submitted == s.drawn[|s.ended|])
      && (s.pc.Loop? && !s.busy ==> |s.drawn| == |s.ended|)
  {}

  /** In every run a frame that has been drawn is also sent: ShowAsync never finds the driver busy. */
  lemma RunNeverSkipsFrame(size: nat, events: seq<Event>)
    ensures var s := Run(size, events); s.pc.Show? ==> !s.busy
  {}

  // ---------------------------------------------------------------- progress

  /** What the side that can go on does next, as long as no transfer fails: the task sets the transfer up,
      the controller sends, and the handler runs when there is something to fill or the transfer is over. */
  function NextEvent(s: Display): Event
    requires Inv(s) && s.busy && !s.err
  {
    match s.pc
    case WaitInactive => PollInactive
    case ClearStatus => ResetStatus
    case ClearFifo => ResetFifo
    case Prefill => PrefillRound
    case _ =>
      if s.irq.Filling? then FillRound
      else if s.done then EnterIrq(false)
      else if s.fifo != [] then SendByte
      else if s.remaining > 0 then EnterIrq(true)
      else Finish
  }

  function SetUpLeft(pc: Pc): nat {
    match pc
    case WaitInactive => 4
    case ClearStatus => 3
    case ClearFifo => 2
    case Prefill => 1
    case _ => 0
  }

  /** What the handler or the controller has to do until another byte is in the FIFO or on the wire */
  function StepsToByte(s: Display): nat {
    if s.done then (if s.irq.Filling? then 1 else 0)
    else if s.irq.Filling? then (if CanPush(s) then 1 else 4)
    else if s.fifo == [] && s.remaining > 0 then 2
    else 3
  }

  lemma NextIsEnabled(s: Display)
    requires Inv(s) && s.busy && !s.err
    ensures Enabled(s, NextEvent(s))
  {
    if InFlight(s) {
      SentIsPrefix(s.wire, s.fifo, s.buffer, s.pos, s.submitted);
    }
    hide Conserved, InStep;
  }

  /** The next event makes progress, or it ends the transfer with all of the frame sent. */
  lemma NextProgresses(s: Display)
    requires Inv(s) && s.busy && !s.err && Enabled(s, NextEvent(s))
    ensures Progress(s, Step(s, NextEvent(s)))
  {
    if s.pc.Loop? {
      hide Progress, Inv, Step;
      LoopProgresses(s);
    } else {
      SetUpProgresses(s);
    }
  }

  ghost predicate Progress(s: Display, s': Display) {
    if s'.busy then
      && !s'.err && s'.submitted == s.submitted && s'.ended == s.ended
      && (SetUpLeft(s'.pc) < SetUpLeft(s.pc)
          || (SetUpLeft(s'.pc) == SetUpLeft(s.pc) == 1 && s'.remaining < s.remaining)
          || (SetUpLeft(s'.pc) == SetUpLeft(s.pc) == 0 && LessLeft(s, s')))
    else s'.pc.Loop? && s'.ended == s.ended + [Transfer(s.submitted, s.submitted, true)]
  }

  lemma SetUpProgresses(s: Display)
    requires Inv(s) && s.busy && !s.err && Enabled(s, NextEvent(s)) && !s.pc.Loop?
    ensures Progress(s, Step(s, NextEvent(s)))
  {
    hide Conserved, InStep, History, StepsToByte, LessLeft;
  }

  lemma LoopProgresses(s: Display)
    requires Inv(s) && s.busy && !s.err && Enabled(s, NextEvent(s)) && s.pc.Loop?
    ensures Progress(s, Step(s, NextEvent(s)))
  {
    SentIsPrefix(s.wire, s.fifo, s.buffer, s.pos, s.submitted);
    hide Conserved, InStep, History;
  }

  predicate LessLeft(s: Display, s': Display) {
    && s'.dlen == s.dlen >= |s'.wire| >= |s.wire|
    && (|s'.wire| == |s.wire| ==>
          s'.remaining < s.remaining || (s'.remaining == s.remaining && StepsToByte(s') < StepsToByte(s)))
  }

  /** A transfer that does not fail comes to its end, and then all of the frame has been sent. */
  function Settle(s: Display): (r: Display)
    requires Inv(s) && s.busy && !s.err
    ensures Inv(r) && !r.busy && r.pc.Loop? && r.ended == s.ended + [Transfer(s.submitted, s.submitted, true)]
    decreases SetUpLeft(s.pc), if SetUpLeft(s.pc) > 0 then 0 else s.dlen - |s.wire|, s.remaining, StepsToByte(s)
  {
    hide Conserved, InStep, Step, NextEvent, StepsToByte;
    NextIsEnabled(s);
    NextProgresses(s);
    StepKeeps(s, NextEvent(s));
    var s' := Step(s, NextEvent(s));
    if s'.busy then Settle(s') else s'
  }

  /** After an error the next interrupt ends the transfer. */
  lemma FailureEnds(s: Display, txw: bool)
    requires Inv(s) && s.err && s.ints && s.irq.NoIrq?
    ensures var s' := Step(s, EnterIrq(txw));
      !s'.busy && !s'.ints && s'.ended == s.ended + [Transfer(s.submitted, s.wire, false)]
  {
    hide Conserved, InStep;
  }
}
