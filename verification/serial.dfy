/**
 Interrupt-driven transmission of the serial driver (circle/lib/serial.cpp): writers fill a
 ring under a spin lock, then drain it into the FIFO of the UART; the interrupt handler drains
 the rest. Between any two accesses the UART may shift bytes out and raise its interrupt.
*/
module SerialSpec {
  import opened Basics

  const SERIAL_BUF_SIZE := 2048

  // ---------------------------------------------------------------- ring

  /** Pointer after the next byte: the mask SERIAL_BUF_MASK wraps it. */
  function Next(p: nat): (q: nat)
    requires p < SERIAL_BUF_SIZE
    ensures q == if p == SERIAL_BUF_SIZE - 1 then 0 else p + 1
  {
    (p + 1) % SERIAL_BUF_SIZE
  }

  /** m_TxBuffer or m_RxBuffer with its two pointers */
  datatype Ring = Ring(buf: seq<uint8>, inPtr: nat, outPtr: nat) {
    predicate Valid() {
      |buf| == SERIAL_BUF_SIZE && inPtr < SERIAL_BUF_SIZE && outPtr < SERIAL_BUF_SIZE
    }

    predicate Empty() {
      inPtr == outPtr
    }

    predicate Full()
      requires Valid()
    {
      Next(inPtr) == outPtr
    }

    function Contents(): seq<uint8>
      requires Valid()
    {
      if outPtr <= inPtr then buf[outPtr..inPtr] else buf[outPtr..] + buf[..inPtr]
    }

    function Put(b: uint8): (r: Ring)
      requires Valid()
      ensures r.Valid()
    {
      Ring(buf[inPtr := b], Next(inPtr), outPtr)
    }

    function Take(): (r: Ring)
      requires Valid()
      ensures r.Valid()
    {
      Ring(buf, inPtr, Next(outPtr))
    }
  }

  /** The ring is a queue of at most SERIAL_BUF_SIZE - 1 bytes. */
  lemma RingSize(r: Ring)
    requires r.Valid()
    ensures r.Empty() <==> r.Contents() == []
    ensures r.Full() <==> |r.Contents()| == SERIAL_BUF_SIZE - 1
    ensures |r.Contents()| <= SERIAL_BUF_SIZE - 1
  {
    hide Next;
  }

  lemma PutAppends(r: Ring, b: uint8)
    requires r.Valid() && !r.Full()
    ensures r.Put(b).Contents() == r.Contents() + [b]
  {
    hide Next;
    var buf' := r.buf[r.inPtr := b];
    if r.outPtr <= r.inPtr {
      assert buf'[r.outPtr..] == r.buf[r.outPtr..r.inPtr] + buf'[r.inPtr..];
    } else {
      assert buf'[..r.inPtr + 1] == r.buf[..r.inPtr] + [b];
    }
  }

  lemma TakeRemovesFirst(r: Ring)
    requires r.Valid() && !r.Empty()
    ensures r.Contents() == [r.buf[r.outPtr]] + r.Take().Contents()
  {
    hide Next;
    if r.outPtr > r.inPtr {
      assert r.buf[r.outPtr..] == [r.buf[r.outPtr]] + r.buf[r.outPtr + 1..];
    }
  }

  // ---------------------------------------------------------------- transmitter

  /** What the interrupt handler does next: it reads the flags, or it has found room in the FIFO. */
  datatype Stage = Checks | HasRoom

  datatype Lock = Free | Writer(w: nat) | Handler(stage: Stage)

  /** What a task inside Write(buffer, count) does. With the line lock it fills the ring, or has
      found it full. Without it, it has yet to run its drain section, or is in there: before it
      reads the flags, after it has found room in the FIFO, or after it has found the FIFO full
      and before it enables the interrupt. */
  datatype Phase = Filling | Stopped | ToDrain | Draining | Sending | Enabling

  /** The text of a call as it is to be sent, what the ring has taken of it, and whether it was
      found full */
  datatype Call = Call(text: seq<uint8>, taken: nat, stopped: bool)

  /** depth is the size of the transmit FIFO of the UART, trigger the level at which it raises
      its interrupt when the level falls. */
  datatype Line = Line(
    tx: Ring, lock: Lock, lineOwner: Option<nat>, writers: map<nat, Phase>,
    fifo: seq<uint8>, wire: seq<uint8>, intTx: bool, raised: bool,
    // history: bytes accepted, all calls in the order of their start, the call of each writer
    accepted: seq<uint8>, calls: seq<Call>, callBy: map<nat, nat>, depth: nat, trigger: nat)

  /** Every event is at most one access to the UART. */
  datatype Event =
    | BeginWrite(w: nat, text: seq<uint8>)
    | PutChar(w: nat)
    | EndFill(w: nat)
    | EnterDrain(w: nat)
    | ReadFlags(w: nat)
    | WriteData(w: nat)
    | EnableTx(w: nat)
    | EnterHandler
    | HandlerReadsFlags
    | HandlerActs
    | ShiftOut

  predicate InPhase(s: Line, w: nat, p: Phase) {
    w in s.writers && s.writers[w] == p
  }

  predicate KnowsCall(s: Line, w: nat) {
    && w in s.callBy && s.callBy[w] < |s.calls|
    && s.calls[s.callBy[w]].taken <= |s.calls[s.callBy[w]].text|
  }

  function NextByte(s: Line, w: nat): uint8
    requires !AllTaken(s, w)
  {
    s.calls[s.callBy[w]].text[s.calls[s.callBy[w]].taken]
  }

  /** The call of the writer has nothing left to store. */
  predicate AllTaken(s: Line, w: nat) {
    KnowsCall(s, w) ==> s.calls[s.callBy[w]].taken == |s.calls[s.callBy[w]].text|
  }

  predicate Enabled(s: Line, e: Event) {
    match e
    case BeginWrite(w, _) => w !in s.writers && s.lineOwner.None?
    case PutChar(w) => InPhase(s, w, Filling) && !AllTaken(s, w) && s.lock.Free?
    case EndFill(w) => InPhase(s, w, Stopped) || (InPhase(s, w, Filling) && AllTaken(s, w))
    case EnterDrain(w) => InPhase(s, w, ToDrain) && s.lock.Free?
    case ReadFlags(w) => InPhase(s, w, Draining)
    case WriteData(w) => InPhase(s, w, Sending)
    case EnableTx(w) => InPhase(s, w, Enabling)
    case EnterHandler => s.lock.Free?
    case HandlerReadsFlags => s.lock == Handler(Checks)
    case HandlerActs => s.lock == Handler(HasRoom)
    case ShiftOut => s.fifo != []
  }

  /** One byte moves from the ring to the FIFO. */
  function Transmit(s: Line): Line
    requires s.tx.Valid()
  {
    s.(fifo := s.fifo + [s.tx.buf[s.tx.outPtr]], tx := s.tx.Take())
  }

  function Leave(s: Line, w: nat): Line {
    s.(lock := Free, writers := s.writers - {w})
  }

  function Step(s: Line, e: Event): Line
    requires s.tx.Valid() && Enabled(s, e)
  {
    match e
    case BeginWrite(w, text) =>
      s.(writers := s.writers[w := Filling], lineOwner := Some(w),
         calls := s.calls + [Call(text, 0, false)], callBy := s.callBy[w := |s.calls|])
    case PutChar(w) =>
      var k := s.callBy[w];
      if s.tx.Full() then s.(writers := s.writers[w := Stopped], calls := s.calls[k := s.calls[k].(stopped := true)])
      else
        var b := NextByte(s, w);
        s.(tx := s.tx.Put(b), accepted := s.accepted + [b],
           calls := s.calls[k := s.calls[k].(taken := s.calls[k].taken + 1)])
    case EndFill(w) => s.(writers := s.writers[w := ToDrain], lineOwner := None)
    case EnterDrain(w) => s.(writers := s.writers[w := Draining], lock := Writer(w))
    case ReadFlags(w) =>
      if s.tx.Empty() then Leave(s, w)
      else s.(writers := s.writers[w := if |s.fifo| < s.depth then Sending else Enabling])
    case WriteData(w) => Transmit(s).(writers := s.writers[w := Draining])
    case EnableTx(w) => Leave(s, w).(intTx := true)
    case EnterHandler => s.(lock := Handler(Checks), raised := s.raised && !s.intTx)
    case HandlerReadsFlags => s.(lock := if |s.fifo| >= s.depth then Free else Handler(HasRoom))
    case HandlerActs =>
      if s.tx.Empty() then s.(lock := Free, intTx := false)
      else Transmit(s).(lock := Handler(Checks))
    case ShiftOut =>
      s.(wire := s.wire + [s.fifo[0]], fifo := s.fifo[1..], raised := s.raised || |s.fifo| == s.trigger + 1)
  }

  /** Every accepted byte is on the wire, in the FIFO or in the ring, in order. */
  predicate Conserved(s: Line)
    requires s.tx.Valid()
  {
    s.wire + s.fifo + s.tx.Contents() == s.accepted
  }

  predicate OwnsLine(p: Phase) {
    p.Filling? || p.Stopped?
  }

  /** Writers and locks belong together, and who has found room in the FIFO still has it. */
  ghost predicate LocksMatch(s: Line) {
    && (s.lock.Writer? ==> s.lock.w in s.writers)
    && (forall w | w in s.writers :: s.lock == Writer(w) <==> !OwnsLine(s.writers[w]) && !s.writers[w].ToDrain?)
    && (forall w | w in s.writers && OwnsLine(s.writers[w]) :: s.lineOwner == Some(w))
    && (s.lineOwner.Some? ==> s.lineOwner.value in s.writers && OwnsLine(s.writers[s.lineOwner.value]))
    && (forall w | w in s.writers && s.writers[w] == Sending :: |s.fifo| < s.depth && !s.tx.Empty())
    && (s.lock == Handler(HasRoom) ==> |s.fifo| < s.depth)
  }

  predicate AboutToEnable(s: Line) {
    s.lock.Writer? && InPhase(s, s.lock.w, Enabling)
  }

  /** If bytes wait in the ring, a writer has yet to run (or is running) its drain section, or
      the interrupt is enabled. It has been raised or will be when the FIFO level falls, also while
      a writer that has found the FIFO full has not yet enabled it. */
  ghost predicate WakeUp(s: Line) {
    && (!s.tx.Empty() && s.writers == map[] ==> s.intTx && (s.lock.Handler? || s.raised || |s.fifo| > s.trigger))
    && (AboutToEnable(s) ==> s.raised || |s.fifo| > s.trigger)
  }

  /** What the ring has taken of the calls, one after the other */
  function Lines(calls: seq<Call>): seq<uint8>
    requires forall k :: 0 <= k < |calls| ==> calls[k].taken <= |calls[k].text|
  {
    if calls == [] then []
    else
      var last := calls[|calls| - 1];
      Lines(calls[..|calls| - 1]) + last.text[..last.taken]
  }

  /** The accepted bytes are those of the calls, and who owns the line lock makes the last call. */
  ghost predicate LinesTogether(s: Line) {
    && (forall k :: 0 <= k < |s.calls| ==> s.calls[k].taken <= |s.calls[k].text|)
    && s.accepted == Lines(s.calls)
    && (s.lineOwner.Some? ==>
          && s.calls != [] && s.lineOwner.value in s.callBy && s.callBy[s.lineOwner.value] == |s.calls| - 1
          && (InPhase(s, s.lineOwner.value, Stopped) ==> s.calls[|s.calls| - 1].stopped))
    && (forall k :: 0 <= k < |s.calls| && (k < |s.calls| - 1 || s.lineOwner.None?) ==>
          s.calls[k].taken == |s.calls[k].text| || s.calls[k].stopped)
  }

  ghost predicate Inv(s: Line) {
    && s.tx.Valid() && s.trigger < s.depth && |s.fifo| <= s.depth
    && Conserved(s) && LocksMatch(s) && WakeUp(s) && LinesTogether(s)
  }

  lemma LinesGrow(calls: seq<Call>, c: Call)
    requires forall k :: 0 <= k < |calls| ==> calls[k].taken <= |calls[k].text|
    requires calls != [] && c == calls[|calls| - 1] && c.taken < |c.text|
    ensures Lines(calls[|calls| - 1 := c.(taken := c.taken + 1)]) == Lines(calls) + [c.text[c.taken]]
  {
    var n := |calls| - 1;
    var calls' := calls[n := c.(taken := c.taken + 1)];
    assert calls'[..n] == calls[..n];
    assert c.text[..c.taken + 1] == c.text[..c.taken] + [c.text[c.taken]];
  }

  lemma SameLines(calls: seq<Call>, c: Call)
    requires forall k :: 0 <= k < |calls| ==> calls[k].taken <= |calls[k].text|
    requires calls != [] && c == calls[|calls| - 1]
    ensures Lines(calls[|calls| - 1 := c.(stopped := true)]) == Lines(calls)
  {
    assert calls[|calls| - 1 := c.(stopped := true)][..|calls| - 1] == calls[..|calls| - 1];
  }

  lemma CallBegins(calls: seq<Call>, text: seq<uint8>)
    requires forall k :: 0 <= k < |calls| ==> calls[k].taken <= |calls[k].text|
    ensures Lines(calls + [Call(text, 0, false)]) == Lines(calls)
  {
    assert (calls + [Call(text, 0, false)])[..|calls|] == calls;
  }

  lemma OwnerOfLine(s: Line, w: nat)
    requires LocksMatch(s) && w in s.writers && OwnsLine(s.writers[w])
    ensures s.lineOwner == Some(w)
  {}

  lemma PutKeepsLines(s: Line, w: nat)
    requires s.tx.Valid() && LinesTogether(s) && s.lineOwner == Some(w) && Enabled(s, PutChar(w))
    ensures LinesTogether(Step(s, PutChar(w)))
  {
    hide Ring.Contents, Ring.Put, Ring.Full, Lines;
    var last := s.calls[|s.calls| - 1];
    SameLines(s.calls, last);
    if last.taken < |last.text| {
      LinesGrow(s.calls, last);
    }
  }

  /** The line lock is what keeps the bytes of a call together. */
  lemma StepKeepsLines(s: Line, e: Event)
    requires s.tx.Valid() && LocksMatch(s) && LinesTogether(s) && Enabled(s, e)
    ensures LinesTogether(Step(s, e))
  {
    hide Ring.Contents, Ring.Take, Ring.Put, Ring.Full, Lines, LocksMatch;
    match e
    case BeginWrite(_, text) =>
      CallBegins(s.calls, text);
    case PutChar(w) =>
      OwnerOfLine(s, w);
      PutKeepsLines(s, w);
    case EndFill(w) =>
      OwnerOfLine(s, w);
    case EnterDrain(w) =>
      DrainerIsNotOwner(s, w);
    case ReadFlags(w) =>
      DrainerIsNotOwner(s, w);
    case WriteData(w) =>
      DrainerIsNotOwner(s, w);
    case EnableTx(w) =>
      DrainerIsNotOwner(s, w);
    case _ =>
  }

  lemma DrainerIsNotOwner(s: Line, w: nat)
    requires LocksMatch(s) && w in s.writers && !OwnsLine(s.writers[w])
    ensures s.lineOwner != Some(w)
  {}

  lemma TransmitConserves(s: Line)
    requires s.tx.Valid() && Conserved(s) && !s.tx.Empty()
    ensures Transmit(s).tx.Valid() && Conserved(Transmit(s))
  {
    hide Ring.Contents, Ring.Take;
    TakeRemovesFirst(s.tx);
  }

  lemma StepConserves(s: Line, e: Event)
    requires s.tx.Valid() && Conserved(s) && LocksMatch(s) && Enabled(s, e)
    ensures Step(s, e).tx.Valid() && Conserved(Step(s, e))
  {
    hide Ring.Contents, Ring.Take, Ring.Put, Ring.Full;
    match e
    case PutChar(w) =>
      if !s.tx.Full() {
        PutAppends(s.tx, NextByte(s, w));
      }
    case WriteData(_) =>
      TransmitConserves(s);
    case HandlerActs =>
      if !s.tx.Empty() {
        TransmitConserves(s);
      }
    case ShiftOut =>
      assert s.fifo == [s.fifo[0]] + s.fifo[1..];
    case _ =>
  }

  /** What an event does to the record of the calls: only the start of a call adds one, with the text of
      this event, and storing a byte is the next one of the text of its writer. */
  lemma StepRecordsCalls(s: Line, e: Event)
    requires Inv(s) && Enabled(s, e)
    ensures var s' := Step(s, e);
      && |s'.calls| == |s.calls| + (if e.BeginWrite? then 1 else 0)
      && (e.BeginWrite? ==> s'.calls == s.calls + [Call(e.text, 0, false)] && s'.callBy[e.w] == |s.calls|)
      && (forall k :: 0 <= k < |s.calls| ==> s'.calls[k].text == s.calls[k].text)
      && (s'.accepted != s.accepted ==>
            && e.PutChar? && e.w in s.callBy && s.callBy[e.w] < |s.calls|
            && var c := s.calls[s.callBy[e.w]]; c.taken < |c.text| && s'.accepted == s.accepted + [c.text[c.taken]])
      && (e.PutChar? ==> (s'.accepted == s.accepted <==> |s.tx.Contents()| == 2047))
  {
    hide Ring.Contents, Conserved, WakeUp, Lines;
    RingSize(s.tx);
    hide Ring.Full, Ring.Put, Ring.Take;
  }

  lemma FillKeepsLocks(s: Line, e: Event)
    requires s.tx.Valid() && LocksMatch(s) && Enabled(s, e) && (e.BeginWrite? || e.PutChar? || e.EndFill?)
    ensures LocksMatch(Step(s, e))
  {
    hide Ring.Contents, Ring.Put, Ring.Full, Ring.Empty, Ring.Valid;
    match e
    case PutChar(w) =>
      if !s.tx.Full() {
        PutNotEmpty(s.tx, NextByte(s, w));
      }
    case _ =>
  }

  lemma DrainKeepsLocks(s: Line, e: Event)
    requires s.tx.Valid() && LocksMatch(s) && Enabled(s, e)
    requires e.EnterDrain? || e.ReadFlags? || e.WriteData? || e.EnableTx?
    ensures LocksMatch(Step(s, e))
  {
    hide Ring.Contents, Ring.Take, Ring.Empty, Ring.Valid;
  }

  lemma DeviceKeepsLocks(s: Line, e: Event)
    requires s.tx.Valid() && LocksMatch(s) && Enabled(s, e)
    requires e.EnterHandler? || e.HandlerReadsFlags? || e.HandlerActs? || e.ShiftOut?
    ensures LocksMatch(Step(s, e))
  {
    hide Ring.Contents, Ring.Take, Ring.Empty, Ring.Valid;
  }

  lemma StepKeepsLocks(s: Line, e: Event)
    requires s.tx.Valid() && LocksMatch(s) && Enabled(s, e)
    ensures LocksMatch(Step(s, e))
  {
    hide LocksMatch, Enabled, Step;
    if e.BeginWrite? || e.PutChar? || e.EndFill? {
      FillKeepsLocks(s, e);
    } else if e.EnterDrain? || e.ReadFlags? || e.WriteData? || e.EnableTx? {
      DrainKeepsLocks(s, e);
    } else {
      DeviceKeepsLocks(s, e);
    }
  }

  lemma PutNotEmpty(r: Ring, b: uint8)
    requires r.Valid() && !r.Full()
    ensures !r.Put(b).Empty()
  {}

  lemma StepKeepsWakeUp(s: Line, e: Event)
    requires s.tx.Valid() && LocksMatch(s) && WakeUp(s) && Enabled(s, e) && s.trigger < s.depth
    ensures WakeUp(Step(s, e))
  {
    hide Ring.Contents, Ring.Take, Ring.Put, Ring.Full;
  }

  /** The invariant is kept by every step of every writer, of the handler and of the UART. */
  lemma StepKeeps(s: Line, e: Event)
    requires Inv(s) && Enabled(s, e)
    ensures Inv(Step(s, e))
  {
    StepConserves(s, e);
    StepKeepsLocks(s, e);
    StepKeepsWakeUp(s, e);
    StepKeepsLines(s, e);
    hide Conserved, WakeUp, LinesTogether;
  }

  function Init(depth: nat, trigger: nat): Line {
    Line(Ring(seq(SERIAL_BUF_SIZE, _ => 0), 0, 0), Free, None, map[], [], [], false, false,
         [], [], map[], depth, trigger)
  }

  // ---------------------------------------------------------------- runs

  /** Every interleaving: an event that is not enabled does not happen. */
  function Run(depth: nat, trigger: nat, events: seq<Event>): (s: Line)
    requires trigger < depth
    ensures Inv(s)
  {
    if events == [] then Init(depth, trigger)
    else
      var s := Run(depth, trigger, events[..|events| - 1]);
      var e := events[|events| - 1];
      if Enabled(s, e) then StepKeeps(s, e); Step(s, e) else s
  }

  /** In every run the bytes sent, followed by those in the FIFO and in the ring, are the bytes
      accepted, in order, and the FIFO has never overrun. */
  lemma RunConserves(depth: nat, trigger: nat, events: seq<Event>)
    requires trigger < depth
    ensures var s := Run(depth, trigger, events);
      && s.tx.Valid() && s.wire + s.fifo + s.tx.Contents() == s.accepted && |s.fifo| <= s.depth
  {}

  /** In every run, while bytes wait in the ring the interrupt is enabled or some writer has yet
      to finish its drain section. */
  lemma RunNeverLosesWakeUp(depth: nat, trigger: nat, events: seq<Event>)
    requires trigger < depth
    ensures var s := Run(depth, trigger, events);
      s.tx.Valid() && (s.tx.Contents() != [] ==> s.intTx || exists w :: w in s.writers)
  {
    var s := Run(depth, trigger, events);
    RingSize(s.tx);
    if s.tx.Contents() != [] && !s.intTx {
      assert s.writers != map[];
      assert s.writers.Keys != {};
    }
  }

  /** In every run the accepted bytes are, call by call in the order in which the calls got the
      line lock, what the ring has taken from the front of the text of the call. So no byte of
      another call comes between two bytes of a call, whoever else writes. The text of a call that
      has given back the line lock is complete, or the ring was found full. */
  lemma RunKeepsLinesTogether(depth: nat, trigger: nat, events: seq<Event>)
    requires trigger < depth
    ensures var s := Run(depth, trigger, events);
      && (forall k :: 0 <= k < |s.calls| ==> s.calls[k].taken <= |s.calls[k].text|)
      && s.accepted == Lines(s.calls)
      && (forall k :: 0 <= k < |s.calls| && (k < |s.calls| - 1 || s.lineOwner.None?) ==>
            s.calls[k].taken == |s.calls[k].text| || s.calls[k].stopped)
  {}

  /** What happens next when no task writes: the handler runs when it can, else the UART shifts. */
  function Settle(s: Line): (r: Line)
    requires Inv(s) && s.writers == map[]
    ensures Inv(r) && r.accepted == s.accepted
    ensures r.wire == s.accepted && r.fifo == [] && r.tx.Contents() == []
    decreases 2 * |s.tx.Contents()| + |s.fifo|, s.raised,
              if s.lock.Free? then 0 else if s.lock.stage.HasRoom? then 1 else 2
  {
    hide Ring.Contents, Conserved, Ring.Take;
    RingSize(s.tx);
    if s.lock == Handler(Checks) then
      StepKeeps(s, HandlerReadsFlags);
      Settle(Step(s, HandlerReadsFlags))
    else if s.lock == Handler(HasRoom) then
      StepKeeps(s, HandlerActs);
      HandlerMeasure(s);
      Settle(Step(s, HandlerActs))
    else if s.raised && s.intTx then
      StepKeeps(s, EnterHandler);
      Settle(Step(s, EnterHandler))
    else if s.fifo != [] then
      StepKeeps(s, ShiftOut);
      Settle(Step(s, ShiftOut))
    else
      AllSent(s);
      s
  }

  lemma HandlerMeasure(s: Line)
    requires s.tx.Valid()
    ensures !s.tx.Empty() ==> |s.tx.Take().Contents()| == |s.tx.Contents()| - 1
  {
    if !s.tx.Empty() {
      TakeRemovesFirst(s.tx);
    }
  }

  lemma AllSent(s: Line)
    requires Inv(s) && s.writers == map[] && s.fifo == [] && s.lock.Free? && !(s.raised && s.intTx)
    ensures s.wire == s.accepted && s.tx.Contents() == []
  {
    RingSize(s.tx);
  }

  // ---------------------------------------------------------------- lines

  const NEWLINE: uint8 := 10
  const RETURN: uint8 := 13

  /** What Write(buffer, count) sends for a text: with SERIAL_OPTION_ONLCR every newline is
      followed by a carriage return. */
  function Translated(text: seq<uint8>, onlcr: bool): (r: seq<uint8>)
    ensures |r| >= |text|
  {
    if text == [] then []
    else
      var last := text[|text| - 1];
      Translated(text[..|text| - 1], onlcr) + if onlcr && last == NEWLINE then [NEWLINE, RETURN] else [last]
  }

  lemma TranslatedNext(text: seq<uint8>, n: nat, onlcr: bool)
    requires n < |text|
    ensures Translated(text[..n + 1], onlcr) ==
      Translated(text[..n], onlcr) + if onlcr && text[n] == NEWLINE then [NEWLINE, RETURN] else [text[n]]
  {
    assert text[..n + 1][..n] == text[..n];
  }

  /** Where the k-th character is in the translation, and what is there: the character, and behind a
      newline (10) a carriage return (13) if that is wanted. */
  ghost predicate CharacterAt(text: seq<uint8>, t: seq<uint8>, onlcr: bool, k: nat, p: nat, next: nat) {
    && k < |text| && p < next <= |t| && t[p] == text[k]
    && if onlcr && text[k] == 10 then next == p + 2 && t[p + 1] == 13 else next == p + 1
  }

  /** The translation has the characters one behind the other, from its start to its end. */
  lemma {:induction false} TranslatedInOrder(text: seq<uint8>, onlcr: bool) returns (at: seq<nat>)
    ensures |at| == |text| + 1 && at[0] == 0 && at[|text|] == |Translated(text, onlcr)|
    ensures forall k :: 0 <= k < |text| ==> CharacterAt(text, Translated(text, onlcr), onlcr, k, at[k], at[k + 1])
    ensures !onlcr ==> Translated(text, onlcr) == text
  {
    at := [0];
    if text != [] {
      var n := |text| - 1;
      var front := TranslatedInOrder(text[..n], onlcr);
      var t, t' := Translated(text, onlcr), Translated(text[..n], onlcr);
      TranslatedNext(text, n, onlcr);
      assert text[..n + 1] == text;
      hide Translated;
      at := front + [|t|];
      forall k | 0 <= k < n
        ensures CharacterAt(text, t, onlcr, k, at[k], at[k + 1])
      {
        assert CharacterAt(text[..n], t', onlcr, k, front[k], front[k + 1]);
      }
      assert CharacterAt(text, t, onlcr, n, at[n], at[n + 1]);
    }
  }

  /** Every character adds at least a byte. */
  lemma {:induction false} TranslatedGrows(text: seq<uint8>, k: nat, n: nat, onlcr: bool)
    requires k <= n <= |text|
    ensures |Translated(text[..n], onlcr)| >= |Translated(text[..k], onlcr)| + n - k
    ensures k < n && onlcr && text[k] == NEWLINE ==>
      |Translated(text[..n], onlcr)| >= |Translated(text[..k], onlcr)| + n - k + 1
    decreases n
  {
    hide Translated;
    if k < n {
      TranslatedNext(text, n - 1, onlcr);
      TranslatedGrows(text, k, n - 1, onlcr);
    }
  }

  /** What Write(buffer, count) takes if no interrupt makes room meanwhile: it stops early only when
      the room is used up, and may stop between a newline and its carriage return. */
  predicate WriteOutcome(text: seq<uint8>, onlcr: bool, room: nat, count: nat, sent: seq<uint8>) {
    && count <= |text| && |sent| <= room && (count < |text| ==> |sent| == room)
    && var t := Translated(text[..count], onlcr);
       sent == t || (onlcr && count < |text| && text[count] == NEWLINE && sent == t + [NEWLINE])
  }

  /** The count leaves out a newline that is sent exactly if the room ends behind a newline. */
  lemma NewlineSplitIff(text: seq<uint8>, onlcr: bool, room: nat, count: nat, sent: seq<uint8>)
    requires WriteOutcome(text, onlcr, room, count, sent)
    ensures sent != Translated(text[..count], onlcr) <==>
      onlcr && exists k :: 0 <= k < |text| && text[k] == NEWLINE && room == |Translated(text[..k], onlcr)| + 1
  {
    hide Translated;
    if sent != Translated(text[..count], onlcr) {
      assert text[count] == NEWLINE && room == |Translated(text[..count], onlcr)| + 1;
    }
    if onlcr && exists k :: 0 <= k < |text| && text[k] == NEWLINE && room == |Translated(text[..k], onlcr)| + 1 {
      var k :| 0 <= k < |text| && text[k] == NEWLINE && room == |Translated(text[..k], onlcr)| + 1;
      if count <= k {
        TranslatedGrows(text, count, k, onlcr);
      } else {
        TranslatedGrows(text, k, count, onlcr);
      }
    }
  }

  /** The input: with room for one byte the newline is sent and the count is 0. */
  lemma NewlineSplitInput(count: nat, sent: seq<uint8>)
    ensures WriteOutcome([NEWLINE], true, 1, count, sent) <==> count == 0 && sent == [NEWLINE]
  {
    var text := [NEWLINE];
    assert text[..0] == [] && text[..1] == text;
    assert Translated(text[..0], true) == [];
    TranslatedNext(text, 0, true);
  }

  /** The room determines what is taken. */
  lemma OutcomeUnique(text: seq<uint8>, onlcr: bool, room: nat, count: nat, sent: seq<uint8>,
                      count': nat, sent': seq<uint8>)
    requires WriteOutcome(text, onlcr, room, count, sent) && WriteOutcome(text, onlcr, room, count', sent')
    ensures count == count' && sent == sent'
  {
    NewlineSplitIff(text, onlcr, room, count, sent);
    NewlineSplitIff(text, onlcr, room, count', sent');
    hide Translated;
    if count < count' {
      TranslatedGrows(text, count, count', onlcr);
    } else {
      TranslatedGrows(text, count', count, onlcr);
    }
  }

  /** A text whose translation fits is taken as a whole. */
  lemma FittingTextTaken(text: seq<uint8>, onlcr: bool, room: nat, count: nat, sent: seq<uint8>)
    requires count <= |text| && (count < |text| ==> |sent| >= room) && |Translated(text, onlcr)| <= room
    requires var t := Translated(text[..count], onlcr);
      sent == t || (onlcr && count < |text| && text[count] == NEWLINE && sent == t + [NEWLINE])
    ensures count == |text| && sent == Translated(text, onlcr)
  {
    hide Translated;
    assert text[..|text|] == text;
    TranslatedGrows(text, count, |text|, onlcr);
  }

  // ---------------------------------------------------------------- receiver

  const SERIAL_ERROR_BREAK := 1
  const SERIAL_ERROR_OVERRUN := 2
  const SERIAL_ERROR_FRAMING := 3
  const SERIAL_ERROR_PARITY := 4

  /** What the data register delivers: a byte and its error flags */
  datatype DataWord = DataWord(data: uint8, breakError: bool, overrun: bool, framing: bool, parity: bool)

  function ErrorOf(d: DataWord): int {
    if d.breakError then -SERIAL_ERROR_BREAK
    else if d.overrun then -SERIAL_ERROR_OVERRUN
    else if d.framing then -SERIAL_ERROR_FRAMING
    else if d.parity then -SERIAL_ERROR_PARITY
    else 0
  }

  /** The receive ring with m_nRxStatus. History: the words that arrived, for each of them if it
      was stored, and how many bytes have been returned by Read. The number of words that had
      arrived when the status was last reported is the checked prefix. */
  datatype Rx = Rx(ring: Ring, status: int, words: seq<DataWord>, stored: seq<bool>, returned: seq<uint8>, checked: nat)

  function Stored(words: seq<DataWord>, stored: seq<bool>): seq<uint8>
    requires |words| == |stored|
  {
    if words == [] then []
    else
      var n := |words| - 1;
      Stored(words[..n], stored[..n]) + if stored[n] then [words[n].data] else []
  }

  /** A word that Read must not pass over in silence */
  predicate Faulty(s: Rx, k: nat)
    requires k < |s.words| == |s.stored|
  {
    !s.stored[k] || ErrorOf(s.words[k]) != 0
  }

  /** The error that Read returns for a word it must not pass over: a break (-1) before an overrun (-2)
      before a framing error (-3) before a parity error (-4), and an overrun for a word without room. */
  ghost predicate Reports(status: int, d: DataWord) {
    && (d.breakError ==> status == -1)
    && (!d.breakError && d.overrun ==> status == -2)
    && (!d.breakError && !d.overrun && d.framing ==> status == -3)
    && (!d.breakError && !d.overrun && !d.framing && d.parity ==> status == -4)
    && (!d.breakError && !d.overrun && !d.framing && !d.parity ==> status == -2)
  }

  /** The first word since the last report that was not stored or arrived with an error */
  ghost predicate FirstFault(s: Rx, k: int)
    requires |s.words| == |s.stored|
  {
    && s.checked <= k < |s.words| && Wrong(s.words[k], s.stored[k])
    && forall j :: s.checked <= j < k ==> !Wrong(s.words[j], s.stored[j])
  }

  predicate Wrong(d: DataWord, stored: bool) {
    !stored || d.breakError || d.overrun || d.framing || d.parity
  }

  ghost predicate RxInv(s: Rx) {
    && s.ring.Valid() && |s.words| == |s.stored| && s.checked <= |s.words| && s.status <= 0
    && s.returned + s.ring.Contents() == Stored(s.words, s.stored)
    && (s.status == 0 <==> forall k | s.checked <= k < |s.words| :: !Faulty(s, k))
    && (forall k | FirstFault(s, k) :: Reports(s.status, s.words[k]))
  }

  /** Without a wrong word since the last report the status is 0, else it is that of the first one. */
  lemma StatusOfFirstFault(s: Rx)
    requires RxInv(s)
    ensures s.status == 0 <==> forall k | s.checked <= k < |s.words| :: !Wrong(s.words[k], s.stored[k])
    ensures forall k | FirstFault(s, k) :: Reports(s.status, s.words[k])
  {
    hide Ring.Contents, Ring.Valid;
    forall k | 0 <= k < |s.words|
      ensures Faulty(s, k) <==> Wrong(s.words[k], s.stored[k])
    {}
    hide Faulty, Wrong, Reports;
  }

  function Receive(s: Rx, d: DataWord): Rx
    requires s.ring.Valid()
  {
    var st := if s.status == 0 then ErrorOf(d) else s.status;
    var s' := s.(words := s.words + [d]);
    if s.ring.Full() then s'.(status := if st == 0 then -SERIAL_ERROR_OVERRUN else st, stored := s.stored + [false])
    else s'.(status := st, stored := s.stored + [true], ring := s.ring.Put(d.data))
  }

  /** The status is reported at once and cleared. */
  function Report(s: Rx): Rx {
    s.(status := 0, checked := |s.words|)
  }

  lemma ReceiveKeeps(s: Rx, d: DataWord)
    requires RxInv(s)
    ensures RxInv(Receive(s, d))
    ensures var s' := Receive(s, d);
      && s'.words == s.words + [d] && s'.stored == s.stored + [|s.ring.Contents()| < 2047]
      && s'.returned == s.returned && s'.checked == s.checked
  {
    hide Ring.Contents, Ring.Put, Ring.Full;
    var s', n := Receive(s, d), |s.words|;
    if !s.ring.Full() {
      PutAppends(s.ring, d.data);
    }
    assert s'.words[..n] == s.words && s'.stored[..n] == s.stored;
    forall k | 0 <= k < n
      ensures Faulty(s', k) == Faulty(s, k)
    {}
    assert s'.status == 0 <==> s.status == 0 && !Faulty(s', n);
    RingSize(s.ring);
    StatusOfFirstFault(s);
    FirstFaultStays(s, d);
  }

  lemma FirstFaultStays(s: Rx, d: DataWord)
    requires s.ring.Valid() && |s.words| == |s.stored| && s.checked <= |s.words| && s.status <= 0
    requires s.status == 0 <==> forall k | s.checked <= k < |s.words| :: !Wrong(s.words[k], s.stored[k])
    requires forall k | FirstFault(s, k) :: Reports(s.status, s.words[k])
    ensures var s' := Receive(s, d); forall k | FirstFault(s', k) :: Reports(s'.status, s'.words[k])
  {
    hide Ring.Contents, Ring.Put, Ring.Full;
    var s', n := Receive(s, d), |s.words|;
    forall k | FirstFault(s', k)
      ensures Reports(s'.status, s'.words[k])
    {
      if k < n {
        FirstFaultOfFront(s, s', k);
      } else {
        NoneWrongInFront(s, s');
      }
    }
  }

  lemma FirstFaultOfFront(s: Rx, s': Rx, k: int)
    requires |s.words| == |s.stored| && |s'.words| == |s'.stored| && s.words <= s'.words && s.stored <= s'.stored
    requires s'.checked == s.checked && FirstFault(s', k) && k < |s.words|
    ensures FirstFault(s, k) && !forall j | s.checked <= j < |s.words| :: !Wrong(s.words[j], s.stored[j])
  {
    assert Wrong(s.words[k], s.stored[k]);
    forall j | s.checked <= j < k
      ensures !Wrong(s.words[j], s.stored[j])
    {
      assert !Wrong(s'.words[j], s'.stored[j]);
    }
  }

  lemma NoneWrongInFront(s: Rx, s': Rx)
    requires |s.words| == |s.stored| && |s'.words| == |s'.stored| && s.words <= s'.words && s.stored <= s'.stored
    requires s'.checked == s.checked && FirstFault(s', |s.words|)
    ensures forall j | s.checked <= j < |s.words| :: !Wrong(s.words[j], s.stored[j])
  {
    forall j | s.checked <= j < |s.words|
      ensures !Wrong(s.words[j], s.stored[j])
    {
      assert !Wrong(s'.words[j], s'.stored[j]);
    }
  }

  lemma ReportKeeps(s: Rx)
    requires RxInv(s)
    ensures RxInv(Report(s))
  {
    hide Ring.Contents;
  }

  lemma ReturnKeeps(s: Rx)
    requires RxInv(s) && !s.ring.Empty()
    ensures RxInv(s.(ring := s.ring.Take(), returned := s.returned + [s.ring.buf[s.ring.outPtr]]))
  {
    hide Ring.Contents, Ring.Take;
    TakeRemovesFirst(s.ring);
    var s' := s.(ring := s.ring.Take(), returned := s.returned + [s.ring.buf[s.ring.outPtr]]);
    forall k | 0 <= k < |s.words|
      ensures Faulty(s', k) == Faulty(s, k)
    {}
  }

  lemma RecordsMatch(s: Rx)
    requires RxInv(s)
    ensures s.ring.Valid() && |s.words| == |s.stored| && s.checked <= |s.words| && s.status <= 0
  {}

  function ReceiveAll(s: Rx, arriving: seq<DataWord>): (r: Rx)
    requires RxInv(s)
    ensures RxInv(r)
  {
    if arriving == [] then s
    else
      var m := ReceiveAll(s, arriving[..|arriving| - 1]);
      ReceiveKeeps(m, arriving[|arriving| - 1]);
      Receive(m, arriving[|arriving| - 1])
  }

  /** Every word that arrives is put on record, and the state says which bytes were kept. */
  lemma {:induction false} ReceiveAllRecords(s: Rx, arriving: seq<DataWord>)
    requires RxInv(s)
    ensures var r := ReceiveAll(s, arriving);
      && r.words == s.words + arriving && |r.stored| == |r.words| && r.stored[..|s.stored|] == s.stored
      && r.returned == s.returned && r.checked == s.checked
      && (s.status != 0 ==> r.status == s.status)
  {
    hide RxInv, Ring.Contents, Ring.Put, Ring.Full, ErrorOf;
    RecordsMatch(s);
    if arriving != [] {
      var n := |arriving| - 1;
      ReceiveAllRecords(s, arriving[..n]);
      assert arriving == arriving[..n] + [arriving[n]];
      var m := ReceiveAll(s, arriving[..n]);
      RecordsMatch(m);
      assert m.ring.Valid() && ReceiveAll(s, arriving) == Receive(m, arriving[n]);
    }
  }

  function Data(words: seq<DataWord>): (r: seq<uint8>)
    ensures |r| == |words|
    ensures forall k :: 0 <= k < |r| ==> r[k] == words[k].data
  {
    seq(|words|, k requires 0 <= k < |words| => words[k].data)
  }

  lemma {:induction false} AllStored(words: seq<DataWord>, stored: seq<bool>)
    requires |words| == |stored| && forall k :: 0 <= k < |stored| ==> stored[k]
    ensures Stored(words, stored) == Data(words)
  {
    if words != [] {
      var n := |words| - 1;
      AllStored(words[..n], stored[..n]);
      assert Data(words) == Data(words[..n]) + [words[n].data];
    }
  }

  /** As long as no error has been reported or is due to be, not one byte has been lost. */
  lemma NoSilentLoss(s: Rx)
    requires RxInv(s) && s.status == 0 && s.checked == 0
    ensures s.returned + s.ring.Contents() == Data(s.words)
  {
    hide Ring.Contents, ErrorOf;
    forall k | 0 <= k < |s.words|
      ensures s.stored[k]
    {
      assert !Faulty(s, k);
    }
    AllStored(s.words, s.stored);
  }
}
