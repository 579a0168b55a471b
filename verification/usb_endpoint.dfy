/**
 Double buffering of the controller reports (src/usbds4gadgetendpoint.cpp): a task stages
 reports byte by byte under a spin lock, while the USB controller sends the DMA buffer byte by
 byte and its callbacks copy the staged report. The callbacks come from one interrupt handler,
 so they do not interleave with each other, but with everything else.
*/
module UsbEndpointSpec {
  import opened Basics

  const DS4_REPORT_SIZE := 64

  type Report = r: seq<uint8> | |r| == DS4_REPORT_SIZE witness seq(64, _ => 0)

  /** Who holds the spin lock, and how many bytes of its copy are done */
  datatype Lock = Free | Staging(report: Report, done: nat) | Copying(done: nat)

  /** Where the completion callback is */
  datatype Callback = NoCallback | WaitsForLock | Copies | Arms

  /** Reports are numbered in the order of their staging, number 0 is the neutral one. */
  datatype Endpoint = Endpoint(
    active: bool, pending: Report, dma: Report, lock: Lock, callback: Callback,
    // controller
    inFlight: bool, sent: seq<uint8>,
    // history: reports staged, number of the one in the DMA buffer, bytes delivered per transfer
    // with that number
    staged: seq<Report>, dmaNumber: nat, delivered: seq<(seq<uint8>, nat)>)

  datatype Event =
    | BeginStage(report: Report) | StageByte
    | SendByte | Complete | TakeLock | CopyByte | Arm
    | Activate | Deactivate

  predicate Enabled(s: Endpoint, e: Event) {
    match e
    case BeginStage(_) => s.lock.Free?
    case StageByte => s.lock.Staging?
    case SendByte => s.inFlight && |s.sent| < DS4_REPORT_SIZE
    case Complete => s.inFlight && |s.sent| == DS4_REPORT_SIZE && s.callback.NoCallback?
    case TakeLock => s.callback.WaitsForLock? && s.lock.Free?
    case CopyByte => s.callback.Copies? && s.lock.Copying?
    case Arm => s.callback.Arms?
    case Activate => s.callback.NoCallback? && !s.inFlight
    case Deactivate => s.callback.NoCallback?
  }

  function BeginTransfer(s: Endpoint): Endpoint {
    s.(inFlight := true, sent := [])
  }

  function Step(s: Endpoint, e: Event): Endpoint
    requires Enabled(s, e)
  {
    match e
    case BeginStage(report) => s.(lock := Staging(report, 0))
    case StageByte =>
      var r, k := s.lock.report, s.lock.done;
      if k < DS4_REPORT_SIZE then s.(pending := s.pending[k := r[k]], lock := Staging(r, k + 1))
      else s.(lock := Free, staged := s.staged + [r])
    case SendByte => s.(sent := s.sent + [s.dma[|s.sent|]])
    case Complete =>
      s.(inFlight := false, sent := [], delivered := s.delivered + [(s.sent, s.dmaNumber)],
         callback := if s.active then WaitsForLock else NoCallback)
    case TakeLock => s.(lock := Copying(0), callback := Copies)
    case CopyByte =>
      var k := s.lock.done;
      if k < DS4_REPORT_SIZE then s.(dma := s.dma[k := s.pending[k]], lock := Copying(k + 1))
      else s.(lock := Free, callback := Arms, dmaNumber := if s.staged == [] then 0 else |s.staged| - 1)
    case Arm => BeginTransfer(s.(callback := NoCallback))
    case Activate => BeginTransfer(s.(active := true))
    case Deactivate => s.(active := false, inFlight := false, sent := [])
  }

  /** The first bytes come from one report, the others still from another. */
  predicate Mixed(b: Report, newer: Report, done: nat, stale: Report) {
    done <= DS4_REPORT_SIZE && b == newer[..done] + stale[done..]
  }

  ghost predicate Buffers(s: Endpoint) {
    && s.staged != [] && s.dmaNumber < |s.staged|
    && (s.lock.Copying? <==> s.callback.Copies?)
    && (if s.lock.Staging? then Mixed(s.pending, s.lock.report, s.lock.done, s.staged[|s.staged| - 1])
        else s.pending == s.staged[|s.staged| - 1])
    && (if s.lock.Copying? then Mixed(s.dma, s.pending, s.lock.done, s.staged[s.dmaNumber])
        else s.dma == s.staged[s.dmaNumber])
  }

  ghost predicate Transfer(s: Endpoint) {
    && (s.inFlight ==> s.callback.NoCallback? && s.sent <= s.dma)
    && (!s.callback.NoCallback? ==> s.active)
  }

  /** Each delivery is one whole staged report, and never older than the one before. */
  ghost predicate Deliveries(delivered: seq<(seq<uint8>, nat)>, staged: seq<Report>, newest: nat) {
    && (forall k :: 0 <= k < |delivered| ==> delivered[k].1 < |staged| && delivered[k].0 == staged[delivered[k].1])
    && (forall i, k :: 0 <= i <= k < |delivered| ==> delivered[i].1 <= delivered[k].1)
    && (forall k :: 0 <= k < |delivered| ==> delivered[k].1 <= newest)
  }

  ghost predicate Inv(s: Endpoint) {
    Buffers(s) && Transfer(s) && Deliveries(s.delivered, s.staged, s.dmaNumber)
  }

  lemma MixedNext(b: Report, newer: Report, done: nat, stale: Report)
    requires Mixed(b, newer, done, stale) && done < DS4_REPORT_SIZE
    ensures Mixed(b[done := newer[done]], newer, done + 1, stale)
  {
    assert stale[done..][1..] == stale[done + 1..];
  }

  lemma MixedDone(b: Report, newer: Report, stale: Report)
    requires Mixed(b, newer, DS4_REPORT_SIZE, stale)
    ensures b == newer
  {}

  lemma MixedStart(b: Report, newer: Report)
    ensures Mixed(b, newer, 0, b)
  {}

  lemma StepKeepsBuffers(s: Endpoint, e: Event)
    requires Buffers(s) && Enabled(s, e)
    ensures Buffers(Step(s, e))
  {
    match e
    case BeginStage(report) =>
      MixedStart(s.pending, report);
    case StageByte =>
      var stale := s.staged[|s.staged| - 1];
      if s.lock.done < DS4_REPORT_SIZE {
        MixedNext(s.pending, s.lock.report, s.lock.done, stale);
      } else {
        MixedDone(s.pending, s.lock.report, stale);
      }
    case TakeLock =>
      MixedStart(s.dma, s.pending);
    case CopyByte =>
      if s.lock.done < DS4_REPORT_SIZE {
        MixedNext(s.dma, s.pending, s.lock.done, s.staged[s.dmaNumber]);
      } else {
        MixedDone(s.dma, s.pending, s.staged[s.dmaNumber]);
      }
    case _ =>
  }

  lemma StepKeepsTransfer(s: Endpoint, e: Event)
    requires Transfer(s) && Enabled(s, e)
    ensures Transfer(Step(s, e))
  {}

  lemma StepKeepsDeliveries(s: Endpoint, e: Event)
    requires Inv(s) && Enabled(s, e)
    ensures var s' := Step(s, e); Deliveries(s'.delivered, s'.staged, s'.dmaNumber)
  {
    hide Mixed;
    if e.Complete? {
      assert s.sent == s.dma;
    }
  }

  lemma StepKeeps(s: Endpoint, e: Event)
    requires Inv(s) && Enabled(s, e)
    ensures Inv(Step(s, e))
  {
    StepKeepsBuffers(s, e);
    StepKeepsTransfer(s, e);
    StepKeepsDeliveries(s, e);
    hide Buffers, Transfer, Deliveries, Step;
  }

  /** While a transfer is in flight no step changes the DMA buffer. */
  lemma DmaConstantInFlight(s: Endpoint, e: Event)
    requires Inv(s) && Enabled(s, e) && s.inFlight
    ensures Step(s, e).dma == s.dma
  {}

  function Init(neutral: Report): Endpoint {
    Endpoint(false, neutral, neutral, Free, NoCallback, false, [], [neutral], 0, [])
  }

  // ---------------------------------------------------------------- runs

  /** Every interleaving: an event that is not enabled does not happen. */
  function Run(neutral: Report, events: seq<Event>): (s: Endpoint)
    ensures Inv(s)
  {
    if events == [] then Init(neutral)
    else
      var s := Run(neutral, events[..|events| - 1]);
      var e := events[|events| - 1];
      if Enabled(s, e) then StepKeeps(s, e); Step(s, e) else s
  }

  lemma RunExtends(neutral: Report, events: seq<Event>, e: Event)
    requires Enabled(Run(neutral, events), e)
    ensures Run(neutral, events + [e]) == Step(Run(neutral, events), e)
  {
    assert (events + [e])[..|events|] == events;
  }

  /** In every run each delivered report is one whole staged report, or the neutral one, and is
      never older than the one delivered before it. */
  lemma RunDelivers(neutral: Report, events: seq<Event>)
    ensures var s := Run(neutral, events);
      && (forall k :: 0 <= k < |s.delivered| ==>
            s.delivered[k].1 < |s.staged| && s.delivered[k].0 == s.staged[s.delivered[k].1])
      && (forall i, k :: 0 <= i <= k < |s.delivered| ==> s.delivered[i].1 <= s.delivered[k].1)
  {}

  /** When a completed transfer is armed again it carries the report staged last. */
  lemma ArmedWithLatest(s: Endpoint)
    requires Inv(s) && s.lock.Copying? && s.lock.done == DS4_REPORT_SIZE
    ensures var s' := Step(Step(s, CopyByte), Arm);
      s'.inFlight && s'.dma == s'.staged[|s'.staged| - 1] && s'.dmaNumber == |s'.staged| - 1
  {
    MixedDone(s.dma, s.pending, s.staged[s.dmaNumber]);
  }
}

/**
 The endpoint with its buffers in place. Its methods belong to the task or to the interrupt
 handler; between any two of their accesses the other side and the controller go on.
*/
module UsbEndpoint {
  import opened Basics
  import opened UsbEndpointSpec

  const REPORT_ID: uint8 := 0x01
  const STICK_CENTER: uint8 := 128
  const NEUTRAL_HAT: uint8 := 8

  /** The report with centred sticks, no direction and no button */
  function Neutral(): Report {
    [REPORT_ID, STICK_CENTER, STICK_CENTER, STICK_CENTER, STICK_CENTER, NEUTRAL_HAT] + seq(DS4_REPORT_SIZE - 6, _ => 0)
  }

  /** The events of the task; all others are those of the controller and its handler. */
  predicate OfTask(e: Event) {
    e.BeginStage? || e.StageByte?
  }

  /** What the controller and the handler may have done while the task was in SendReport. */
  ghost predicate HandlerRan(s: Endpoint, s': Endpoint) {
    && s'.staged == s.staged
    && (s.lock.Staging? ==> s'.lock == s.lock && s'.pending == s.pending)
    && (!s.lock.Staging? ==> !s'.lock.Staging?)
  }

  /** What the task may have done while the handler was in OnTransferComplete. */
  ghost predicate TaskRan(s: Endpoint, s': Endpoint) {
    && s' == s.(pending := s'.pending, lock := s'.lock, staged := s'.staged)
    && s.staged <= s'.staged
    && (s.lock.Copying? ==> s'.lock == s.lock && s'.pending == s.pending && s'.staged == s.staged)
    && (!s.lock.Copying? ==> !s'.lock.Copying?)
  }

  lemma HandlerStep(s: Endpoint, e: Event)
    requires Inv(s) && Enabled(s, e) && !OfTask(e)
    ensures HandlerRan(s, Step(s, e))
  {}

  lemma TaskStep(s: Endpoint, e: Event)
    requires Inv(s) && Enabled(s, e) && OfTask(e)
    ensures TaskRan(s, Step(s, e))
  {}

  class CUSBDS4GadgetEndpoint {
    var active: bool            // m_bActive
    const pending: array<uint8> // m_PendingBuffer
    const dma: array<uint8>     // m_DMABuffer
    var lock: Lock              // m_SpinLock
    // controller
    var inFlight: bool
    var sent: seq<uint8>
    // history
    var callback: Callback
    var staged: seq<Report>
    var dmaNumber: nat
    var delivered: seq<(seq<uint8>, nat)>
    ghost var events: seq<Event>

    function Value(): Endpoint
      requires pending.Length == dma.Length == DS4_REPORT_SIZE
      reads this, pending, dma
    {
      Endpoint(active, pending[..], dma[..], lock, callback, inFlight, sent, staged, dmaNumber, delivered)
    }

    /** The endpoint is in a state that some interleaving leads to. */
    ghost predicate Valid()
      reads this, pending, dma
    {
      && pending != dma && pending.Length == dma.Length == DS4_REPORT_SIZE
      && Value() == Run(Neutral(), events)
    }

    constructor ()
      ensures Valid() && fresh(pending) && fresh(dma) && Value() == Init(Neutral())
    {
      pending := new uint8[DS4_REPORT_SIZE];
      dma := new uint8[DS4_REPORT_SIZE];
      active, lock, inFlight, sent := false, Free, false, [];
      callback, staged, dmaNumber, delivered, events := NoCallback, [Neutral()], 0, [], [];
      new;
      InitDS4Report(dma);
      InitDS4Report(pending);
    }

    static method InitDS4Report(buf: array<uint8>)
      requires buf.Length == DS4_REPORT_SIZE
      modifies buf
      ensures buf[..] == Neutral()
      ensures buf[0] == 1 && buf[1] == buf[2] == buf[3] == buf[4] == 128 && buf[5] == 8
      ensures forall k :: 6 <= k < 64 ==> buf[k] == 0
    {
      var i := 0;
      while i < DS4_REPORT_SIZE
        invariant 0 <= i <= DS4_REPORT_SIZE
        invariant forall k :: 0 <= k < i ==> buf[k] == 0
      {
        buf[i] := 0;
        i := i + 1;
      }
      buf[0] := REPORT_ID;
      buf[1], buf[2], buf[3], buf[4] := STICK_CENTER, STICK_CENTER, STICK_CENTER, STICK_CENTER;
      buf[5] := NEUTRAL_HAT;
    }

    /** One event of the other side */
    method Happens(e: Event)
      requires Valid() && Enabled(Value(), e)
      modifies this, pending, dma
      ensures Valid() && Value() == Step(old(Value()), e)
    {
      hide Inv, Run;
      var s := Step(Value(), e);
      RunExtends(Neutral(), events, e);
      forall i | 0 <= i < DS4_REPORT_SIZE { pending[i] := s.pending[i]; }
      forall i | 0 <= i < DS4_REPORT_SIZE { dma[i] := s.dma[i]; }
      active, lock, inFlight, sent := s.active, s.lock, s.inFlight, s.sent;
      callback, staged, dmaNumber, delivered, events := s.callback, s.staged, s.dmaNumber, s.delivered, events + [e];
      assert pending[..] == s.pending && dma[..] == s.dma;
    }

    /** Any number of events of the other side: of the handler and the controller, or of the task */
    method Elapse(ofTask: bool)
      requires Valid()
      modifies this, pending, dma
      ensures Valid() && Others(ofTask, old(Value()), Value())
    {
      hide Inv, Run, Enabled, Step, HandlerRan, TaskRan;
      var n: int := *;
      NothingRan(Value());
      for i := 0 to Max(n, 0)
        invariant Valid() && Others(ofTask, old(Value()), Value())
      {
        var e: Event := *;
        if Enabled(Value(), e) && OfTask(e) == ofTask {
          OthersStep(ofTask, old(Value()), Value(), e);
          Happens(e);
        }
      }
    }

    /** The spin lock: while the other side holds it, it goes on with its copy and with nothing else. */
    method AwaitLock(ofTask: bool)
      requires Valid() && (if ofTask then !lock.Copying? else !lock.Staging?)
      modifies this, pending, dma
      ensures Valid() && lock.Free? && Others(ofTask, old(Value()), Value())
    {
      hide Inv, Run, HandlerRan, TaskRan, Mixed, Deliveries;
      NothingRan(Value());
      while !lock.Free?
        invariant Valid() && (if ofTask then !lock.Copying? else !lock.Staging?)
        invariant Others(ofTask, old(Value()), Value())
        decreases if lock.Free? then 0 else DS4_REPORT_SIZE + 1 - lock.done
      {
        ghost var s := Value();
        HolderMoves(s);
        var e := if ofTask then StageByte else CopyByte;
        OthersStep(ofTask, old(Value()), s, e);
        Happens(e);
      }
    }

    /** Stages a report: it comes after all that were staged before. */
    method SendReport(report: array<uint8>)
      requires Valid() && !lock.Staging? && report.Length == DS4_REPORT_SIZE && report != pending && report != dma
      modifies this, pending, dma
      ensures Valid() && !lock.Staging? && staged == old(staged) + [report[..]]
    {
      hide Inv, Run;
      Elapse(false);
      AwaitLock(false);
      ghost var s := Value();
      RunExtends(Neutral(), events, BeginStage(report[..]));
      lock, events := Staging(report[..], 0), events + [BeginStage(report[..])];
      for i := 0 to DS4_REPORT_SIZE
        invariant Valid() && lock == Staging(report[..], i) && staged == old(staged) && report[..] == old(report[..])
      {
        Elapse(false);
        Stage(report, i);
      }
      Elapse(false);
      RunExtends(Neutral(), events, StageByte);
      lock, staged, events := Free, staged + [report[..]], events + [StageByte];
    }

    method Stage(report: array<uint8>, i: nat)
      requires Valid() && report.Length == DS4_REPORT_SIZE && report != pending && i < DS4_REPORT_SIZE
      requires lock == Staging(report[..], i)
      modifies `lock, `events, pending
      ensures Valid() && lock == Staging(report[..], i + 1)
    {
      hide Inv, Run;
      ghost var s := Value();
      RunExtends(Neutral(), events, StageByte);
      pending[i] := report[i];
      lock, events := Staging(report[..], i + 1), events + [StageByte];
      assert Value() == Step(s, StageByte);
    }

    method Copy(i: nat)
      requires Valid() && i < DS4_REPORT_SIZE && lock == Copying(i) && callback.Copies?
      modifies `lock, `events, dma
      ensures Valid() && lock == Copying(i + 1)
    {
      hide Inv, Run;
      ghost var s := Value();
      RunExtends(Neutral(), events, CopyByte);
      dma[i] := pending[i];
      lock, events := Copying(i + 1), events + [CopyByte];
      assert Value() == Step(s, CopyByte);
    }

    /** BeginTransfer of the base class */
    method BeginTransfer()
      modifies `inFlight, `sent
      ensures inFlight && sent == []
    {
      inFlight, sent := true, [];
    }

    method OnActivate()
      requires Valid() && callback.NoCallback? && !inFlight
      modifies this
      ensures Valid() && Value() == Step(old(Value()), Activate) && active && inFlight
    {
      hide Inv, Run;
      RunExtends(Neutral(), events, Activate);
      active, events := true, events + [Activate];
      BeginTransfer();
    }

    method OnDeactivate()
      requires Valid() && callback.NoCallback?
      modifies this
      ensures Valid() && Value() == Step(old(Value()), Deactivate) && !active && !inFlight
    {
      hide Inv, Run;
      RunExtends(Neutral(), events, Deactivate);
      active, events := false, events + [Deactivate];
      inFlight, sent := false, [];
    }

    /** If the endpoint is active, the next transfer carries a whole report that is not older than
        any staged before the call. The controller calls it when all bytes are sent. */
    method OnTransferComplete(bIn: bool)
      requires Valid() && callback.NoCallback? && (bIn ==> inFlight && |sent| == DS4_REPORT_SIZE)
      modifies this, pending, dma
      ensures Valid() && callback.NoCallback? && active == old(active) && old(staged) <= staged
      ensures !bIn ==> Value() == old(Value())
      ensures bIn ==> delivered == old(delivered) + [(old(sent), old(dmaNumber))] && inFlight == active
      ensures bIn && active ==>
        && sent == [] && |old(staged)| - 1 <= dmaNumber < |staged| && dma[..] == staged[dmaNumber]
    {
      hide Inv, Run;
      if !bIn {
        return;
      }
      CopyingMeansHandler(Value());
      Completed();
      if active {
        CopyPending();
        Elapse(true);
        RunExtends(Neutral(), events, Arm);
        callback, events := NoCallback, events + [Arm];
        BeginTransfer();
        WholeReport(Value());
      }
    }

    /** The transfer is over, the controller calls back. */
    method Completed()
      requires Valid() && callback.NoCallback? && inFlight && |sent| == DS4_REPORT_SIZE
      modifies this
      ensures Valid() && Value() == Step(old(Value()), Complete)
    {
      hide Inv, Run;
      RunExtends(Neutral(), events, Complete);
      delivered := delivered + [(sent, dmaNumber)];
      inFlight, sent, events := false, [], events + [Complete];
      callback := if active then WaitsForLock else NoCallback;
    }

    /** The part of OnTransferComplete under the lock */
    method CopyPending()
      requires Valid() && callback.WaitsForLock? && active && !lock.Copying? && !inFlight
      modifies this, pending, dma
      ensures Valid() && callback.Arms? && active && !lock.Copying? && !inFlight && delivered == old(delivered)
      ensures old(staged) <= staged && dmaNumber == |staged| - 1
    {
      hide Inv, Run;
      Elapse(true);
      AwaitLock(true);
      RunExtends(Neutral(), events, TakeLock);
      lock, callback, events := Copying(0), Copies, events + [TakeLock];
      for i := 0 to DS4_REPORT_SIZE
        invariant Valid() && lock == Copying(i) && callback.Copies? && active && !inFlight
        invariant delivered == old(delivered) && old(staged) <= staged
      {
        Elapse(true);
        Copy(i);
      }
      Elapse(true);
      CopyingMeansHandler(Value());
      RunExtends(Neutral(), events, CopyByte);
      lock, callback, dmaNumber, events := Free, Arms, |staged| - 1, events + [CopyByte];
    }
  }

  /** The other side: the task, or the handler and the controller */
  ghost predicate Others(ofTask: bool, s: Endpoint, s': Endpoint) {
    if ofTask then TaskRan(s, s') else HandlerRan(s, s')
  }

  lemma NothingRan(s: Endpoint)
    ensures HandlerRan(s, s) && TaskRan(s, s)
  {}

  lemma OthersStep(ofTask: bool, s0: Endpoint, s: Endpoint, e: Event)
    requires Inv(s) && Enabled(s, e) && OfTask(e) == ofTask && Others(ofTask, s0, s)
    ensures Others(ofTask, s0, Step(s, e))
  {
    hide Inv, Step, Enabled;
    if ofTask {
      TaskStep(s, e);
    } else {
      HandlerStep(s, e);
    }
  }

  lemma HolderMoves(s: Endpoint)
    requires Inv(s)
    ensures s.lock.Staging? ==> s.lock.done <= DS4_REPORT_SIZE && Enabled(s, StageByte)
    ensures s.lock.Copying? ==> s.lock.done <= DS4_REPORT_SIZE && Enabled(s, CopyByte)
  {}

  lemma CopyingMeansHandler(s: Endpoint)
    requires Inv(s)
    ensures s.lock.Copying? <==> s.callback.Copies?
    ensures s.staged != []
  {}

  lemma WholeReport(s: Endpoint)
    requires Inv(s) && !s.lock.Copying?
    ensures s.dmaNumber < |s.staged| && s.dma == s.staged[s.dmaNumber]
  {}
}
