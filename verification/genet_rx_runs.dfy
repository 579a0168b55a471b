/**
 Runs of the receive side of the GENET driver (circle/lib/bcm54213.cpp). The engine stores frames at
 any time, also while ReceiveFrame is between its accesses to the ring.
*/
module GenetRxRuns {
  import opened Basics
  import opened GenetRxSpec

  /** Where a call of ReceiveFrame is: it has exchanged the buffer of the descriptor, or it has also
      looked at the frame. The outcome of operator new is remembered. */
  datatype Call =
    | Outside
    | Refilled(gotBuffer: bool, buffer: Option<nat>)
    | Evaluated(gotBuffer: bool)

  datatype System = System(rx: Rx, call: Call)

  datatype Event = Wire(a: Arrival) | StartReceive(gotBuffer: bool) | LookAtFrame | EndReceive

  predicate Enabled(s: System, e: Event) {
    match e
    case Wire(_) => true
    case StartReceive(_) => s.call.Outside?
    case LookAtFrame => s.call.Refilled?
    case EndReceive => s.call.Evaluated?
  }

  /** The state when the call has come to its end, without a step of the engine before that */
  function Completed(s: System): Rx
    requires s.call.Refilled? ==> s.rx.readPtr < |s.rx.status|
  {
    match s.call
    case Outside => s.rx
    case Refilled(gotBuffer, buffer) => Consume(Evaluate(s.rx, s.rx.readPtr, buffer), gotBuffer)
    case Evaluated(gotBuffer) => Consume(s.rx, gotBuffer)
  }

  /** What a call relies on: the descriptor at the read pointer has a frame that is not consumed. */
  ghost predicate CallInv(s: Rx) {
    && |s.cbs| == |s.addr| == |s.status| == RING_SIZE
    && |s.allocs| < |s.arrivals| <= |s.allocs| + RING_SIZE
    && s.readPtr == Lap(|s.allocs|, RING_SIZE)
    && s.cIndex == s.hwCons == Lap(|s.allocs|, INDEX_RANGE)
    && s.hwProd == Lap(|s.arrivals|, INDEX_RANGE) && s.hwWrite == Lap(|s.arrivals|, RING_SIZE)
    && (forall i :: 0 <= i < |s.addr| ==> s.addr[i] < s.nextId)
  }

  ghost predicate SysInv(s: System) {
    && (!s.call.Outside? ==> CallInv(s.rx))
    && (s.call.Refilled? && s.call.buffer.Some? ==> s.call.buffer.value !in s.rx.addr)
    && Inv(Completed(s))
  }

  function Step(s: System, e: Event): System
    requires SysInv(s) && Enabled(s, e)
  {
    hide Contents, Ownership, Expected;
    match e
    case Wire(a) => s.(rx := Arrive(s.rx, a))
    case StartReceive(gotBuffer) =>
      if (s.rx.hwProd - s.rx.cIndex) % INDEX_RANGE == 0 then s
      else
        var (rx, buffer) := Refill(s.rx, s.rx.readPtr, gotBuffer);
        System(rx, Refilled(gotBuffer, buffer))
    case LookAtFrame => System(Evaluate(s.rx, s.rx.readPtr, s.call.buffer), Evaluated(s.call.gotBuffer))
    case EndReceive => System(Consume(s.rx, s.call.gotBuffer), Outside)
  }

  // ---------------------------------------------------------------- what the steps keep

  lemma ArriveThenEvaluate(s: Rx, a: Arrival, buffer: Option<nat>)
    requires CallInv(s) && (buffer.Some? ==> buffer.value !in s.addr)
    ensures CallInv(Evaluate(s, s.readPtr, buffer))
    ensures Evaluate(Arrive(s, a), s.readPtr, buffer) == Arrive(Evaluate(s, s.readPtr, buffer), a)
  {
    hide Lap;
    var n, c := |s.arrivals|, |s.allocs|;
    LapDistance(n, c, INDEX_RANGE);
    if n < c + RING_SIZE {
      LapDistinct(c, n, RING_SIZE);
    }
  }

  lemma ArriveThenConsume(s: Rx, a: Arrival, gotBuffer: bool)
    requires CallInv(s) && Sane(a, s.crcFwd) && |s.arrivals| < |s.allocs| + RING_SIZE
    ensures Consume(Arrive(s, a), gotBuffer) == Arrive(Consume(s, gotBuffer), a)
    ensures Arrive(s, a).arrivals == s.arrivals + [a]
  {
    hide Lap, Sane;
    var n, c := |s.arrivals|, |s.allocs|;
    LapDistance(n, c, INDEX_RANGE);
    LapDistance(n, c + 1, INDEX_RANGE);
    LapNext(c, INDEX_RANGE);
  }

  /** The engine stores a frame into another descriptor than the one the call works on, so it does not
      matter whether it does so before or after the call has ended. */
  lemma ArriveCommutes(s: System, a: Arrival)
    requires SysInv(s) && !s.call.Outside? && Sane(a, s.rx.crcFwd) && |s.rx.arrivals| < |s.rx.allocs| + RING_SIZE
    ensures Completed(System(Arrive(s.rx, a), s.call)) == Arrive(Completed(s), a)
    ensures Arrive(s.rx, a).arrivals == s.rx.arrivals + [a]
  {
    hide Inv, CallInv, Arrive, Consume, Evaluate;
    ArriveThenConsume(s.rx, a, s.call.gotBuffer);
    if s.call.Refilled? {
      EvaluateLeaves(s.rx, a, s.call.buffer);
      ArriveThenEvaluate(s.rx, a, s.call.buffer);
      ArriveThenConsume(Evaluate(s.rx, s.rx.readPtr, s.call.buffer), a, s.call.gotBuffer);
    }
  }

  lemma EvaluateLeaves(s: Rx, a: Arrival, buffer: Option<nat>)
    requires CallInv(s)
    ensures s.readPtr < |s.status|
    ensures var s' := Evaluate(s, s.readPtr, buffer);
      && s'.crcFwd == s.crcFwd && s'.arrivals == s.arrivals && s'.allocs == s.allocs && s'.hwWrite == s.hwWrite
      && s'.addr == s.addr && s'.status == s.status && s'.readPtr == s.readPtr
    ensures Arrive(s, a).readPtr == s.readPtr && |Arrive(s, a).status| == |s.status|
  {}

  lemma ArriveKeepsCall(s: System, a: Arrival)
    requires SysInv(s) && !s.call.Outside?
    ensures SysInv(System(Arrive(s.rx, a), s.call))
  {
    hide Lap, Inv, Completed;
    var n, c := |s.rx.arrivals|, |s.rx.allocs|;
    LapDistance(n, c, INDEX_RANGE);
    if Sane(a, s.rx.crcFwd) && n < c + RING_SIZE {
      ArriveCommutes(s, a);
      ArriveKeeps(Completed(s), a);
      LapNext(n, INDEX_RANGE);
      LapNext(n, RING_SIZE);
    } else {
      assert Arrive(s.rx, a) == s.rx;
    }
  }

  lemma RefillReady(s: Rx, gotBuffer: bool)
    requires Pointers(s) && Ownership(s) && |s.allocs| < |s.arrivals|
    ensures var (s1, buffer) := Refill(s, s.readPtr, gotBuffer);
      CallInv(s1) && (buffer.Some? ==> buffer.value !in s1.addr)
  {
    hide Lap;
  }

  lemma PendingIff(s: Rx)
    requires Inv(s)
    ensures Pointers(s) && Ownership(s)
    ensures (s.hwProd - s.cIndex) % INDEX_RANGE == 0 <==> |s.allocs| == |s.arrivals|
  {
    hide Lap, Contents, Expected, Ownership;
    LapDistance(|s.arrivals|, |s.allocs|, INDEX_RANGE);
  }

  lemma RefillCompletes(s: Rx, gotBuffer: bool)
    requires s.readPtr < |s.cbs| == |s.addr| == |s.status| && (s.hwProd - s.cIndex) % INDEX_RANGE != 0
    ensures var (s1, buffer) := Refill(s, s.readPtr, gotBuffer);
      && s1.readPtr < |s1.status|
      && Completed(System(s1, Refilled(gotBuffer, buffer))) == Receive(s, gotBuffer)
  {
    hide Consume, Evaluate;
  }

  lemma StartKeeps(s: System, gotBuffer: bool)
    requires SysInv(s) && s.call.Outside?
    ensures SysInv(Step(s, StartReceive(gotBuffer)))
  {
    hide Inv, CallInv, Receive, Pointers, Ownership, Evaluate, Consume;
    PendingIff(s.rx);
    if |s.rx.allocs| == |s.rx.arrivals| {
      return;
    }
    Bounds(s.rx);
    ReceiveKeeps(s.rx, gotBuffer);
    RefillReady(s.rx, gotBuffer);
    RefillCompletes(s.rx, gotBuffer);
    hide Refill;
  }

  lemma Bounds(s: Rx)
    requires Pointers(s)
    ensures s.readPtr < RING_SIZE == |s.cbs| == |s.addr| == |s.status| && |s.allocs| <= |s.arrivals|
  {
    hide Lap;
  }

  lemma LookKeeps(s: System)
    requires SysInv(s) && s.call.Refilled?
    ensures SysInv(Step(s, LookAtFrame))
  {
    hide Inv, Lap, Consume;
  }

  lemma EndKeeps(s: System)
    requires SysInv(s) && s.call.Evaluated?
    ensures SysInv(Step(s, EndReceive))
  {
    hide Inv, CallInv, Consume;
  }

  /** The invariant is kept by every step of the task and of the engine. */
  lemma StepKeeps(s: System, e: Event)
    requires SysInv(s) && Enabled(s, e)
    ensures SysInv(Step(s, e))
  {
    hide Inv, CallInv;
    match e
    case Wire(a) =>
      if s.call.Outside? {
        ArriveKeeps(s.rx, a);
      } else {
        ArriveKeepsCall(s, a);
      }
    case StartReceive(gotBuffer) => StartKeeps(s, gotBuffer);
    case LookAtFrame => LookKeeps(s);
    case EndReceive => EndKeeps(s);
  }

  // ---------------------------------------------------------------- arrivals during a call

  /** The engine stores frames, one after the other. */
  function ArriveAll(s: Rx, frames: seq<Arrival>): (s': Rx)
    requires s.hwWrite < |s.addr| == |s.status| == RING_SIZE
    ensures s'.hwWrite < |s'.addr| == |s'.status| == RING_SIZE
    decreases |frames|
  {
    if frames == [] then s
    else Arrive(ArriveAll(s, frames[..|frames| - 1]), frames[|frames| - 1])
  }

  lemma {:induction false} ArriveAllSplit(s: Rx, first: seq<Arrival>, second: seq<Arrival>)
    requires s.hwWrite < |s.addr| == |s.status| == RING_SIZE
    ensures ArriveAll(ArriveAll(s, first), second) == ArriveAll(s, first + second)
    decreases |second|
  {
    hide Arrive;
    if second == [] {
      assert first + second == first;
    } else {
      var n := |second| - 1;
      ArriveAllSplit(s, first, second[..n]);
      assert (first + second)[..|first| + n] == first + second[..n];
    }
  }

  /** Frames that the engine stores meanwhile leave alone what the call works on. */
  ghost predicate LeftAlone(s: Rx, s': Rx, buffer: Option<nat>) {
    && s'.cbs == s.cbs && s'.addr == s.addr && s'.readPtr == s.readPtr && s'.cIndex == s.cIndex && s'.crcFwd == s.crcFwd
    && s'.allocs == s.allocs && s'.deleted == s.deleted && s'.delivered == s.delivered && s'.nextId == s.nextId
    && s.readPtr < |s.status| == |s'.status| && s'.status[s.readPtr] == s.status[s.readPtr]
    && (buffer.Some? && buffer.value in s.mem ==> buffer.value in s'.mem && s'.mem[buffer.value] == s.mem[buffer.value])
  }

  lemma ArriveLeavesAlone(s: System, a: Arrival, buffer: Option<nat>)
    requires SysInv(s) && !s.call.Outside? && (buffer.Some? ==> buffer.value !in s.rx.addr)
    ensures LeftAlone(s.rx, Arrive(s.rx, a), buffer)
  {
    hide Inv, Lap, Completed;
    var n, c := |s.rx.arrivals|, |s.rx.allocs|;
    LapDistance(n, c, INDEX_RANGE);
    if n < c + RING_SIZE {
      LapDistinct(c, n, RING_SIZE);
    }
  }

  /** Since s0 the call has made no access and the engine has stored the frames: the call will end
      as if they had been stored afterwards. */
  ghost predicate Later(s0: System, s: System, frames: seq<Arrival>) {
    && SysInv(s0) && SysInv(s) && !s0.call.Outside? && s.call == s0.call
    && s.rx.arrivals == s0.rx.arrivals + frames
    && Completed(s0).hwWrite < |Completed(s0).addr| == |Completed(s0).status| == RING_SIZE
    && Completed(s) == ArriveAll(Completed(s0), frames)
  }

  lemma LaterStarts(s: System)
    requires SysInv(s) && !s.call.Outside?
    ensures Later(s, s, [])
  {
    CompletedShape(s);
    hide Inv, Completed, CallInv;
  }

  lemma LaterGoesOn(s0: System, s: System, frames: seq<Arrival>, a: Arrival)
    requires Later(s0, s, frames) && Sane(a, s.rx.crcFwd) && |s.rx.arrivals| < |s.rx.allocs| + RING_SIZE
    ensures Later(s0, System(Arrive(s.rx, a), s.call), frames + [a])
  {
    hide Inv, Arrive, Completed, CallInv;
    ArriveCommutes(s, a);
    ArriveKeepsCall(s, a);
    assert (frames + [a])[..|frames|] == frames;
  }

  lemma CompletedShape(s: System)
    requires SysInv(s)
    ensures Completed(s).hwWrite < |Completed(s).addr| == |Completed(s).status| == RING_SIZE
    ensures !s.call.Outside? ==>
      (|s.rx.arrivals| < |s.rx.allocs| + RING_SIZE <==> (s.rx.hwProd - s.rx.hwCons) % INDEX_RANGE < RING_SIZE)
    ensures s.rx.hwWrite < |s.rx.addr| == |s.rx.status| == RING_SIZE
  {
    hide Lap, Contents, Ownership, Expected;
    if !s.call.Outside? {
      LapDistance(|s.rx.arrivals|, |s.rx.allocs|, INDEX_RANGE);
    }
  }

  lemma LaterInv(s0: System, s: System, frames: seq<Arrival>)
    requires Later(s0, s, frames)
    ensures SysInv(s) && !s.call.Outside? && s.call == s0.call
  {}

  lemma NothingMoved(s: System, buffer: Option<nat>)
    requires SysInv(s) && !s.call.Outside?
    ensures LeftAlone(s.rx, s.rx, buffer)
  {
    CompletedShape(s);
    hide Inv, Lap, Completed;
  }

  lemma AloneGoesOn(s0: Rx, s: System, buffer: Option<nat>, a: Arrival)
    requires SysInv(s) && !s.call.Outside? && (buffer.Some? ==> buffer.value !in s0.addr) && LeftAlone(s0, s.rx, buffer)
    ensures LeftAlone(s0, Arrive(s.rx, a), buffer)
  {
    ArriveLeavesAlone(s, a, buffer);
    hide SysInv, Arrive;
  }

  /** The state after a call, with the frames stored during it */
  ghost predicate ReceivedAndStored(s: Rx, s': Rx, gotBuffer: bool, stored: seq<Arrival>)
    requires Inv(s)
  {
    && s.readPtr < |s.cbs| == |s.addr| == |s.status|
    && var r := Receive(s, gotBuffer);
    && r.hwWrite < |r.addr| == |r.status| == RING_SIZE
    && s' == ArriveAll(r, stored) && s'.arrivals == s.arrivals + stored
  }

  lemma ReceivedNothing(s: Rx, gotBuffer: bool)
    requires Inv(s) && (s.hwProd - s.cIndex) % INDEX_RANGE == 0
    ensures ReceivedAndStored(s, s, gotBuffer, [])
  {
    ReadyContents(s);
    CompletedShape(System(s, Outside));
    hide Inv;
  }

  /** What the rest of a call finds in the descriptor: the arrival that is consumed */
  ghost predicate Taken(s: Rx, buffer: Option<nat>, a: Arrival) {
    && s.readPtr < |s.status| && s.status[s.readPtr] == a.status && Sane(a, s.crcFwd)
    && (buffer.Some? ==> buffer.value !in s.addr && buffer.value in s.mem && s.mem[buffer.value] == a.bytes)
  }

  lemma AfterRefill(s: Rx, gotBuffer: bool)
    requires Inv(s) && (s.hwProd - s.cIndex) % INDEX_RANGE != 0
    ensures s.readPtr < |s.cbs| == |s.addr| == |s.status| && |s.allocs| < |s.arrivals|
    ensures var (s1, buffer) := Refill(s, s.readPtr, gotBuffer); var call := Refilled(gotBuffer, buffer);
      && SysInv(System(s1, call)) && Taken(s1, buffer, s.arrivals[|s.allocs|])
      && s1.arrivals == s.arrivals && s1.allocs == s.allocs && s1.delivered == s.delivered
      && (buffer.Some? <==> gotBuffer)
      && Completed(System(s1, call)) == Receive(s, gotBuffer)
  {
    ReadyContents(s);
    RefillTakes(s, gotBuffer);
    RefillCompletes(s, gotBuffer);
    StartKeeps(System(s, Outside), gotBuffer);
    hide Inv, CallInv, Receive, Taken, Refill, SysInv, Completed;
  }

  lemma RefillTakes(s: Rx, gotBuffer: bool)
    requires Inv(s) && (s.hwProd - s.cIndex) % INDEX_RANGE != 0
    ensures s.readPtr < |s.cbs| == |s.addr| == |s.status| && |s.allocs| < |s.arrivals|
    ensures var (s1, buffer) := Refill(s, s.readPtr, gotBuffer);
      && Taken(s1, buffer, s.arrivals[|s.allocs|])
      && s1.arrivals == s.arrivals && s1.allocs == s.allocs && s1.delivered == s.delivered
      && (buffer.Some? <==> gotBuffer)
  {
    ReadyContents(s);
    OwnershipStep(s, gotBuffer);
    BuffersDiffer(s);
    NextArrival(s);
    hide Inv;
  }

  lemma NextArrival(s: Rx)
    requires Inv(s) && (s.hwProd - s.cIndex) % INDEX_RANGE != 0
    ensures |s.allocs| < |s.arrivals| && s.readPtr < |s.addr| == |s.status| && s.addr[s.readPtr] in s.mem
    ensures var a := s.arrivals[|s.allocs|];
      s.status[s.readPtr] == a.status && s.mem[s.addr[s.readPtr]] == a.bytes && Sane(a, s.crcFwd)
  {
    hide Lap, Expected;
    PendingIff(s);
    assert s.readPtr == Lap(|s.allocs|, RING_SIZE);
    assert s.arrivals[|s.allocs|] in s.arrivals;
  }

  lemma BuffersDiffer(s: Rx)
    requires Inv(s)
    ensures forall i :: 0 <= i < |s.addr| ==>
      s.addr[i] != s.nextId && (i != s.readPtr ==> s.addr[i] != s.addr[s.readPtr])
  {
    hide Lap, Contents, Expected;
  }

  lemma StillTaken(s: Rx, s': Rx, buffer: Option<nat>, a: Arrival)
    requires Taken(s, buffer, a) && LeftAlone(s, s', buffer)
    ensures Taken(s', buffer, a) && s'.readPtr == s.readPtr && s'.delivered == s.delivered
  {}

  lemma AfterLook(s: System)
    requires SysInv(s) && s.call.Refilled?
    ensures s.rx.readPtr < |s.rx.status|
    ensures var s' := System(Evaluate(s.rx, s.rx.readPtr, s.call.buffer), Evaluated(s.call.gotBuffer));
      SysInv(s') && Completed(s') == Completed(s) && s'.rx.arrivals == s.rx.arrivals
  {
    LookKeeps(s);
    hide Inv, Consume;
  }

  /** The two parts of a call and its end */
  lemma CallEnds(s: Rx, gotBuffer: bool, s1: System, s2: System, s3: System, s4: System,
                 first: seq<Arrival>, second: seq<Arrival>)
    requires Inv(s) && s.readPtr < |s.cbs| == |s.addr| == |s.status|
    requires s1.call.Refilled? && s1.rx.readPtr < |s1.rx.status| && Completed(s1) == Receive(s, gotBuffer)
    requires s1.rx.arrivals == s.arrivals && s3.rx.arrivals == s2.rx.arrivals
    requires Later(s1, s2, first) && Later(s3, s4, second) && s3.call == s4.call == Evaluated(gotBuffer)
    requires s2.call.Refilled? ==> s2.rx.readPtr < |s2.rx.status|
    requires Completed(s3) == Completed(s2)
    ensures var s' := Consume(s4.rx, gotBuffer); Inv(s') && ReceivedAndStored(s, s', gotBuffer, first + second)
  {
    hide Inv, SysInv, Consume, Evaluate, Arrive, ArriveAll, Receive, Completed, Later;
    LaterMeans(s1, s2, first);
    LaterMeans(s3, s4, second);
    ArriveAllSplit(Completed(s1), first, second);
    CallIsOver(s4);
  }

  lemma LaterMeans(s0: System, s: System, frames: seq<Arrival>)
    requires Later(s0, s, frames)
    ensures SysInv(s) && s.rx.arrivals == s0.rx.arrivals + frames
    ensures s0.call.Refilled? ==> s0.rx.readPtr < |s0.rx.status|
    ensures s.call.Refilled? ==> s.rx.readPtr < |s.rx.status|
    ensures Completed(s0).hwWrite < |Completed(s0).addr| == |Completed(s0).status| == RING_SIZE
    ensures Completed(s) == ArriveAll(Completed(s0), frames)
  {
    hide Inv, Completed, ArriveAll, Lap;
  }

  lemma CallIsOver(s: System)
    requires SysInv(s) && s.call.Evaluated?
    ensures Completed(s) == Consume(s.rx, s.call.gotBuffer)
    ensures Inv(Completed(s)) && Completed(s).arrivals == s.rx.arrivals
  {
    hide Inv, CallInv;
  }

  // ---------------------------------------------------------------- runs

  /** Every interleaving: an event that is not enabled does not happen. */
  function Run(crcFwd: bool, events: seq<Event>): (s: System)
    ensures SysInv(s)
  {
    if events == [] then InitInv(crcFwd); System(Init(crcFwd), Outside)
    else
      var s := Run(crcFwd, events[..|events| - 1]);
      var e := events[|events| - 1];
      if Enabled(s, e) then StepKeeps(s, e); Step(s, e) else s
  }

  /** After every run, also one with failed allocations, fragments and receive errors: the
      pointers follow the indices through their 16-bit wrap, and no buffer was lost. For a call
      that has not ended this is so when it has. */
  lemma RunAccounts(crcFwd: bool, events: seq<Event>)
    ensures var s := Run(crcFwd, events);
      && (s.call.Refilled? ==> s.rx.readPtr < |s.rx.status|)
      && var rx := Completed(s);
         IndicesFollow(rx) && Pointers(rx) && Ownership(rx)
  {
    hide Run, Lap;
    Accounts(Completed(Run(crcFwd, events)));
  }

  /** After every run the caller has got the good frames in the order of their arrival. */
  lemma RunDelivers(crcFwd: bool, events: seq<Event>)
    ensures var s := Run(crcFwd, events);
      && (s.call.Refilled? ==> s.rx.readPtr < |s.rx.status|)
      && var rx := Completed(s);
         && (forall a :: a in rx.arrivals ==> Sane(a, rx.crcFwd))
         && |rx.allocs| <= |rx.arrivals|
         && rx.delivered == Expected(rx.arrivals, rx.allocs, rx.crcFwd)
         && exists at :: InOrder(rx.delivered, at, rx.arrivals, rx.allocs, rx.crcFwd)
  {
    hide Run, Lap, Ownership;
    var rx := Completed(Run(crcFwd, events));
    hide Expected, InOrder;
    var at := ExpectedInOrder(rx.arrivals, rx.allocs, rx.crcFwd);
  }

  /** After every run each frame delivered fits the buffer of the caller. */
  lemma RunFrameSizes(crcFwd: bool, events: seq<Event>, k: nat)
    requires k < |Run(crcFwd, events).rx.delivered|
    ensures 0 < |Run(crcFwd, events).rx.delivered[k]| <= FRAME_BUFFER_SIZE
  {
    var s := Run(crcFwd, events);
    hide Run, Lap, Ownership;
    var rx := Completed(s);
    assert s.rx.delivered <= rx.delivered;
    ExpectedSizes(rx.arrivals, rx.allocs, rx.crcFwd, k);
  }

  lemma {:induction false} ExpectedSizes(arrivals: seq<Arrival>, allocs: seq<bool>, crcFwd: bool, k: nat)
    requires |allocs| <= |arrivals| && forall a :: a in arrivals ==> Sane(a, crcFwd)
    requires k < |Expected(arrivals, allocs, crcFwd)|
    ensures 0 < |Expected(arrivals, allocs, crcFwd)[k]| <= FRAME_BUFFER_SIZE
    decreases |allocs|
  {
    if allocs != [] {
      var n := |allocs| - 1;
      assert arrivals[n] in arrivals;
      if k < |Expected(arrivals, allocs[..n], crcFwd)| {
        ExpectedSizes(arrivals, allocs[..n], crcFwd, k);
      }
    }
  }
}
