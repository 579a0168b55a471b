/**
 Runs of the transmit side of the GENET driver (circle/lib/bcm54213.cpp). The task and the interrupt
 handler exclude each other by m_TxSpinLock, but the DMA engine works on every ring at any time, also
 between the rounds of the loop in tx_reclaim. A run is any interleaving of such steps.
*/
module GenetTxRuns {
  import opened Basics
  import opened GenetTxSpec

  /** A call of tx_reclaim: the consumer index it has read, its rounds and those done so far */
  datatype Reclaiming = Reclaiming(queue: nat, target: nat, total: nat, done: nat)

  datatype System = System(tx: Tx, call: Option<Reclaiming>)

  datatype Event =
    | SendFrame(queue: nat, data: seq<uint8>)
    | Transmitted(queue: nat)
    | StartReclaim(queue: nat)
    | FreeNext
    | EndReclaim

  /** The interrupt handler reclaims one ring after the other, while the task cannot send. */
  predicate Enabled(s: System, e: Event) {
    match e
    case SendFrame(q, data) => s.call.None? && q < TX_RINGS && FitsBuffer(data)
    case Transmitted(q) => q < TX_RINGS
    case StartReclaim(q) => s.call.None? && q < TX_RINGS
    case FreeNext => s.call.Some? && s.call.value.done < s.call.value.total
    case EndReclaim => s.call.Some? && s.call.value.done == s.call.value.total
  }

  /** The ring as if the descriptors freed so far had been accounted for already */
  function Settled(r: Ring, done: nat): Ring {
    r.(freeBds := r.freeBds + done, cIndex := Lap(|r.freed|, INDEX_RANGE))
  }

  function SettledTx(s: System): Tx
    requires s.call.Some? ==> s.call.value.queue < |s.tx.rings|
  {
    if s.call.None? then s.tx
    else var q := s.call.value.queue; s.tx.(rings := s.tx.rings[q := Settled(s.tx.rings[q], s.call.value.done)])
  }

  /** What a call of tx_reclaim relies on: the rounds to come find frames the engine is done with. */
  ghost predicate CallInv(r: Ring, c: Reclaiming) {
    && c.done <= c.total && c.done <= |r.freed|
    && |r.freed| + (c.total - c.done) <= |r.wire|
    && c.target == Lap(|r.freed| + (c.total - c.done), INDEX_RANGE)
    && r.cIndex == Lap(|r.freed| - c.done, INDEX_RANGE)
  }

  ghost predicate SizesFit(tx: Tx) {
    forall q, k :: 0 <= q < |tx.rings| && 0 <= k < |tx.rings[q].sent| ==>
      ETH_ZLEN <= |tx.rings[q].sent[k].bytes| <= ENET_MAX_MTU_SIZE
  }

  ghost predicate SysInv(s: System) {
    && |s.tx.rings| == TX_RINGS
    && (s.call.Some? ==> s.call.value.queue < TX_RINGS && CallInv(s.tx.rings[s.call.value.queue], s.call.value))
    && Inv(SettledTx(s))
    && SizesFit(s.tx)
  }

  function Step(s: System, e: Event): System
    requires SysInv(s) && Enabled(s, e)
  {
    match e
    case SendFrame(q, data) => s.(tx := SendOn(s.tx, q, data))
    case Transmitted(q) =>
      SettledShape(s, q);
      s.(tx := s.tx.(rings := s.tx.rings[q := Transmit(s.tx.rings[q], s.tx.cbs)]))
    case StartReclaim(q) => s.(call := Some(Reclaiming(q, s.tx.rings[q].hwCons, Ready(s.tx.rings[q]), 0)))
    case FreeNext =>
      var c := s.call.value;
      SettledShape(s, c.queue);
      System(WithRing(s.tx, c.queue, FreeOne(s.tx.rings[c.queue], s.tx.cbs)), Some(c.(done := c.done + 1)))
    case EndReclaim =>
      var c := s.call.value;
      var r := s.tx.rings[c.queue];
      System(s.tx.(rings := s.tx.rings[c.queue := r.(freeBds := r.freeBds + c.total, cIndex := c.target)]), None)
  }

  lemma SettledShape(s: System, q: nat)
    requires SysInv(s) && q < TX_RINGS
    ensures var r := s.tx.rings[q]; r.hwRead < |s.tx.cbs| && r.cleanPtr <= r.endPtr < |s.tx.cbs|
    ensures RingInv(SettledTx(s).rings[q], s.tx.cbs)
  {
    RingShape(SettledTx(s), q);
  }

  // ---------------------------------------------------------------- what the steps keep

  lemma TransmitKeepsSystem(s: System, q: nat)
    requires SysInv(s) && q < TX_RINGS
    ensures SysInv(Step(s, Transmitted(q)))
  {
    hide Inv, RingInv, Lap;
    var s' := Step(s, Transmitted(q));
    SettledShape(s, q);
    TransmitKeeps(SettledTx(s).rings[q], s.tx.cbs);
    TransmitOnKeeps(SettledTx(s), q);
    assert SettledTx(s') == TransmitOn(SettledTx(s), q) by {
      assert SettledTx(s').rings == TransmitOn(SettledTx(s), q).rings;
    }
  }

  lemma SendKeepsSystem(s: System, q: nat, data: seq<uint8>)
    requires SysInv(s) && Enabled(s, SendFrame(q, data))
    ensures SysInv(Step(s, SendFrame(q, data)))
  {
    hide Inv, RingInv, SizesFit;
    SendOnKeeps(s.tx, q, data);
    SendKeepsSizes(s.tx, q, data);
    SendKeepsCount(s.tx, q, data);
  }

  lemma SendKeepsCount(tx: Tx, q: nat, data: seq<uint8>)
    requires Inv(tx) && q < TX_RINGS && FitsBuffer(data)
    ensures |SendOn(tx, q, data).rings| == TX_RINGS
  {
    hide RingInv;
  }

  lemma SendKeepsSizes(tx: Tx, q: nat, data: seq<uint8>)
    requires Inv(tx) && q < TX_RINGS && FitsBuffer(data) && SizesFit(tx)
    ensures SizesFit(SendOn(tx, q, data))
  {
    hide RingInv, IdsFresh;
  }

  lemma StartKeepsSystem(s: System, q: nat)
    requires SysInv(s) && Enabled(s, StartReclaim(q))
    ensures SysInv(Step(s, StartReclaim(q)))
  {
    var r := s.tx.rings[q];
    RingShape(s.tx, q);
    ReclaimedCount(r, s.tx.cbs);
    assert Settled(r, 0) == r;
    hide Inv, Lap;
    assert s.tx.rings[q := r] == s.tx.rings;
  }

  lemma FreeKeepsRing(r: Ring, cbs: ControlBlocks, done: nat)
    requires RingInv(Settled(r, done), cbs) && |r.freed| < |r.wire|
    ensures r.cleanPtr < |cbs|
    ensures var (r', cbs') := FreeOne(r, cbs);
      && RingInv(Settled(r', done + 1), cbs') && SameArea(Settled(r, done), Settled(r', done + 1))
      && SameOutside(Settled(r, done), cbs, cbs')
      && r' == r.(cleanPtr := r'.cleanPtr, freed := r'.freed) && |r'.freed| == |r.freed| + 1
  {
    hide Lap;
    FreeOneKeeps(Settled(r, done), cbs);
  }

  lemma FreeKeepsSystem(s: System)
    requires SysInv(s) && Enabled(s, FreeNext)
    ensures SysInv(Step(s, FreeNext))
  {
    hide Inv, RingInv, Lap;
    var c := s.call.value;
    var q, tx0, s' := c.queue, SettledTx(s), Step(s, FreeNext);
    SettledShape(s, q);
    FreeKeepsRing(s.tx.rings[q], s.tx.cbs, c.done);
    var r', cbs' := Settled(s'.tx.rings[q], c.done + 1), s'.tx.cbs;
    RingStepKeeps(tx0, q, r', cbs');
    assert SettledTx(s') == WithRing(tx0, q, (r', cbs')) by {
      assert SettledTx(s').rings == tx0.rings[q := r'];
    }
    IdsStay(tx0, SettledTx(s'));
  }

  lemma IdsStay(tx: Tx, tx': Tx)
    requires Inv(tx) && SameLayout(tx') && tx'.nextId == tx.nextId
    requires forall p :: 0 <= p < TX_RINGS ==> RingInv(tx'.rings[p], tx'.cbs)
    requires forall q :: 0 <= q < TX_RINGS ==> tx'.rings[q].sent == tx.rings[q].sent
    ensures Inv(tx')
  {
    hide RingInv;
    SameSentKeepsIds(tx, tx');
  }

  lemma EndKeepsSystem(s: System)
    requires SysInv(s) && Enabled(s, EndReclaim)
    ensures SysInv(Step(s, EndReclaim)) && Step(s, EndReclaim).tx == SettledTx(s)
  {
    hide Inv, Lap;
  }

  /** The invariant is kept by every step of the task, of the interrupt handler and of the engine. */
  lemma StepKeeps(s: System, e: Event)
    requires SysInv(s) && Enabled(s, e)
    ensures SysInv(Step(s, e))
  {
    hide SysInv, Step;
    match e
    case SendFrame(q, data) => SendKeepsSystem(s, q, data);
    case Transmitted(q) => TransmitKeepsSystem(s, q);
    case StartReclaim(q) => StartKeepsSystem(s, q);
    case FreeNext => FreeKeepsSystem(s);
    case EndReclaim => EndKeepsSystem(s);
  }

  lemma InitSysInv()
    ensures SysInv(System(Init(), None))
  {
    InitInv();
    hide Inv;
  }

  // ---------------------------------------------------------------- runs

  /** Every interleaving: an event that is not enabled does not happen. */
  function Run(events: seq<Event>): (s: System)
    ensures SysInv(s)
  {
    if events == [] then InitSysInv(); System(Init(), None)
    else
      var s := Run(events[..|events| - 1]);
      var e := events[|events| - 1];
      if Enabled(s, e) then StepKeeps(s, e); Step(s, e) else s
  }

  /** After every run each ring accounts for its descriptors; a ring that is being reclaimed does so
      with the rounds done so far. */
  lemma RunAccounts(events: seq<Event>, q: nat)
    requires q < TX_RINGS
    ensures var s := Run(events);
      |s.tx.rings| == TX_RINGS &&
      if s.call.Some? && s.call.value.queue == q then Accounts(Settled(s.tx.rings[q], s.call.value.done), s.tx.cbs)
      else Accounts(s.tx.rings[q], s.tx.cbs)
  {
    var s := Run(events);
    SettledShape(s, q);
    RingAccounts(SettledTx(s).rings[q], s.tx.cbs);
  }

  /** The data of the calls of SendFrame for ring q that found room in it, in the order of the calls */
  ghost function Accepted(events: seq<Event>, q: nat): seq<seq<uint8>>
    requires q < TX_RINGS
  {
    if events == [] then []
    else
      var s, e := Run(events[..|events| - 1]), events[|events| - 1];
      SysInvCount(s);
      Accepted(events[..|events| - 1], q)
      + if e.SendFrame? && e.queue == q && Enabled(s, e) && HasRoom(s.tx.rings[q]) then [e.data] else []
  }

  ghost predicate AllPadded(sent: seq<Frame>, data: seq<seq<uint8>>) {
    |sent| == |data| && forall k :: 0 <= k < |sent| ==> Padded(sent[k].bytes, data[k])
  }

  lemma SysInvCount(s: System)
    requires SysInv(s)
    ensures |s.tx.rings| == TX_RINGS && (s.call.None? ==> Inv(s.tx))
  {
    hide Inv;
  }

  /** What one event adds to the frames queued on ring q */
  lemma StepSends(s: System, e: Event, q: nat)
    requires SysInv(s) && Enabled(s, e) && q < TX_RINGS
    ensures |s.tx.rings| == |Step(s, e).tx.rings| == TX_RINGS
    ensures var r, r' := s.tx.rings[q], Step(s, e).tx.rings[q];
      if e.SendFrame? && e.queue == q && HasRoom(r)
      then
        && |r'.sent| == |r.sent| + 1 && r'.sent == r.sent + [r'.sent[|r.sent|]]
        && Padded(r'.sent[|r.sent|].bytes, e.data)
      else r'.sent == r.sent
  {
    hide SysInv, Inv, RingInv, Padded, HasRoom;
    SysInvCount(s);
    StepKeeps(s, e);
    SysInvCount(Step(s, e));
    if e.SendFrame? {
      SendQueues(s.tx, e.queue, e.data);
    }
  }

  /** After every run the frames of a ring are the data of the accepted calls, in order and padded. */
  lemma {:induction false} RunSends(events: seq<Event>, q: nat)
    requires q < TX_RINGS
    ensures |Run(events).tx.rings| == TX_RINGS
    ensures AllPadded(Run(events).tx.rings[q].sent, Accepted(events, q))
  {
    hide SysInv, Step, Padded, HasRoom;
    SysInvCount(Run(events));
    if events == [] {
      InitEmpty(q);
    } else {
      var s, e := Run(events[..|events| - 1]), events[|events| - 1];
      RunSends(events[..|events| - 1], q);
      if Enabled(s, e) {
        StepSends(s, e, q);
      }
    }
  }

  lemma InitEmpty(q: nat)
    requires q < TX_RINGS
    ensures Init().rings[q].sent == []
  {}

  /** The k-th frame on the wire carries the bytes of the k-th accepted call. */
  lemma RunTransmits(events: seq<Event>, q: nat)
    requires q < TX_RINGS
    ensures |Run(events).tx.rings| == TX_RINGS
    ensures var wire := Run(events).tx.rings[q].wire;
      |wire| <= |Accepted(events, q)|
      && forall k :: 0 <= k < |wire| ==> wire[k].Some? && Padded(wire[k].value.bytes, Accepted(events, q)[k])
  {
    hide Run, Accepted, Padded;
    RunSends(events, q);
    RunFreesOnce(events, q);
  }

  /** Frames of the ring were deleted in the order they were sent, each at most once on the whole
      device, and only when the engine had put the frame on the wire, unchanged. */
  ghost predicate FreedOnce(tx: Tx, q: nat)
    requires q < |tx.rings|
  {
    var r := tx.rings[q];
    && r.freed <= r.sent
    && |r.freed| <= |r.wire| <= |r.sent|
    && (forall k :: 0 <= k < |r.wire| ==> r.wire[k] == Some(r.sent[k]))
    && (forall k, p, j | 0 <= k < |r.freed| && 0 <= p < |tx.rings| && 0 <= j < |tx.rings[p].freed| ::
          r.freed[k].id == tx.rings[p].freed[j].id ==> p == q && j == k)
  }

  lemma InvFreesOnce(tx: Tx, q: nat)
    requires Inv(tx) && q < |tx.rings|
    ensures FreedOnce(tx, q)
  {
    hide Lap;
    forall p, k | 0 <= p < TX_RINGS && 0 <= k < |tx.rings[p].freed|
      ensures tx.rings[p].freed[k] == tx.rings[p].sent[k]
    {}
  }

  /** After every run no buffer was deleted too early, out of order or twice. */
  lemma RunFreesOnce(events: seq<Event>, q: nat)
    requires q < TX_RINGS
    ensures |Run(events).tx.rings| == TX_RINGS && FreedOnce(Run(events).tx, q)
  {
    var s := Run(events);
    hide Run, Inv, Lap, FreedOnce;
    SettledCount(s);
    InvFreesOnce(SettledTx(s), q);
    SameHistoriesFreedOnce(SettledTx(s), s.tx, q);
  }

  lemma SettledCount(s: System)
    requires SysInv(s)
    ensures |SettledTx(s).rings| == |s.tx.rings| == TX_RINGS
  {
    hide Inv;
  }

  lemma SameHistoriesFreedOnce(tx: Tx, tx': Tx, q: nat)
    requires |tx.rings| == |tx'.rings| && q < |tx.rings| && FreedOnce(tx, q)
    requires forall p :: 0 <= p < |tx.rings| ==>
      && tx'.rings[p].sent == tx.rings[p].sent && tx'.rings[p].wire == tx.rings[p].wire
      && tx'.rings[p].freed == tx.rings[p].freed
    ensures FreedOnce(tx', q)
  {}

  /** After every run each frame in the rings has at least the minimum length and fits its buffer. */
  lemma RunFrameSizes(events: seq<Event>)
    ensures SizesFit(Run(events).tx)
  {}

  // ---------------------------------------------------------------- undisturbed reclaim

  /** A call on ring q that started in tx has done k rounds. */
  ghost predicate AfterRounds(s: System, tx: Tx, q: nat, k: nat)
    requires q < TX_RINGS == |tx.rings|
  {
    && SysInv(s) && s.call == Some(Reclaiming(q, tx.rings[q].hwCons, Ready(tx.rings[q]), k))
    && |s.tx.rings| == TX_RINGS && s.tx.rings[q].hwCons == tx.rings[q].hwCons
  }

  lemma FirstRound(tx: Tx, q: nat)
    requires SysInv(System(tx, None)) && q < TX_RINGS
    ensures |tx.rings| == TX_RINGS && Enabled(System(tx, None), StartReclaim(q))
    ensures AfterRounds(Step(System(tx, None), StartReclaim(q)), tx, q, 0)
  {
    hide Inv, Lap;
    StartKeepsSystem(System(tx, None), q);
  }

  lemma NextRound(s: System, tx: Tx, q: nat, k: nat)
    requires q < TX_RINGS == |tx.rings| && AfterRounds(s, tx, q, k) && k < Ready(tx.rings[q])
    ensures Enabled(s, FreeNext) && AfterRounds(Step(s, FreeNext), tx, q, k + 1)
  {
    hide SysInv, Inv, Lap;
    FreeKeepsSystem(s);
  }

  ghost function TryStep(s: System, e: Event): System {
    if SysInv(s) && Enabled(s, e) then Step(s, e) else s
  }

  /** The state after a number of rounds of tx_reclaim without a step of the engine */
  ghost function Rounds(tx: Tx, q: nat, k: nat): System {
    if k == 0 then TryStep(System(tx, None), StartReclaim(q)) else TryStep(Rounds(tx, q, k - 1), FreeNext)
  }

  lemma {:induction false} RoundsFree(tx: Tx, q: nat, k: nat)
    requires SysInv(System(tx, None)) && q < TX_RINGS == |tx.rings| && k <= Ready(tx.rings[q])
    ensures AfterRounds(Rounds(tx, q, k), tx, q, k)
    ensures var r := tx.rings[q];
      && r.cbPtr <= r.endPtr < |tx.cbs| && r.cleanPtr <= r.endPtr
      && Rounds(tx, q, k).tx == WithRing(tx, q, FreeMany(r, tx.cbs, k))
  {
    hide Inv, RingInv, Ready, Lap, SizesFit, CallInv;
    RingShape(tx, q);
    if k == 0 {
      FirstRound(tx, q);
      assert tx.rings[q := tx.rings[q]] == tx.rings;
    } else {
      RoundsFree(tx, q, k - 1);
      hide SysInv, FreeMany;
      OneMoreRound(Rounds(tx, q, k - 1), tx, q, k - 1);
    }
  }

  lemma OneMoreRound(s: System, tx: Tx, q: nat, k: nat)
    requires q < TX_RINGS == |tx.rings| && AfterRounds(s, tx, q, k) && k < Ready(tx.rings[q])
    requires var r := tx.rings[q]; r.cbPtr <= r.endPtr < |tx.cbs| && r.cleanPtr <= r.endPtr
    requires s.tx == WithRing(tx, q, FreeMany(tx.rings[q], tx.cbs, k))
    ensures AfterRounds(TryStep(s, FreeNext), tx, q, k + 1)
    ensures TryStep(s, FreeNext).tx == WithRing(tx, q, FreeMany(tx.rings[q], tx.cbs, k + 1))
  {
    hide SysInv, Ready, Lap;
    NextRound(s, tx, q, k);
    var (r1, cbs1) := FreeMany(tx.rings[q], tx.cbs, k);
    assert FreeMany(tx.rings[q], tx.cbs, k + 1) == FreeOne(r1, cbs1);
  }

  /** Without a step of the engine in between, the rounds are the call of the driver. */
  lemma RoundsAreReclaim(tx: Tx, q: nat)
    requires SysInv(System(tx, None)) && q < TX_RINGS == |tx.rings|
    ensures TryStep(Rounds(tx, q, Ready(tx.rings[q])), EndReclaim) == System(ReclaimOn(tx, q), None)
  {
    hide Inv, FreeMany, Ready, Lap, Rounds, AfterRounds, TryStep, ReclaimOn, CallInv;
    RoundsFree(tx, q, Ready(tx.rings[q]));
    LastRound(Rounds(tx, q, Ready(tx.rings[q])), tx, q);
  }

  lemma LastRound(s: System, tx: Tx, q: nat)
    requires q < TX_RINGS == |tx.rings| && Inv(tx) && AfterRounds(s, tx, q, Ready(tx.rings[q]))
    requires var r := tx.rings[q]; r.cbPtr <= r.endPtr < |tx.cbs| && r.cleanPtr <= r.endPtr
    requires s.tx == WithRing(tx, q, FreeMany(tx.rings[q], tx.cbs, Ready(tx.rings[q])))
    ensures TryStep(s, EndReclaim) == System(ReclaimOn(tx, q), None)
  {
    hide Inv, SysInv, FreeMany, Ready, Lap;
    var (r1, cbs1) := FreeMany(tx.rings[q], tx.cbs, Ready(tx.rings[q]));
    assert s.tx.rings[q] == r1 && r1.freeBds == tx.rings[q].freeBds;
    assert s.tx.rings[q := r1] == s.tx.rings;
  }

  /** No buffer is lost: once the engine has caught up with a ring, a reclaim gives every descriptor
      back. */
  lemma DrainedRingIsEmpty(events: seq<Event>, q: nat)
    requires q < TX_RINGS && Run(events).call.None?
    requires Run(events).tx.rings[q].hwCons == Run(events).tx.rings[q].prodIndex
    ensures var tx := Run(events).tx; var r := ReclaimOn(tx, q).rings[q];
      Inv(tx) && r.freed == r.sent && r.freeBds == r.size && r.writePtr == r.cleanPtr
  {
    var tx := Run(events).tx;
    var r := tx.rings[q];
    RingShape(tx, q);
    DrainedRing(r, tx.cbs);
  }

  lemma DrainedRing(r: Ring, cbs: ControlBlocks)
    requires RingInv(r, cbs) && r.hwCons == r.prodIndex
    ensures var r' := Reclaim(r, cbs).0; r'.freed == r'.sent && r'.freeBds == r'.size && r'.writePtr == r'.cleanPtr
  {
    TransmitKeeps(r, cbs);
    ReclaimKeeps(r, cbs);
    assert r.sent[..|r.wire|] == r.sent;
  }
}
