/**
 The transmit side of the GENET driver (circle/lib/bcm54213.cpp).

 Three parties work on a descriptor ring: the task puts frames into it, the DMA engine
 puts them on the wire, and the interrupt handler gives the buffers back. They only share
 the control blocks and two 16-bit indices per ring. The functions of this file are the
 atomic steps (the driver holds m_TxSpinLock in each of them), a run is any interleaving.
*/
module GenetTxSpec {
  import opened Basics

  const TOTAL_DESC := 256
  const TX_QUEUES := 4
  const TX_BDS_PER_Q := 32
  const GENET_Q16_TX_BD_CNT := TOTAL_DESC - TX_QUEUES * TX_BDS_PER_Q
  const GENET_DESC_INDEX := 16
  const TX_RINGS := TX_QUEUES + 1
  const INDEX_RANGE := 0x1_0000
  const ETH_ZLEN := 60
  const ENET_MAX_MTU_SIZE := 1536
  const FRAME_BUFFER_SIZE := 1600

  /** A DMA buffer with its contents; id tells one allocation from the other. */
  datatype Frame = Frame(id: nat, bytes: seq<uint8>)

  /** The control blocks m_tx_cbs: the buffer pointer of each descriptor. */
  type ControlBlocks = seq<Option<Frame>>

  datatype Ring = Ring(
    // driver
    index: nat, size: nat, cbPtr: nat, endPtr: nat,
    writePtr: nat, cleanPtr: nat, freeBds: nat, prodIndex: nat, cIndex: nat,
    // TDMA engine
    hwProd: nat, hwCons: nat, hwRead: nat,
    // history: buffers queued, what the engine found in the descriptors, buffers deleted
    sent: seq<Frame>, wire: seq<Option<Frame>>, freed: seq<Frame>)

  datatype Tx = Tx(rings: seq<Ring>, cbs: ControlBlocks, nextId: nat)

  function Advance(r: Ring, p: nat): nat {
    if p >= r.endPtr then r.cbPtr else p + 1
  }

  /** The control block used for the k-th frame of a ring. */
  function Slot(cbPtr: nat, size: nat, k: nat): (s: nat)
    requires size > 0
    ensures cbPtr <= s < cbPtr + size
  {
    cbPtr + Lap(k, size)
  }

  function Pad(data: seq<uint8>): (p: seq<uint8>)
    ensures data <= p && |p| == Max(|data|, ETH_ZLEN)
    ensures forall i :: |data| <= i < |p| ==> p[i] == 0
  {
    data + seq(Max(0, ETH_ZLEN - |data|), _ => 0)
  }

  /** The frame fits the DMA buffer it is copied to. */
  predicate FitsBuffer(data: seq<uint8>) {
    |Pad(data)| <= ENET_MAX_MTU_SIZE
  }

  /** The condition a caller can check. SendFrame does not, and the limit of its callers is higher. */
  lemma FitsBufferIff(data: seq<uint8>)
    ensures FitsBuffer(data) <==> |data| <= ENET_MAX_MTU_SIZE
    ensures |data| == FRAME_BUFFER_SIZE ==> !FitsBuffer(data)
  {}

  // ---------------------------------------------------------------- invariant

  ghost predicate Pointers(r: Ring, cbs: ControlBlocks) {
    && 1 <= r.size < INDEX_RANGE && r.endPtr == r.cbPtr + r.size - 1 && r.endPtr < |cbs|
    && |r.freed| <= |r.wire| <= |r.sent| < |r.freed| + r.size
    && r.writePtr == Slot(r.cbPtr, r.size, |r.sent|)
    && r.hwRead == Slot(r.cbPtr, r.size, |r.wire|)
    && r.cleanPtr == Slot(r.cbPtr, r.size, |r.freed|)
    && r.prodIndex == r.hwProd == Lap(|r.sent|, INDEX_RANGE)
    && r.hwCons == Lap(|r.wire|, INDEX_RANGE)
  }

  ghost predicate Buffers(r: Ring, cbs: ControlBlocks)
    requires Pointers(r, cbs)
  {
    && r.freed == r.sent[..|r.freed|]
    && (forall k :: 0 <= k < |r.wire| ==> r.wire[k] == Some(r.sent[k]))
    && (forall k :: |r.freed| <= k < |r.sent| ==> cbs[Slot(r.cbPtr, r.size, k)] == Some(r.sent[k]))
    && (forall k :: |r.sent| <= k < |r.freed| + r.size ==> cbs[Slot(r.cbPtr, r.size, k)] == None)
  }

  ghost predicate RingInv(r: Ring, cbs: ControlBlocks) {
    && Pointers(r, cbs)
    && Buffers(r, cbs)
    && r.freeBds == r.size - (|r.sent| - |r.freed|)
    && r.cIndex == Lap(|r.freed|, INDEX_RANGE)
  }

  ghost predicate InRing(r: Ring, slot: nat) {
    r.cbPtr <= slot <= r.endPtr
  }

  ghost predicate SameOutside(r: Ring, cbs: ControlBlocks, cbs': ControlBlocks) {
    |cbs'| == |cbs| && forall i :: 0 <= i < |cbs| && !InRing(r, i) ==> cbs'[i] == cbs[i]
  }

  ghost predicate SameArea(r: Ring, r': Ring) {
    r'.index == r.index && r'.cbPtr == r.cbPtr && r'.endPtr == r.endPtr && r'.size == r.size
  }

  // ---------------------------------------------------------------- steps of one ring

  /** SendFrame after the buffer was filled: get_txcb, descriptor and index update. */
  function Send(r: Ring, cbs: ControlBlocks, f: Frame): (Ring, ControlBlocks)
    requires r.writePtr < |cbs|
  {
    if r.freeBds < 2 then (r, cbs)
    else
      var prod := (r.prodIndex + 1) % INDEX_RANGE;
      (r.(writePtr := Advance(r, r.writePtr), freeBds := r.freeBds - 1,
          prodIndex := prod, hwProd := prod, sent := r.sent + [f]),
       cbs[r.writePtr := Some(f)])
  }

  /** The engine transmits the next descriptor, if its indices say that there is one. */
  function Transmit(r: Ring, cbs: ControlBlocks): Ring
    requires r.hwRead < |cbs|
  {
    if r.hwCons == r.hwProd then r
    else r.(hwCons := (r.hwCons + 1) % INDEX_RANGE, hwRead := Advance(r, r.hwRead),
            wire := r.wire + [cbs[r.hwRead]])
  }

  /** free_tx_cb and the pointer update of the loop in tx_reclaim */
  function FreeOne(r: Ring, cbs: ControlBlocks): (Ring, ControlBlocks)
    requires r.cleanPtr < |cbs|
  {
    var buffer := cbs[r.cleanPtr];
    (r.(cleanPtr := if r.cleanPtr < r.endPtr then r.cleanPtr + 1 else r.cbPtr,
        freed := if buffer.Some? then r.freed + [buffer.value] else r.freed),
     cbs[r.cleanPtr := None])
  }

  function FreeMany(r: Ring, cbs: ControlBlocks, n: nat): (res: (Ring, ControlBlocks))
    requires r.cbPtr <= r.endPtr < |cbs| && r.cleanPtr <= r.endPtr
    ensures SameArea(r, res.0) && |res.1| == |cbs| && res.0.cleanPtr <= r.endPtr
    ensures res.0.freeBds == r.freeBds && res.0.cIndex == r.cIndex
    decreases n
  {
    if n == 0 then (r, cbs)
    else
      var (r1, cbs1) := FreeMany(r, cbs, n - 1);
      FreeOne(r1, cbs1)
  }

  function Ready(r: Ring): nat {
    (r.hwCons - r.cIndex) % INDEX_RANGE
  }

  /** tx_reclaim */
  function Reclaim(r: Ring, cbs: ControlBlocks): (Ring, ControlBlocks)
    requires r.cbPtr <= r.endPtr < |cbs| && r.cleanPtr <= r.endPtr
  {
    var (r1, cbs1) := FreeMany(r, cbs, Ready(r));
    (r1.(freeBds := r1.freeBds + Ready(r), cIndex := r.hwCons), cbs1)
  }

  // ---------------------------------------------------------------- what the steps keep

  /** Within one lap no two frames use the same control block. */
  lemma OneLap(cbPtr: nat, size: nat, from: nat, at: nat)
    requires size > 0 && from <= at < from + size
    ensures forall k :: from <= k < from + size && k != at ==> Slot(cbPtr, size, k) != Slot(cbPtr, size, at)
  {
    hide Lap;
    forall k | from <= k < from + size && k != at
      ensures Slot(cbPtr, size, k) != Slot(cbPtr, size, at)
    {
      if k < at { LapDistinct(k, at, size); } else { LapDistinct(at, k, size); }
    }
  }

  lemma SendPointers(r: Ring, cbs: ControlBlocks, f: Frame)
    requires RingInv(r, cbs) && r.freeBds >= 2
    ensures var (r', cbs') := Send(r, cbs, f); Pointers(r', cbs')
  {
    hide Lap, Buffers;
    LapNext(|r.sent|, r.size);
    LapNext(|r.sent|, INDEX_RANGE);
  }

  /** The slot a send takes is empty, and afterwards holds the frame until it is reclaimed. */
  lemma SendKeeps(r: Ring, cbs: ControlBlocks, f: Frame)
    requires RingInv(r, cbs)
    ensures r.freeBds >= 1
    ensures r.freeBds >= 2 ==> cbs[r.writePtr] == None
    ensures var (r', cbs') := Send(r, cbs, f);
      && RingInv(r', cbs') && SameArea(r, r') && SameOutside(r, cbs, cbs')
      && r'.wire == r.wire && r'.freed == r.freed
      && r'.sent == if r.freeBds < 2 then r.sent else r.sent + [f]
  {
    hide Lap;
    if r.freeBds >= 2 {
      SendPointers(r, cbs, f);
      OneLap(r.cbPtr, r.size, |r.freed|, |r.sent|);
      assert Slot(r.cbPtr, r.size, |r.sent|) == r.writePtr;
    }
  }

  /** What the engine puts on the wire is the frame that was queued, never a freed buffer. */
  lemma TransmitKeeps(r: Ring, cbs: ControlBlocks)
    requires RingInv(r, cbs)
    ensures r.hwCons == r.hwProd <==> |r.wire| == |r.sent|
    ensures var r' := Transmit(r, cbs);
      && RingInv(r', cbs) && SameArea(r, r')
      && r'.sent == r.sent && r'.freed == r.freed
      && |r'.wire| == if |r.wire| < |r.sent| then |r.wire| + 1 else |r.wire|
  {
    hide Lap;
    var s, w := |r.sent|, |r.wire|;
    if w < s {
      LapDistinct(w, s, INDEX_RANGE);
      LapNext(w, INDEX_RANGE);
      LapNext(w, r.size);
      assert Slot(r.cbPtr, r.size, w) == r.hwRead;
      var r' := Transmit(r, cbs);
      assert r'.wire == r.wire + [Some(r.sent[w])];
    }
  }

  lemma FreeOneKeeps(r: Ring, cbs: ControlBlocks)
    requires Pointers(r, cbs) && Buffers(r, cbs) && |r.freed| < |r.wire|
    ensures var (r', cbs') := FreeOne(r, cbs);
      && Pointers(r', cbs') && Buffers(r', cbs') && SameArea(r, r') && SameOutside(r, cbs, cbs')
      && r'.freed == r.sent[..|r.freed| + 1]
      && r' == r.(cleanPtr := r'.cleanPtr, freed := r'.freed)
  {
    var d := |r.freed|;
    var (r', cbs') := FreeOne(r, cbs);
    assert Slot(r.cbPtr, r.size, d) == r.cleanPtr;
    assert Slot(r.cbPtr, r.size, d + r.size) == Slot(r.cbPtr, r.size, d);
    assert r'.freed == r.sent[..d] + [r.sent[d]] == r.sent[..d + 1];
    hide Lap;
    LapNext(d, r.size);
    OneLap(r.cbPtr, r.size, d, d);
  }

  lemma {:induction false} FreeManyKeeps(r: Ring, cbs: ControlBlocks, n: nat)
    requires Pointers(r, cbs) && Buffers(r, cbs) && |r.freed| + n <= |r.wire|
    ensures var (r', cbs') := FreeMany(r, cbs, n);
      && Pointers(r', cbs') && Buffers(r', cbs') && SameArea(r, r') && SameOutside(r, cbs, cbs')
      && r'.freed == r.sent[..|r.freed| + n]
      && r' == r.(cleanPtr := r'.cleanPtr, freed := r'.freed)
    decreases n
  {
    if n == 0 {
      assert r.freed == r.sent[..|r.freed|];
    } else {
      FreeManyKeeps(r, cbs, n - 1);
      var (r1, cbs1) := FreeMany(r, cbs, n - 1);
      FreeOneKeeps(r1, cbs1);
      assert FreeMany(r, cbs, n) == FreeOne(r1, cbs1);
    }
  }

  /** A reclaim deletes exactly the buffers the engine is done with, in send order. */
  lemma ReclaimKeeps(r: Ring, cbs: ControlBlocks)
    requires RingInv(r, cbs)
    ensures var (r', cbs') := Reclaim(r, cbs);
      && RingInv(r', cbs') && SameArea(r, r') && SameOutside(r, cbs, cbs')
      && r'.sent == r.sent && r'.wire == r.wire
      && r'.freed == r.sent[..|r.wire|]
  {
    var n := Ready(r);
    assert n == |r.wire| - |r.freed| by { LapDistance(|r.wire|, |r.freed|, INDEX_RANGE); }
    FreeManyKeeps(r, cbs, n);
  }

  // ---------------------------------------------------------------- all rings of the device

  /** init_tx_ring */
  function InitRing(index: nat, size: nat, startPtr: nat, endPtr: nat): Ring
    requires endPtr > 0
  {
    Ring(index, size, startPtr, endPtr - 1, startPtr, startPtr, size, 0, 0, 0, 0, startPtr, [], [], [])
  }

  /** init_tx_queues: the priority queues 0..3, then the default queue 16 */
  function Init(): Tx {
    Tx(seq(TX_QUEUES, i requires 0 <= i < TX_QUEUES =>
         InitRing(i, TX_BDS_PER_Q, i * TX_BDS_PER_Q, (i + 1) * TX_BDS_PER_Q))
       + [InitRing(GENET_DESC_INDEX, GENET_Q16_TX_BD_CNT, TX_QUEUES * TX_BDS_PER_Q, TOTAL_DESC)],
       seq(TOTAL_DESC, _ => None), 0)
  }

  ghost predicate SameLayout(tx: Tx) {
    && |tx.rings| == TX_RINGS && |tx.cbs| == TOTAL_DESC
    && forall q :: 0 <= q < TX_RINGS ==> SameArea(Init().rings[q], tx.rings[q])
  }

  ghost predicate IdsFresh(tx: Tx) {
    && (forall q, i :: 0 <= q < |tx.rings| && 0 <= i < |tx.rings[q].sent| ==> tx.rings[q].sent[i].id < tx.nextId)
    && (forall q, i, p, j |
          0 <= q < |tx.rings| && 0 <= i < |tx.rings[q].sent| && 0 <= p < |tx.rings| && 0 <= j < |tx.rings[p].sent| ::
          tx.rings[q].sent[i].id == tx.rings[p].sent[j].id ==> q == p && i == j)
  }

  ghost predicate Inv(tx: Tx) {
    && SameLayout(tx)
    && (forall q :: 0 <= q < TX_RINGS ==> RingInv(tx.rings[q], tx.cbs))
    && IdsFresh(tx)
  }

  function WithRing(tx: Tx, q: nat, res: (Ring, ControlBlocks)): Tx
    requires q < |tx.rings|
  {
    tx.(rings := tx.rings[q := res.0], cbs := res.1)
  }

  /** The buffer is allocated after the check for room. */
  function SendOn(tx: Tx, q: nat, data: seq<uint8>): Tx
    requires Inv(tx) && q < TX_RINGS && FitsBuffer(data)
  {
    if tx.rings[q].freeBds < 2 then tx
    else WithRing(tx, q, Send(tx.rings[q], tx.cbs, Frame(tx.nextId, Pad(data)))).(nextId := tx.nextId + 1)
  }

  function TransmitOn(tx: Tx, q: nat): Tx
    requires Inv(tx) && q < TX_RINGS
  {
    tx.(rings := tx.rings[q := Transmit(tx.rings[q], tx.cbs)])
  }

  function ReclaimOn(tx: Tx, q: nat): Tx
    requires Inv(tx) && q < TX_RINGS
  {
    WithRing(tx, q, Reclaim(tx.rings[q], tx.cbs))
  }

  /** The loop of InterruptHandler1 over the queues below n */
  function ReclaimSome(tx: Tx, status: set<nat>, n: nat): (tx': Tx)
    requires Inv(tx) && n <= TX_QUEUES
    ensures Inv(tx')
    decreases n
  {
    if n == 0 then tx
    else
      var tx1 := ReclaimSome(tx, status, n - 1);
      if n - 1 in status then ReclaimOnKeeps(tx1, n - 1); ReclaimOn(tx1, n - 1) else tx1
  }

  /** The slots of the five rings are disjoint and cover all descriptors. */
  lemma Partition(tx: Tx, slot: nat)
    requires SameLayout(tx) && slot < TOTAL_DESC
    ensures exists q :: 0 <= q < TX_RINGS && InRing(tx.rings[q], slot)
    ensures forall q, p | 0 <= q < TX_RINGS && 0 <= p < TX_RINGS ::
              InRing(tx.rings[q], slot) && InRing(tx.rings[p], slot) ==> q == p
  {
    var owner := if slot < TX_QUEUES * TX_BDS_PER_Q then slot / TX_BDS_PER_Q else TX_QUEUES;
    assert SameArea(Init().rings[owner], tx.rings[owner]);
    assert InRing(tx.rings[owner], slot);
  }

  lemma OtherRingUntouched(tx: Tx, q: nat, p: nat, cbs': ControlBlocks)
    requires SameLayout(tx) && q < TX_RINGS && p < TX_RINGS && p != q
    requires RingInv(tx.rings[p], tx.cbs) && SameOutside(tx.rings[q], tx.cbs, cbs')
    ensures RingInv(tx.rings[p], cbs')
  {
    var r := tx.rings[p];
    assert SameArea(Init().rings[p], r) && SameArea(Init().rings[q], tx.rings[q]);
    forall slot: nat | InRing(r, slot)
      ensures cbs'[slot] == tx.cbs[slot]
    {
      Partition(tx, slot);
    }
  }

  /** Whatever one ring does to its own control blocks leaves the other rings alone. */
  lemma RingStepKeeps(tx: Tx, q: nat, r': Ring, cbs': ControlBlocks)
    requires Inv(tx) && q < TX_RINGS
    requires RingInv(r', cbs') && SameArea(tx.rings[q], r') && SameOutside(tx.rings[q], tx.cbs, cbs')
    ensures var tx' := WithRing(tx, q, (r', cbs'));
      && SameLayout(tx') && forall p :: 0 <= p < TX_RINGS ==> RingInv(tx'.rings[p], tx'.cbs)
  {
    forall p | 0 <= p < TX_RINGS && p != q
      ensures RingInv(tx.rings[p], cbs')
    {
      OtherRingUntouched(tx, q, p, cbs');
    }
  }

  /** Each frame whose descriptor the engine has consumed is deleted by the next reclaim. */
  lemma ReclaimedCount(r: Ring, cbs: ControlBlocks)
    requires RingInv(r, cbs)
    ensures Ready(r) == |r.wire| - |r.freed| == |Reclaim(r, cbs).0.freed| - |r.freed|
  {
    ReclaimKeeps(r, cbs);
    LapDistance(|r.wire|, |r.freed|, INDEX_RANGE);
  }

  lemma RingShape(tx: Tx, q: nat)
    requires Inv(tx) && q < |tx.rings|
    ensures RingInv(tx.rings[q], tx.cbs)
    ensures var r := tx.rings[q];
      && r.cbPtr <= r.writePtr <= r.endPtr < |tx.cbs|
      && r.cleanPtr <= r.endPtr && r.hwRead <= r.endPtr
  {}

  lemma ReclaimOnKeeps(tx: Tx, q: nat)
    requires Inv(tx) && q < TX_RINGS
    ensures Inv(ReclaimOn(tx, q))
  {
    var (r', cbs') := Reclaim(tx.rings[q], tx.cbs);
    assert RingInv(r', cbs') && SameArea(tx.rings[q], r') && SameOutside(tx.rings[q], tx.cbs, cbs')
      && r'.sent == tx.rings[q].sent
    by {
      ReclaimKeeps(tx.rings[q], tx.cbs);
    }
    RingStepKeeps(tx, q, r', cbs');
    SameSentKeepsIds(tx, ReclaimOn(tx, q));
  }

  lemma SameSentKeepsIds(tx: Tx, tx': Tx)
    requires IdsFresh(tx) && |tx'.rings| == |tx.rings| && tx'.nextId == tx.nextId
    requires forall q :: 0 <= q < |tx.rings| ==> tx'.rings[q].sent == tx.rings[q].sent
    ensures IdsFresh(tx')
  {}

  lemma NextIdIsFresh(tx: Tx, tx': Tx, q: nat, f: Frame)
    requires IdsFresh(tx) && q < |tx.rings| && f.id == tx.nextId
    requires |tx'.rings| == |tx.rings| && tx'.nextId == tx.nextId + 1
    requires tx'.rings[q].sent == tx.rings[q].sent + [f]
    requires forall p :: 0 <= p < |tx.rings| && p != q ==> tx'.rings[p].sent == tx.rings[p].sent
    ensures IdsFresh(tx')
  {}

  lemma SendOnKeeps(tx: Tx, q: nat, data: seq<uint8>)
    requires Inv(tx) && q < TX_RINGS && FitsBuffer(data)
    ensures Inv(SendOn(tx, q, data))
  {
    if tx.rings[q].freeBds >= 2 {
      var f := Frame(tx.nextId, Pad(data));
      var (r', cbs') := Send(tx.rings[q], tx.cbs, f);
      assert RingInv(r', cbs') && SameArea(tx.rings[q], r') && SameOutside(tx.rings[q], tx.cbs, cbs')
        && r'.sent == tx.rings[q].sent + [f]
      by {
        SendKeeps(tx.rings[q], tx.cbs, f);
      }
      RingStepKeeps(tx, q, r', cbs');
      NextIdIsFresh(tx, SendOn(tx, q, data), q, f);
    }
  }

  /** The bytes on the wire for these data: the data, then zeros up to the minimum length. */
  ghost predicate Padded(bytes: seq<uint8>, data: seq<uint8>) {
    && |bytes| == Max(|data|, 60)
    && bytes[..|data|] == data
    && forall i :: |data| <= i < |bytes| ==> bytes[i] == 0
  }

  /** There are at least two descriptors without a frame. */
  ghost predicate HasRoom(r: Ring) {
    |r.sent| - |r.freed| <= r.size - 2
  }

  /** Ring q got a frame with the bytes of the data in the control block it had stood on, if there was
      room, and nothing else changed. */
  ghost predicate Queues(tx: Tx, tx': Tx, q: nat, data: seq<uint8>)
    requires q < |tx.rings| == |tx'.rings|
  {
    var r, r' := tx.rings[q], tx'.rings[q];
    && (forall p :: 0 <= p < |tx.rings| && p != q ==> tx'.rings[p] == tx.rings[p])
    && if !HasRoom(r) then tx' == tx
       else
         && |r'.sent| == |r.sent| + 1 && r.writePtr < |tx.cbs|
         && var f := r'.sent[|r.sent|];
            && r'.sent == r.sent + [f] && r'.wire == r.wire && r'.freed == r.freed
            && Padded(f.bytes, data) && f.id == tx.nextId && tx'.nextId == tx.nextId + 1
            && tx'.cbs == tx.cbs[r.writePtr := Some(f)]
  }

  /** A call of SendFrame queues the bytes of its caller, on its ring alone. */
  lemma SendQueues(tx: Tx, q: nat, data: seq<uint8>)
    requires Inv(tx) && q < TX_RINGS && FitsBuffer(data)
    ensures |SendOn(tx, q, data).rings| == |tx.rings| && Queues(tx, SendOn(tx, q, data), q, data)
  {
    hide RingInv, IdsFresh;
    RingRoom(tx.rings[q], tx.cbs);
  }

  lemma RingRoom(r: Ring, cbs: ControlBlocks)
    requires RingInv(r, cbs)
    ensures r.writePtr < |cbs| && (r.freeBds >= 2 <==> HasRoom(r))
  {}

  /** A reclaim of ring q deletes what the engine has put on the wire, on this ring alone. */
  ghost predicate Frees(r: Ring, r': Ring) {
    r'.sent == r.sent && r'.wire == r.wire && |r.wire| <= |r.sent| && r'.freed == r.sent[..|r.wire|]
  }

  lemma ReclaimFrees(tx: Tx, q: nat)
    requires Inv(tx) && q < TX_RINGS
    ensures Frees(tx.rings[q], ReclaimOn(tx, q).rings[q])
    ensures forall p :: 0 <= p < TX_RINGS && p != q ==> ReclaimOn(tx, q).rings[p] == tx.rings[p]
  {
    hide Lap;
    ReclaimKeeps(tx.rings[q], tx.cbs);
  }

  /** Exactly the rings with a pending interrupt are reclaimed, each completely. */
  lemma {:induction false} ReclaimSomeFrees(tx: Tx, status: set<nat>, n: nat)
    requires Inv(tx) && n <= TX_QUEUES
    ensures forall q :: 0 <= q < TX_RINGS ==> var r' := ReclaimSome(tx, status, n).rings[q];
      if q < n && q in status then Frees(tx.rings[q], r') else r' == tx.rings[q]
  {
    hide Inv, ReclaimOn;
    if n > 0 {
      ReclaimSomeFrees(tx, status, n - 1);
      if n - 1 in status {
        ReclaimFrees(ReclaimSome(tx, status, n - 1), n - 1);
      }
    }
  }

  /** The engine took the oldest frame that is not on the wire yet, on this ring alone. */
  ghost predicate TakesNext(r: Ring, r': Ring) {
    && r'.sent == r.sent && r'.freed == r.freed && |r.wire| <= |r.sent|
    && r'.wire == if |r.wire| < |r.sent| then r.wire + [Some(r.sent[|r.wire|])] else r.wire
  }

  lemma TransmitTakesNext(tx: Tx, q: nat)
    requires Inv(tx) && q < TX_RINGS
    ensures TakesNext(tx.rings[q], TransmitOn(tx, q).rings[q])
  {
    hide Lap;
    TransmitKeeps(tx.rings[q], tx.cbs);
  }

  lemma TransmitOnKeeps(tx: Tx, q: nat)
    requires Inv(tx) && q < TX_RINGS
    ensures Inv(TransmitOn(tx, q))
  {
    TransmitKeeps(tx.rings[q], tx.cbs);
    RingStepKeeps(tx, q, Transmit(tx.rings[q], tx.cbs), tx.cbs);
    SameSentKeepsIds(tx, TransmitOn(tx, q));
  }

  lemma InitRings()
    ensures Init() == Tx([InitRing(0, 32, 0, 32), InitRing(1, 32, 32, 64), InitRing(2, 32, 64, 96),
                          InitRing(3, 32, 96, 128), InitRing(GENET_DESC_INDEX, 128, 128, 256)],
                         seq(TOTAL_DESC, _ => None), 0)
  {}

  lemma InitRingInv(index: nat, size: nat, startPtr: nat, endPtr: nat, cbs: ControlBlocks)
    requires 1 <= size < INDEX_RANGE && startPtr + size == endPtr <= |cbs|
    requires forall i :: 0 <= i < |cbs| ==> cbs[i] == None
    ensures RingInv(InitRing(index, size, startPtr, endPtr), cbs)
  {}

  lemma InitInv()
    ensures Inv(Init())
  {
    hide RingInv;
    var tx := Init();
    forall q | 0 <= q < TX_RINGS
      ensures RingInv(tx.rings[q], tx.cbs)
    {
      if q < TX_QUEUES {
        InitRingInv(q, TX_BDS_PER_Q, q * TX_BDS_PER_Q, (q + 1) * TX_BDS_PER_Q, tx.cbs);
      } else {
        InitRingInv(GENET_DESC_INDEX, GENET_Q16_TX_BD_CNT, TX_QUEUES * TX_BDS_PER_Q, TOTAL_DESC, tx.cbs);
      }
    }
  }

  // ---------------------------------------------------------------- what the invariant means

  /** The three counts of outstanding frames agree, the write pointer is that far ahead of
      the clean pointer around the ring, and it stands on an empty descriptor. */
  ghost predicate Accounts(r: Ring, cbs: ControlBlocks) {
    var outstanding := |r.sent| - |r.freed|;
    && InRing(r, r.cleanPtr) && InRing(r, r.writePtr) && r.endPtr < |cbs|
    && r.size - r.freeBds == outstanding && 1 <= r.freeBds <= r.size
    && (r.prodIndex - r.cIndex) % INDEX_RANGE == outstanding
    && (r.writePtr - r.cleanPtr) % r.size == outstanding
    && cbs[r.writePtr] == None
  }

  lemma RingAccounts(r: Ring, cbs: ControlBlocks)
    requires RingInv(r, cbs)
    ensures Accounts(r, cbs)
  {
    hide Lap;
    LapDistance(|r.sent|, |r.freed|, INDEX_RANGE);
    LapDistance(|r.sent|, |r.freed|, r.size);
    assert r.writePtr - r.cleanPtr == Lap(|r.sent|, r.size) - Lap(|r.freed|, r.size);
    assert Slot(r.cbPtr, r.size, |r.sent|) == r.writePtr;
  }
}
