/** The driver objects themselves: ring structures and control blocks updated in place. */
module GenetTxDriver {
  import opened Basics
  import opened Spec = GenetTxSpec

  /** struct TGEnetTxRing, and the registers of the TDMA engine for this ring */
  class TxRing {
    var index: nat
    var size: nat
    var cbPtr: nat
    var endPtr: nat
    var writePtr: nat
    var cleanPtr: nat
    var freeBds: nat
    var prodIndex: nat
    var cIndex: nat

    var hwProd: nat
    var hwCons: nat
    var hwRead: nat

    ghost var sent: seq<Frame>
    ghost var wire: seq<Option<Frame>>
    ghost var freed: seq<Frame>

    ghost function Value(): Ring
      reads this
    {
      Ring(index, size, cbPtr, endPtr, writePtr, cleanPtr, freeBds, prodIndex, cIndex,
           hwProd, hwCons, hwRead, sent, wire, freed)
    }

    /** init_tx_ring */
    constructor (index: nat, size: nat, startPtr: nat, endPtr: nat)
      requires endPtr > 0
      ensures Value() == InitRing(index, size, startPtr, endPtr)
      ensures cbPtr == writePtr == startPtr && this.endPtr == endPtr - 1 && freeBds == size
    {
      this.index := index;
      this.size := size;
      cleanPtr := startPtr;
      cIndex := 0;
      freeBds := size;
      writePtr := startPtr;
      cbPtr := startPtr;
      this.endPtr := endPtr - 1;
      prodIndex := 0;
      hwProd, hwCons, hwRead := 0, 0, startPtr;
      sent, wire, freed := [], [], [];
    }

    /** get_txcb: the position of the control block in m_tx_cbs */
    method GetTxcb() returns (cb: nat)
      requires cbPtr <= writePtr <= endPtr
      modifies this`writePtr
      ensures cb == old(writePtr) && writePtr == Advance(old(Value()), cb)
    {
      cb := cbPtr + (writePtr - cbPtr);
      if writePtr == endPtr {
        writePtr := cbPtr;
      } else {
        writePtr := writePtr + 1;
      }
    }

    /** SendFrame from get_txcb on */
    method Queue(cbs: array<Option<Frame>>, buffer: Frame)
      requires cbPtr <= writePtr <= endPtr < cbs.Length && freeBds >= 2
      modifies this, cbs
      ensures (Value(), cbs[..]) == Send(old(Value()), old(cbs[..]), buffer)
    {
      var cb := GetTxcb();
      cbs[cb] := Some(buffer);
      freeBds := freeBds - 1;
      prodIndex := (prodIndex + 1) % INDEX_RANGE;
      sent := sent + [buffer];
      hwProd := prodIndex;
    }

    /** The engine processes one descriptor. */
    method Step(cbs: array<Option<Frame>>)
      requires hwRead < cbs.Length
      modifies this
      ensures Value() == Transmit(old(Value()), cbs[..])
    {
      if hwCons != hwProd {
        wire := wire + [cbs[hwRead]];
        hwCons := (hwCons + 1) % INDEX_RANGE;
        hwRead := if hwRead >= endPtr then cbPtr else hwRead + 1;
      }
    }

    /** free_tx_cb and the update of the clean pointer */
    method CleanOne(cbs: array<Option<Frame>>)
      requires cleanPtr < cbs.Length
      modifies this`freed, this`cleanPtr, cbs
      ensures (Value(), cbs[..]) == FreeOne(old(Value()), old(cbs[..]))
    {
      var buffer := cbs[cleanPtr];
      if buffer.Some? {
        cbs[cleanPtr] := None;
        freed := freed + [buffer.value];
      }
      assert cbs[..] == old(cbs[..])[cleanPtr := None];
      if cleanPtr < endPtr {
        cleanPtr := cleanPtr + 1;
      } else {
        cleanPtr := cbPtr;
      }
    }

    /** tx_reclaim */
    method TxReclaim(cbs: array<Option<Frame>>) returns (processed: nat)
      requires cbPtr <= endPtr < cbs.Length && cleanPtr <= endPtr
      modifies this, cbs
      ensures (Value(), cbs[..]) == Reclaim(old(Value()), old(cbs[..]))
      ensures processed == Ready(old(Value()))
    {
      ghost var r, blocks := Value(), cbs[..];
      var consumed := hwCons;
      var ready := (consumed - cIndex) % INDEX_RANGE;
      processed := 0;
      while processed < ready
        invariant 0 <= processed <= ready
        invariant (Value(), cbs[..]) == FreeMany(r, blocks, processed)
        invariant hwCons == consumed
      {
        CleanOne(cbs);
        processed := processed + 1;
        assert FreeMany(r, blocks, processed) ==
          FreeOne(FreeMany(r, blocks, processed - 1).0, FreeMany(r, blocks, processed - 1).1);
      }
      freeBds := freeBds + processed;
      cIndex := consumed;
    }
  }

  class Bcm54213Tx {
    const rings: seq<TxRing>
    const cbs: array<Option<Frame>>
    var nextId: nat

    ghost function Value(): Tx
      reads this, rings, cbs
    {
      Tx(seq(|rings|, i requires 0 <= i < |rings| reads rings => rings[i].Value()), cbs[..], nextId)
    }

    ghost predicate Distinct() {
      && |rings| == TX_RINGS
      && forall q, p :: 0 <= q < p < TX_RINGS ==> rings[q] != rings[p]
    }

    ghost predicate Valid()
      reads this, rings, cbs
    {
      Distinct() && Inv(Value())
    }

    /** init_dma and init_tx_queues */
    constructor ()
      ensures Valid() && Value() == Init()
      ensures forall q :: 0 <= q < 4 ==>
        rings[q].cbPtr == rings[q].writePtr == 32 * q && rings[q].endPtr == 32 * q + 31 && rings[q].freeBds == 32
      ensures rings[4].cbPtr == rings[4].writePtr == 128 && rings[4].endPtr == 255 && rings[4].freeBds == 128
    {
      hide Inv, Init, InitRing, RingsUnchangedBut;
      cbs := new Option<Frame>[TOTAL_DESC](_ => None);
      var q0 := new TxRing(0, TX_BDS_PER_Q, 0, TX_BDS_PER_Q);
      var q1 := new TxRing(1, TX_BDS_PER_Q, TX_BDS_PER_Q, 2 * TX_BDS_PER_Q);
      var q2 := new TxRing(2, TX_BDS_PER_Q, 2 * TX_BDS_PER_Q, 3 * TX_BDS_PER_Q);
      var q3 := new TxRing(3, TX_BDS_PER_Q, 3 * TX_BDS_PER_Q, 4 * TX_BDS_PER_Q);
      var q16 := new TxRing(GENET_DESC_INDEX, GENET_Q16_TX_BD_CNT, TX_QUEUES * TX_BDS_PER_Q, TOTAL_DESC);
      rings := [q0, q1, q2, q3, q16];
      nextId := 0;
      new;
      InitInv();
      InitRings();
      assert cbs[..] == seq(TOTAL_DESC, _ => None);
      ValueOfFive();
    }

    lemma ValueOfFive()
      requires |rings| == TX_RINGS
      ensures Value() == Tx([rings[0].Value(), rings[1].Value(), rings[2].Value(), rings[3].Value(),
                             rings[4].Value()], cbs[..], nextId)
    {}

    ghost predicate RingsUnchangedBut(q: nat, before: seq<Ring>)
      reads rings
    {
      && |before| == |rings| && q < |rings|
      && forall p :: 0 <= p < |rings| && p != q ==> rings[p].Value() == before[p]
    }

    /** A step on one ring, seen from the whole device */
    lemma OneRing(q: nat, before: Tx)
      requires RingsUnchangedBut(q, before.rings)
      ensures Value() == WithRing(before, q, (rings[q].Value(), cbs[..])).(nextId := nextId)
    {}

    /** Allocates and fills a DMA buffer. The copy stays inside of it only for data that fit. */
    method FillBuffer(data: seq<uint8>) returns (buffer: array<uint8>, length: nat)
      requires FitsBuffer(data)
      ensures fresh(buffer) && length <= buffer.Length == ENET_MAX_MTU_SIZE && buffer[..length] == Pad(data)
    {
      buffer := new uint8[ENET_MAX_MTU_SIZE];
      for i := 0 to |data|
        invariant buffer[..i] == data[..i]
      {
        buffer[i] := data[i];
      }
      length := |data|;
      if length < ETH_ZLEN {
        for i := length to ETH_ZLEN
          invariant buffer[..length] == data
          invariant forall k :: length <= k < i ==> buffer[k] == 0
        {
          buffer[i] := 0;
        }
        length := ETH_ZLEN;
      }
      assert buffer[..length] == Pad(data);
    }

    method SendFrame(queue: nat, data: seq<uint8>) returns (ok: bool)
      requires Valid() && queue < TX_RINGS && FitsBuffer(data)
      modifies this`nextId, rings[queue], cbs
      ensures Valid() && Value() == SendOn(old(Value()), queue, data)
      ensures ok <==> |old(rings[queue].sent)| - |old(rings[queue].freed)| <= rings[queue].size - 2
      ensures ok ==> exists f: Frame ::
        && rings[queue].sent == old(rings[queue].sent) + [f]
        && |f.bytes| == Max(|data|, 60) && f.bytes[..|data|] == data
        && (forall i :: |data| <= i < |f.bytes| ==> f.bytes[i] == 0)
        && cbs[..] == old(cbs[..])[old(rings[queue].writePtr) := Some(f)]
      ensures ok ==> rings[queue].wire == old(rings[queue].wire) && rings[queue].freed == old(rings[queue].freed)
      ensures !ok ==> Value() == old(Value())
      ensures forall p :: 0 <= p < TX_RINGS && p != queue ==> rings[p].Value() == old(rings[p].Value())
    {
      hide Inv, RingInv;
      ghost var before := Value();
      var ring := rings[queue];
      assert ring.Value() == before.rings[queue];
      RingShape(before, queue);
      SendOnKeeps(before, queue, data);
      RingRoom(before.rings[queue], before.cbs);
      ok := ring.freeBds >= 2;
      if ok {
        var dma, length := FillBuffer(data);
        var buffer := Frame(nextId, dma[..length]);
        nextId := nextId + 1;
        ring.Queue(cbs, buffer);
        OneRing(queue, before);
      }
    }

    method Transmitted(queue: nat)
      requires Valid() && queue < TX_RINGS
      modifies rings[queue]
      ensures Valid() && Value() == TransmitOn(old(Value()), queue)
      ensures TakesNext(old(rings[queue].Value()), rings[queue].Value())
    {
      hide Inv, RingInv;
      ghost var before := Value();
      var ring := rings[queue];
      assert ring.Value() == before.rings[queue];
      RingShape(before, queue);
      TransmitOnKeeps(before, queue);
      TransmitTakesNext(before, queue);
      ring.Step(cbs);
      OneRing(queue, before);
    }

    method TxReclaim(queue: nat) returns (processed: nat)
      requires Valid() && queue < TX_RINGS
      modifies rings[queue], cbs
      ensures Valid() && Value() == ReclaimOn(old(Value()), queue)
      ensures processed == |rings[queue].freed| - |old(rings[queue].freed)|
      ensures Frees(old(rings[queue].Value()), rings[queue].Value())
      ensures forall p :: 0 <= p < TX_RINGS && p != queue ==> rings[p].Value() == old(rings[p].Value())
    {
      hide Inv, RingInv;
      ghost var before := Value();
      var ring := rings[queue];
      ghost var r := ring.Value();
      assert r == before.rings[queue];
      RingShape(before, queue);
      ReclaimOnKeeps(before, queue);
      ReclaimFrees(before, queue);
      processed := ring.TxReclaim(cbs);
      OneRing(queue, before);
      assert processed == |ring.freed| - |r.freed| by {
        ReclaimedCount(r, before.cbs);
      }
    }

    method InterruptHandler0(txDone: bool)
      requires Valid()
      modifies rings, cbs
      ensures Valid()
      ensures Value() == if txDone then ReclaimOn(old(Value()), TX_QUEUES) else old(Value())
      ensures forall q :: 0 <= q < TX_RINGS ==>
        if txDone && q == 4 then Frees(old(rings[q].Value()), rings[q].Value())
        else rings[q].Value() == old(rings[q].Value())
    {
      hide Inv;
      if txDone {
        var _ := TxReclaim(TX_QUEUES);
      }
    }

    method InterruptHandler1(status: set<nat>)
      requires Valid()
      modifies rings, cbs
      ensures Valid()
      ensures Value() == ReclaimSome(old(Value()), status, TX_QUEUES)
      ensures forall q :: 0 <= q < TX_RINGS ==>
        if q < 4 && q in status then Frees(old(rings[q].Value()), rings[q].Value())
        else rings[q].Value() == old(rings[q].Value())
    {
      hide Inv, Frees, TxRing.Value;
      var index := 0;
      while index < TX_QUEUES
        invariant 0 <= index <= TX_QUEUES
        invariant Valid() && Value() == ReclaimSome(old(Value()), status, index)
      {
        if index in status {
          var _ := TxReclaim(index);
        }
        index := index + 1;
      }
      ReclaimSomeFrees(old(Value()), status, TX_QUEUES);
      assert forall q :: 0 <= q < TX_RINGS ==> old(Value()).rings[q] == old(rings[q].Value());
      assert forall q :: 0 <= q < TX_RINGS ==> Value().rings[q] == rings[q].Value();
    }
  }
}
