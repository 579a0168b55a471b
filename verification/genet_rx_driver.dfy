/** The receive ring as the driver keeps it: control blocks and descriptors updated in place. */
module GenetRxDriver {
  import opened Basics
  import opened Spec = GenetRxSpec
  import opened GenetRxRuns

  class Bcm54213Rx {
    const cbs: array<Option<nat>>
    const addr: array<nat>
    const status: array<Status>
    const crcFwd: bool
    var readPtr: nat
    var cIndex: nat
    var mem: map<nat, seq<uint8>>
    var nextId: nat
    var hwProd: nat
    var hwCons: nat
    var hwWrite: nat
    ghost var arrivals: seq<Arrival>
    ghost var allocs: seq<bool>
    ghost var deleted: seq<nat>
    ghost var delivered: seq<seq<uint8>>

    ghost function Value(): Rx
      reads this, cbs, addr, status
    {
      Rx(cbs[..], readPtr, cIndex, crcFwd, addr[..], status[..], mem, nextId,
         hwProd, hwCons, hwWrite, arrivals, allocs, deleted, delivered)
    }

    ghost predicate Valid()
      reads this, cbs, addr, status
    {
      cbs as object != addr && cbs as object != status && addr as object != status && Inv(Value())
    }

    /** init_rx_ring and alloc_rx_buffers, when every allocation succeeds */
    constructor (crcFwd: bool)
      ensures Valid() && Value() == Init(crcFwd)
    {
      this.crcFwd := crcFwd;
      cbs := new Option<nat>[RING_SIZE](_ => None);
      addr := new nat[RING_SIZE](_ => 0);
      status := new Status[RING_SIZE](_ => Status(false, false, false, 0));
      readPtr, cIndex, nextId := 0, 0, 0;
      mem := map[];
      hwProd, hwCons, hwWrite := 0, 0, 0;
      arrivals, allocs, deleted, delivered := [], [], [], [];
      new;
      hide Inv;
      for i := 0 to RING_SIZE
        invariant nextId == i
        invariant forall j :: 0 <= j < i ==> cbs[j] == Some(j) && addr[j] == j
        invariant status[..] == Init(crcFwd).status
        invariant readPtr == cIndex == hwProd == hwCons == hwWrite == 0 && mem == map[]
        invariant arrivals == [] && allocs == [] && deleted == [] && delivered == []
      {
        var _ := RxRefill(i, true);
      }
      InitInv(crcFwd);
      assert cbs[..] == Init(crcFwd).cbs && addr[..] == Init(crcFwd).addr;
    }

    /** rx_refill and free_rx_cb */
    method RxRefill(cb: nat, gotBuffer: bool) returns (buffer: Option<nat>)
      requires cb < cbs.Length == addr.Length && cbs as object != addr
      requires cbs as object != status && addr as object != status
      modifies this`nextId, cbs, addr
      ensures (Value(), buffer) == Refill(old(Value()), cb, gotBuffer)
    {
      if !gotBuffer {
        return None;
      }
      buffer := cbs[cb];
      cbs[cb] := Some(nextId);
      addr[cb] := nextId;
      nextId := nextId + 1;
    }

    /** The RDMA engine stores a frame, or discards it when no descriptor is free. */
    method Arrive(a: Arrival)
      requires hwWrite < addr.Length == status.Length == RING_SIZE
      requires cbs as object != addr && cbs as object != status && addr as object != status
      modifies `mem, `hwWrite, `hwProd, `arrivals, status
      ensures Value() == Spec.Arrive(old(Value()), a)
    {
      if Sane(a, crcFwd) && (hwProd - hwCons) % INDEX_RANGE < RING_SIZE {
        mem := mem[addr[hwWrite] := a.bytes];
        status[hwWrite] := a.status;
        hwWrite := Advance(hwWrite);
        hwProd := (hwProd + 1) % INDEX_RANGE;
        arrivals := arrivals + [a];
      }
    }

    /** Time passes in a call of ReceiveFrame, in which the engine stores any number of frames. */
    method Elapse(ghost call: Call, ghost buffer: Option<nat>) returns (ghost stored: seq<Arrival>)
      requires cbs as object != addr && cbs as object != status && addr as object != status
      requires !call.Outside? && SysInv(System(Value(), call)) && (buffer.Some? ==> buffer.value !in addr[..])
      modifies `mem, `hwWrite, `hwProd, `arrivals, status
      ensures Later(System(old(Value()), call), System(Value(), call), stored)
      ensures LeftAlone(old(Value()), Value(), buffer)
    {
      hide Inv, CallInv, Completed, Spec.Arrive, Sane;
      stored := [];
      LaterStarts(System(Value(), call));
      NothingMoved(System(Value(), call), buffer);
      hide LeftAlone, Later;
      var n: int := *;
      for i := 0 to Max(n, 0)
        invariant Later(System(old(Value()), call), System(Value(), call), stored)
        invariant LeftAlone(old(Value()), Value(), buffer)
      {
        var a: Arrival := *;
        ghost var s := System(Value(), call);
        LaterInv(System(old(Value()), call), s, stored);
        CompletedShape(s);
        if Sane(a, crcFwd) && (hwProd - hwCons) % INDEX_RANGE < RING_SIZE {
          LaterGoesOn(System(old(Value()), call), s, stored, a);
          AloneGoesOn(old(Value()), s, buffer, a);
          Arrive(a);
          stored := stored + [a];
        }
      }
    }

    /** Returns the frame in the buffer if it is a good one, and deletes the buffer. */
    method TakeFrame(cb: nat, buffer: Option<nat>) returns (ok: bool, frame: seq<uint8>)
      requires cb < status.Length && cbs as object != addr && cbs as object != status && addr as object != status
      requires buffer.Some? ==> buffer.value in mem && Sane(Arrival(status[cb], mem[buffer.value]), crcFwd)
      modifies `deleted, `delivered
      ensures Value() == Evaluate(old(Value()), cb, buffer)
      ensures ok <==> buffer.Some? && status[cb].sop && status[cb].eop && !status[cb].rxError
      ensures ok ==> FrameOf(frame, Arrival(status[cb], mem[buffer.value]), crcFwd)
      ensures delivered == if ok then old(delivered) + [frame] else old(delivered)
    {
      ok, frame := false, [];
      if buffer.Some? {
        var st := status[cb];
        deleted := deleted + [buffer.value];
        if st.eop && st.sop && !st.rxError {
          frame := Payload(mem[buffer.value], st.length, crcFwd);
          ok := true;
          delivered := delivered + [frame];
        }
      }
    }

    /** A frame is returned exactly when the history of delivered frames grows by it. The outcome is
        that of the call alone, followed by the frames that the engine has stored meanwhile. */
    method ReceiveFrame(gotBuffer: bool) returns (ok: bool, frame: seq<uint8>, ghost stored: seq<Arrival>)
      requires Valid()
      modifies this, cbs, addr, status
      ensures Valid() && ReceivedAndStored(old(Value()), Value(), gotBuffer, stored)
      ensures delivered == if ok then old(delivered) + [frame] else old(delivered)
      ensures allocs == if |old(allocs)| < |old(arrivals)| then old(allocs) + [gotBuffer] else old(allocs)
      ensures arrivals == old(arrivals) + stored
      ensures ok <==> |old(allocs)| < |old(arrivals)| && gotBuffer && var st := old(arrivals)[|old(allocs)|].status;
        st.sop && st.eop && !st.rxError
      ensures ok ==> var a := old(arrivals)[|old(allocs)|];
        && |frame| == a.status.length - 2 - (if crcFwd then 4 else 0) && |frame| + 2 <= |a.bytes|
        && forall i :: 0 <= i < |frame| ==> frame[i] == a.bytes[i + 2]
    {
      hide Inv, Evaluate, Sane, Consume, Receive, SysInv, Completed, Later, LeftAlone;
      ok, frame, stored := false, [], [];
      ghost var s0 := Value();
      ReadyContents(s0);
      PendingIff(s0);
      var pending := (hwProd - cIndex) % INDEX_RANGE;
      if pending == 0 {
        ReceivedNothing(s0, gotBuffer);
        return;
      }
      AfterRefill(s0, gotBuffer);
      var cb := readPtr;
      var buffer := RxRefill(cb, gotBuffer);
      ghost var s1 := System(Value(), Refilled(gotBuffer, buffer));
      ghost var first := Elapse(s1.call, buffer);
      ghost var s2 := System(Value(), s1.call);
      StillTaken(s1.rx, s2.rx, buffer, s0.arrivals[|s0.allocs|]);
      LaterInv(s1, s2, first);
      AfterLook(s2);
      ok, frame := TakeFrame(cb, buffer);
      ghost var s3 := System(Value(), Evaluated(gotBuffer));
      ghost var second := Elapse(s3.call, None);
      ghost var s4 := System(Value(), s3.call);
      stored := first + second;
      CallEnds(s0, gotBuffer, s1, s2, s3, s4, first, second);
      GiveBack(gotBuffer);
    }

    /** The descriptor goes back to the engine. */
    method GiveBack(ghost gotBuffer: bool)
      modifies `readPtr, `cIndex, `hwCons, `allocs
      ensures Value() == Consume(old(Value()), gotBuffer)
      ensures allocs == old(allocs) + [gotBuffer]
    {
      if readPtr < RING_SIZE - 1 {
        readPtr := readPtr + 1;
      } else {
        readPtr := 0;
      }
      cIndex := (cIndex + 1) % INDEX_RANGE;
      hwCons := cIndex;
      allocs := allocs + [gotBuffer];
    }
  }
}
