/**
 The receive side of the GENET driver (circle/lib/bcm54213.cpp): the engine writes frames
 through the addresses in the descriptors, the task takes a filled buffer out of the ring
 and leaves a new one in its place.
*/
module GenetRxSpec {
  import opened Basics

  const RING_SIZE := 256
  const INDEX_RANGE := 0x1_0000
  const LEADING_PAD := 2
  const ETH_FCS_LEN := 4
  const RX_BUF_LENGTH := 2048
  const ENET_MAX_MTU_SIZE := 1536
  const FRAME_BUFFER_SIZE := 1600

  /** What the engine reports about a frame: the flag and length fields of length_status */
  datatype Status = Status(sop: bool, eop: bool, rxError: bool, length: nat)

  datatype Arrival = Arrival(status: Status, bytes: seq<uint8>)

  /** Buffers are numbered in the order of their allocation. */
  datatype Rx = Rx(
    // driver
    cbs: seq<Option<nat>>, readPtr: nat, cIndex: nat, crcFwd: bool,
    // descriptors and memory
    addr: seq<nat>, status: seq<Status>, mem: map<nat, seq<uint8>>, nextId: nat,
    // RDMA engine
    hwProd: nat, hwCons: nat, hwWrite: nat,
    // history: frames from the wire, success of the allocation per consumed descriptor,
    // buffers deleted, frames returned to the caller
    arrivals: seq<Arrival>, allocs: seq<bool>, deleted: seq<nat>, delivered: seq<seq<uint8>>)

  predicate Good(st: Status) {
    st.eop && st.sop && !st.rxError
  }

  function Overhead(crcFwd: bool): nat {
    LEADING_PAD + if crcFwd then ETH_FCS_LEN else 0
  }

  function Payload(bytes: seq<uint8>, length: int, crcFwd: bool): seq<uint8>
    requires Overhead(crcFwd) <= length <= |bytes|
  {
    bytes[LEADING_PAD..length - Overhead(crcFwd) + LEADING_PAD]
  }

  /** The engine fills at most one buffer. A frame without error has a body and is not longer than the
      maximum frame length that init_umac programs, plus the bytes the hardware adds in front. */
  predicate Sane(a: Arrival, crcFwd: bool) {
    && |a.bytes| == a.status.length <= RX_BUF_LENGTH
    && (Good(a.status) ==> Overhead(crcFwd) < a.status.length <= ENET_MAX_MTU_SIZE + LEADING_PAD)
  }

  /** The frames a caller must see: of the first n arrivals those which are complete, free of
      errors, and met a successful allocation, in the order of their arrival. */
  function Expected(arrivals: seq<Arrival>, allocs: seq<bool>, crcFwd: bool): seq<seq<uint8>>
    requires |allocs| <= |arrivals|
    requires forall a :: a in arrivals ==> Sane(a, crcFwd)
    decreases |allocs|
  {
    if allocs == [] then []
    else
      var n := |allocs| - 1;
      var a := arrivals[n];
      assert a in arrivals;
      Expected(arrivals, allocs[..n], crcFwd)
        + if allocs[n] && Good(a.status) then [Payload(a.bytes, a.status.length, crcFwd)] else []
  }

  /** The frame without the two bytes in front of it, and without the checksum if that is forwarded */
  ghost predicate FrameOf(frame: seq<uint8>, a: Arrival, crcFwd: bool) {
    && |frame| == a.status.length - 2 - (if crcFwd then 4 else 0)
    && |frame| + 2 <= |a.bytes|
    && forall i :: 0 <= i < |frame| ==> frame[i] == a.bytes[i + 2]
  }

  /** The arrival is for the caller: complete, free of errors, and a new buffer could be allocated. */
  ghost predicate ForCaller(a: Arrival, gotBuffer: bool) {
    gotBuffer && a.status.sop && a.status.eop && !a.status.rxError
  }

  lemma PayloadIsFrame(a: Arrival, crcFwd: bool)
    requires Sane(a, crcFwd) && Good(a.status)
    ensures FrameOf(Payload(a.bytes, a.status.length, crcFwd), a, crcFwd)
  {}

  /** The frames at the positions, in this order, which are all those for the caller */
  ghost predicate InOrder(frames: seq<seq<uint8>>, at: seq<nat>, arrivals: seq<Arrival>, allocs: seq<bool>,
                          crcFwd: bool)
    requires |allocs| <= |arrivals|
  {
    && |at| == |frames|
    && (forall k :: 0 <= k < |at| ==> at[k] < |allocs| && ForCaller(arrivals[at[k]], allocs[at[k]]))
    && (forall j, k :: 0 <= j < k < |at| ==> at[j] < at[k])
    && (forall i :: 0 <= i < |allocs| && ForCaller(arrivals[i], allocs[i]) ==> i in at)
    && (forall k :: 0 <= k < |at| ==> FrameOf(frames[k], arrivals[at[k]], crcFwd))
  }

  lemma OneMoreInOrder(frames: seq<seq<uint8>>, at: seq<nat>, arrivals: seq<Arrival>, allocs: seq<bool>,
                       crcFwd: bool, frame: seq<uint8>)
    requires 0 < |allocs| <= |arrivals| && InOrder(frames, at, arrivals, allocs[..|allocs| - 1], crcFwd)
    requires ForCaller(arrivals[|allocs| - 1], allocs[|allocs| - 1]) && FrameOf(frame, arrivals[|allocs| - 1], crcFwd)
    ensures InOrder(frames + [frame], at + [|allocs| - 1], arrivals, allocs, crcFwd)
  {
    hide FrameOf, ForCaller;
    var n, at' := |allocs| - 1, at + [|allocs| - 1];
    assert at'[|at|] == n;
    forall i | 0 <= i < |allocs| && ForCaller(arrivals[i], allocs[i])
      ensures i in at'
    {
      if i < n {
        assert allocs[..n][i] == allocs[i];
      }
    }
  }

  lemma SameInOrder(frames: seq<seq<uint8>>, at: seq<nat>, arrivals: seq<Arrival>, allocs: seq<bool>, crcFwd: bool)
    requires 0 < |allocs| <= |arrivals| && InOrder(frames, at, arrivals, allocs[..|allocs| - 1], crcFwd)
    requires !ForCaller(arrivals[|allocs| - 1], allocs[|allocs| - 1])
    ensures InOrder(frames, at, arrivals, allocs, crcFwd)
  {
    hide FrameOf, ForCaller;
    forall i | 0 <= i < |allocs| && ForCaller(arrivals[i], allocs[i])
      ensures i in at
    {
      assert allocs[..|allocs| - 1][i] == allocs[i];
    }
  }

  /** The expected frames are the bodies of exactly the arrivals for the caller, in their order. */
  lemma {:induction false} ExpectedInOrder(arrivals: seq<Arrival>, allocs: seq<bool>, crcFwd: bool)
    returns (at: seq<nat>)
    requires |allocs| <= |arrivals| && forall a :: a in arrivals ==> Sane(a, crcFwd)
    ensures InOrder(Expected(arrivals, allocs, crcFwd), at, arrivals, allocs, crcFwd)
    decreases |allocs|
  {
    at := [];
    if allocs != [] {
      hide FrameOf, Payload, InOrder;
      var n := |allocs| - 1;
      at := ExpectedInOrder(arrivals, allocs[..n], crcFwd);
      var a := arrivals[n];
      assert a in arrivals;
      if ForCaller(a, allocs[n]) {
        PayloadIsFrame(a, crcFwd);
        OneMoreInOrder(Expected(arrivals, allocs[..n], crcFwd), at, arrivals, allocs, crcFwd,
                       Payload(a.bytes, a.status.length, crcFwd));
        at := at + [n];
      } else {
        SameInOrder(Expected(arrivals, allocs[..n], crcFwd), at, arrivals, allocs, crcFwd);
      }
    }
  }

  // ---------------------------------------------------------------- invariant

  ghost predicate Pointers(s: Rx) {
    && |s.cbs| == |s.addr| == |s.status| == RING_SIZE
    && |s.allocs| <= |s.arrivals| <= |s.allocs| + RING_SIZE
    && s.readPtr == Lap(|s.allocs|, RING_SIZE)
    && s.hwWrite == Lap(|s.arrivals|, RING_SIZE)
    && s.cIndex == s.hwCons == Lap(|s.allocs|, INDEX_RANGE)
    && s.hwProd == Lap(|s.arrivals|, INDEX_RANGE)
  }

  /** Every descriptor owns one buffer, no buffer has two owners, and the allocated buffers
      are those in the ring and those deleted, each of these deleted once. */
  ghost predicate Ownership(s: Rx)
    requires |s.cbs| == |s.addr| == RING_SIZE
  {
    && (forall i :: 0 <= i < RING_SIZE ==> s.cbs[i] == Some(s.addr[i]))
    && (forall i :: 0 <= i < RING_SIZE ==> s.addr[i] < s.nextId && s.addr[i] !in s.deleted)
    && (forall i, j :: 0 <= i < j < RING_SIZE ==> s.addr[i] != s.addr[j])
    && (forall i :: 0 <= i < |s.deleted| ==> s.deleted[i] < s.nextId)
    && (forall i, j :: 0 <= i < j < |s.deleted| ==> s.deleted[i] != s.deleted[j])
    && s.nextId == RING_SIZE + |s.deleted|
  }

  /** A produced frame that was not consumed yet is intact in the buffer of its descriptor. */
  ghost predicate Contents(s: Rx)
    requires |s.addr| == |s.status| == RING_SIZE
  {
    && (forall k :: |s.allocs| <= k < |s.arrivals| ==>
          && s.status[Lap(k, RING_SIZE)] == s.arrivals[k].status
          && s.addr[Lap(k, RING_SIZE)] in s.mem
          && s.mem[s.addr[Lap(k, RING_SIZE)]] == s.arrivals[k].bytes)
    && (forall a :: a in s.arrivals ==> Sane(a, s.crcFwd))
  }

  ghost predicate Inv(s: Rx) {
    && Pointers(s)
    && Ownership(s)
    && Contents(s)
    && s.delivered == Expected(s.arrivals, s.allocs, s.crcFwd)
  }

  // ---------------------------------------------------------------- steps

  function Advance(p: nat): nat {
    if p < RING_SIZE - 1 then p + 1 else 0
  }

  /** init_rx_ring after all buffers could be allocated */
  function Init(crcFwd: bool): Rx {
    Rx(seq(RING_SIZE, i requires i >= 0 => Some(i)), 0, 0, crcFwd,
       seq(RING_SIZE, i requires i >= 0 => i), seq(RING_SIZE, _ => Status(false, false, false, 0)),
       map[], RING_SIZE, 0, 0, 0, [], [], [], [])
  }

  /** The engine stores a frame; without a free descriptor it discards it. */
  function Arrive(s: Rx, a: Arrival): Rx
    requires s.hwWrite < |s.addr| == |s.status|
  {
    if !Sane(a, s.crcFwd) || (s.hwProd - s.hwCons) % INDEX_RANGE >= RING_SIZE then s
    else s.(mem := s.mem[s.addr[s.hwWrite] := a.bytes], status := s.status[s.hwWrite := a.status],
            hwWrite := Advance(s.hwWrite), hwProd := (s.hwProd + 1) % INDEX_RANGE,
            arrivals := s.arrivals + [a])
  }

  /** rx_refill: a new buffer for the control block, the previous one for the caller */
  function Refill(s: Rx, cb: nat, gotBuffer: bool): (Rx, Option<nat>)
    requires cb < |s.cbs| == |s.addr|
  {
    if !gotBuffer then (s, None)
    else
      (s.(cbs := s.cbs[cb := Some(s.nextId)], addr := s.addr[cb := s.nextId], nextId := s.nextId + 1),
       s.cbs[cb])
  }

  /** The part of ReceiveFrame between refill and index update */
  function Evaluate(s: Rx, cb: nat, buffer: Option<nat>): Rx
    requires cb < |s.status|
  {
    if buffer.None? then s
    else
      var st := s.status[cb];
      var s1 := s.(deleted := s.deleted + [buffer.value]);
      if Good(st) && buffer.value in s.mem && Overhead(s.crcFwd) <= st.length <= |s.mem[buffer.value]|
      then s1.(delivered := s.delivered + [Payload(s.mem[buffer.value], st.length, s.crcFwd)])
      else s1
  }

  /** The end of ReceiveFrame: the descriptor is given back to the engine. */
  function Consume(s: Rx, gotBuffer: bool): Rx {
    var c := (s.cIndex + 1) % INDEX_RANGE;
    s.(readPtr := Advance(s.readPtr), cIndex := c, hwCons := c, allocs := s.allocs + [gotBuffer])
  }

  /** ReceiveFrame; the outcome of operator new is a parameter. */
  function Receive(s: Rx, gotBuffer: bool): Rx
    requires s.readPtr < |s.cbs| == |s.addr| == |s.status|
  {
    if (s.hwProd - s.cIndex) % INDEX_RANGE == 0 then s
    else
      var (s1, buffer) := Refill(s, s.readPtr, gotBuffer);
      Consume(Evaluate(s1, s.readPtr, buffer), gotBuffer)
  }

  // ---------------------------------------------------------------- what the steps keep

  lemma {:induction false} ExpectedGrows(arrivals: seq<Arrival>, allocs: seq<bool>, a: Arrival, crcFwd: bool)
    requires |allocs| <= |arrivals|
    requires forall b :: b in arrivals + [a] ==> Sane(b, crcFwd)
    ensures Expected(arrivals + [a], allocs, crcFwd) == Expected(arrivals, allocs, crcFwd)
    decreases |allocs|
  {
    if allocs != [] {
      ExpectedGrows(arrivals, allocs[..|allocs| - 1], a, crcFwd);
    }
  }

  lemma LapNeverReturns(from: nat, n: nat)
    requires n > 0
    ensures forall k :: from < k < from + n ==> Lap(k, n) != Lap(from, n)
  {
    hide Lap;
    forall k | from < k < from + n
      ensures Lap(k, n) != Lap(from, n)
    {
      LapDistinct(from, k, n);
    }
  }

  /** The engine stores a frame exactly when a descriptor is free, and never overwrites one
      that was not consumed. */
  lemma ArriveKeeps(s: Rx, a: Arrival)
    requires Inv(s)
    ensures Inv(Arrive(s, a))
    ensures Arrive(s, a).arrivals ==
      if Sane(a, s.crcFwd) && |s.arrivals| - |s.allocs| < RING_SIZE then s.arrivals + [a] else s.arrivals
  {
    hide Lap;
    var n, c := |s.arrivals|, |s.allocs|;
    LapDistance(n, c, INDEX_RANGE);
    if Sane(a, s.crcFwd) && n - c < RING_SIZE {
      ExpectedGrows(s.arrivals, s.allocs, a, s.crcFwd);
      ArriveKeepsContents(s, a);
      ArriveKeepsPointers(s, a);
      hide Contents, Expected, Pointers;
    }
  }

  lemma ArriveKeepsPointers(s: Rx, a: Arrival)
    requires Pointers(s) && |s.arrivals| - |s.allocs| < RING_SIZE
    ensures Pointers(Arrive(s, a))
  {
    hide Lap;
    LapNext(|s.arrivals|, INDEX_RANGE);
    LapNext(|s.arrivals|, RING_SIZE);
  }

  lemma ArriveKeepsContents(s: Rx, a: Arrival)
    requires Pointers(s) && Ownership(s) && Contents(s)
    requires Sane(a, s.crcFwd) && |s.arrivals| - |s.allocs| < RING_SIZE
    requires (s.hwProd - s.hwCons) % INDEX_RANGE < RING_SIZE
    ensures var s' := Arrive(s, a); |s'.addr| == |s'.status| == RING_SIZE && Contents(s')
  {
    hide Lap;
    var n := |s.arrivals|;
    forall k | |s.allocs| <= k < n
      ensures Lap(k, RING_SIZE) != Lap(n, RING_SIZE)
    {
      LapDistinct(k, n, RING_SIZE);
    }
  }

  lemma RefillKeepsOwnership(s: Rx, cb: nat)
    requires cb < RING_SIZE == |s.cbs| == |s.addr| == |s.status| && Ownership(s)
    ensures var (s1, buffer) := Refill(s, cb, true);
      buffer == Some(s.addr[cb]) && Ownership(Evaluate(s1, cb, buffer))
  {}

  /** A pending frame is consumed by each call, whatever happens to it: it is delivered if it
      is good and a new buffer could be allocated, and its descriptor owns a buffer again. */
  lemma ReceiveKeeps(s: Rx, gotBuffer: bool)
    requires Inv(s)
    ensures var s' := Receive(s, gotBuffer);
      && Inv(s')
      && s'.allocs == (if |s.allocs| < |s.arrivals| then s.allocs + [gotBuffer] else s.allocs)
      && s'.arrivals == s.arrivals && s'.crcFwd == s.crcFwd
  {
    hide Lap, Ownership, Contents, Expected;
    var n, c := |s.arrivals|, |s.allocs|;
    LapDistance(n, c, INDEX_RANGE);
    if c < n {
      LapNext(c, INDEX_RANGE);
      LapNext(c, RING_SIZE);
      OwnershipStep(s, gotBuffer);
      ContentsStep(s, gotBuffer);
    }
  }

  lemma ContentsStep(s: Rx, gotBuffer: bool)
    requires Inv(s) && |s.allocs| < |s.arrivals| && (s.hwProd - s.cIndex) % INDEX_RANGE != 0
    ensures var s' := Receive(s, gotBuffer);
      && |s'.addr| == |s'.status| == RING_SIZE && Contents(s')
      && |s'.allocs| <= |s'.arrivals|
      && s'.delivered == Expected(s'.arrivals, s'.allocs, s'.crcFwd)
  {
    OtherContents(s, gotBuffer);
    DeliveredStep(s, gotBuffer);
    hide Inv, Receive, Contents;
  }

  lemma OtherContents(s: Rx, gotBuffer: bool)
    requires Inv(s) && |s.allocs| < |s.arrivals| && (s.hwProd - s.cIndex) % INDEX_RANGE != 0
    ensures var s' := Receive(s, gotBuffer);
      && |s'.addr| == |s'.status| == RING_SIZE && Contents(s')
      && s'.arrivals == s.arrivals && s'.crcFwd == s.crcFwd && s'.allocs == s.allocs + [gotBuffer]
  {
    hide Lap, Expected, Payload;
    OwnershipStep(s, gotBuffer);
    hide Ownership;
    LapNeverReturns(|s.allocs|, RING_SIZE);
  }

  lemma DeliveredStep(s: Rx, gotBuffer: bool)
    requires Inv(s) && |s.allocs| < |s.arrivals| && (s.hwProd - s.cIndex) % INDEX_RANGE != 0
    requires |s.addr| == |s.status| == RING_SIZE == |s.cbs| && s.readPtr < RING_SIZE
    ensures var s' := Receive(s, gotBuffer);
      s'.delivered == Expected(s.arrivals, s.allocs + [gotBuffer], s.crcFwd)
  {
    hide Lap;
    var c := |s.allocs|;
    OwnershipStep(s, gotBuffer);
    hide Ownership;
    assert s.arrivals[c] in s.arrivals && s.addr[s.readPtr] == s.addr[Lap(c, RING_SIZE)];
    assert (s.allocs + [gotBuffer])[..c] == s.allocs;
  }

  /** What the assertions in ReceiveFrame ask for */
  lemma ReadyContents(s: Rx)
    requires Inv(s)
    ensures s.readPtr < RING_SIZE == |s.cbs| == |s.addr| == |s.status|
    ensures s.cbs[s.readPtr] == Some(s.addr[s.readPtr])
    ensures (s.hwProd - s.cIndex) % INDEX_RANGE != 0 ==>
              && s.addr[s.readPtr] in s.mem
              && |s.mem[s.addr[s.readPtr]]| == s.status[s.readPtr].length
              && (Good(s.status[s.readPtr]) ==>
                    0 < s.status[s.readPtr].length - Overhead(s.crcFwd) <= FRAME_BUFFER_SIZE)
  {
    hide Lap, Expected;
    var n, c := |s.arrivals|, |s.allocs|;
    LapDistance(n, c, INDEX_RANGE);
    if c < n {
      assert s.addr[s.readPtr] == s.addr[Lap(c, RING_SIZE)];
      assert s.arrivals[c] in s.arrivals;
    }
  }

  lemma OwnershipStep(s: Rx, gotBuffer: bool)
    requires Pointers(s) && Ownership(s)
    ensures s.addr[s.readPtr] != s.nextId && s.cbs[s.readPtr] == Some(s.addr[s.readPtr])
    ensures var s' := Receive(s, gotBuffer); |s'.cbs| == |s'.addr| == RING_SIZE && Ownership(s')
  {
    hide Lap;
    if gotBuffer {
      RefillKeepsOwnership(s, s.readPtr);
    }
  }

  lemma InitInv(crcFwd: bool)
    ensures Inv(Init(crcFwd))
  {}

  // ---------------------------------------------------------------- what the invariant means

  /** The pointer and the indices of the driver follow the count of consumed descriptors. */
  ghost predicate IndicesFollow(s: Rx) {
    && (s.hwProd - s.cIndex) % INDEX_RANGE == |s.arrivals| - |s.allocs| <= RING_SIZE
    && s.readPtr == |s.allocs| % RING_SIZE == s.cIndex % RING_SIZE
    && s.cIndex == |s.allocs| % INDEX_RANGE
  }

  lemma Accounts(s: Rx)
    requires Inv(s)
    ensures IndicesFollow(s)
  {
    hide Lap, Contents, Ownership, Expected;
    var c := |s.allocs|;
    LapDistance(|s.arrivals|, c, INDEX_RANGE);
    LapIsModulo(c, INDEX_RANGE);
    LapIsModulo(c, RING_SIZE);
    NestedModulo(c);
  }

  lemma NestedModulo(c: nat)
    ensures c % INDEX_RANGE % RING_SIZE == c % RING_SIZE
  {
    var q, r := c / INDEX_RANGE, c % INDEX_RANGE;
    DivModUnique(c, q * 256 + r / RING_SIZE, r % RING_SIZE, RING_SIZE);
  }
}
