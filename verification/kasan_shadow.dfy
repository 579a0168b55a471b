/** The shadow memory in place, and the check of an access, as circle/lib/kasan.cpp does them. */
module KasanShadow {
  import opened Basics
  import opened KasanSpec

  /** The shadow bytes of an area have the value, all others are the old ones. */
  ghost predicate FilledBytes(s: Shadow, s': Shadow, address: nat, size: nat, value: uint8) {
    |s'| == |s| && forall g :: 0 <= g < |s| ==> s'[g] == if address <= 8 * g < address + size then value else s[g]
  }

  class ShadowMemory {
    const start: nat               // MEM_SHADOW_START
    const headRedzone: nat         // HEAP_BLOCK_ALIGN
    const shadow: array<uint8>
    var headers: map<nat, uint32>  // aligned_size of each KASAN_HEAP_HEADER, by its address

    constructor (start: nat, headRedzone: nat, granules: nat)
      requires start > 0 && headRedzone % GRANULE == 0
      ensures Valid() && this.start == start && this.headRedzone == headRedzone
      ensures fresh(shadow) && shadow.Length == granules && headers == map[]
    {
      this.start := start;
      this.headRedzone := headRedzone;
      shadow := new uint8[granules](_ => 0);
      headers := map[];
    }

    ghost predicate Valid()
      reads this, shadow
    {
      start > 0 && headRedzone % GRANULE == 0 && ValidShadow(shadow[..])
    }

    /** Both address and size are multiples of the granule. */
    method PoisonShadow(address: nat, size: nat, value: uint8)
      requires address % GRANULE == 0 && size % GRANULE == 0 && 0 < address + size <= shadow.Length * GRANULE
      modifies shadow
      ensures shadow[..] == Poison(old(shadow[..]), address, size, value)
      ensures FilledBytes(old(shadow[..]), shadow[..], address, size, value)
    {
      var first := address / GRANULE;
      var end := (address + size - 1) / GRANULE + 1;
      var i := first;
      while i < end
        invariant first <= i <= end == (address + size) / GRANULE
        invariant shadow[..] == Fill(old(shadow[..]), first, i, value)
      {
        shadow[i] := value;
        i := i + 1;
      }
    }

    method UnpoisonShadow(address: nat, size: nat)
      requires address % GRANULE == 0 && address + size <= shadow.Length * GRANULE
      requires address > 0 || size >= GRANULE
      modifies shadow
      ensures shadow[..] == Unpoison(old(shadow[..]), address, size)
      ensures OpenBytes(old(shadow[..]), shadow[..], address, size)
    {
      UnpoisonBytes(shadow[..], address, size);
      hide OpenBytes, FilledBytes;
      PoisonShadow(address, size - size % GRANULE, 0);
      if size % GRANULE != 0 {
        shadow[(address + size) / GRANULE] := size % GRANULE;
      }
    }

    method AnnotateRangeTransition(oldAddr: nat, newAddr: nat)
      requires oldAddr <= shadow.Length * GRANULE && newAddr <= shadow.Length * GRANULE
      requires newAddr > oldAddr ==> newAddr >= GRANULE
      modifies shadow
      ensures shadow[..] == Transition(old(shadow[..]), oldAddr, newAddr)
      ensures MovedBytes(old(shadow[..]), shadow[..], oldAddr, newAddr)
    {
      TransitionBytes(shadow[..], oldAddr, newAddr);
      hide Poison, Unpoison, MovedBytes, OpenBytes;
      if newAddr > oldAddr {
        var alignedStart := oldAddr - oldAddr % GRANULE;
        UnpoisonShadow(alignedStart, newAddr - alignedStart);
      } else if newAddr < oldAddr {
        ShrinkRange(oldAddr, newAddr);
      }
    }

    /** The region shrank. */
    method ShrinkRange(oldAddr: nat, newAddr: nat)
      requires newAddr < oldAddr <= shadow.Length * GRANULE
      modifies shadow
      ensures shadow[..] == Shrink(old(shadow[..]), oldAddr, newAddr)
    {
      hide RoundUp, Poison, FilledBytes;
      ShrinkBounds(oldAddr, newAddr, shadow.Length);
      var newPartial := newAddr % GRANULE;
      if newPartial != 0 {
        shadow[newAddr / GRANULE] := newPartial;
      }
      var newAlignedNext := RoundUp(newAddr);
      var oldAligned := oldAddr - oldAddr % GRANULE;
      if newAlignedNext < oldAligned {
        PoisonShadow(newAlignedNext, oldAligned - newAlignedNext, CONTAINER_OVERFLOW_MAGIC);
      }
      if oldAddr % GRANULE != 0 && oldAligned >= newAlignedNext {
        shadow[oldAddr / GRANULE] := CONTAINER_OVERFLOW_MAGIC;
      }
    }

    method MarkAllocated(p: nat, n: nat, aligned: nat) returns (payload: nat)
      requires p % GRANULE == 0 && p > 0 && headRedzone % GRANULE == 0 && aligned == RoundUp(n)
      requires p + headRedzone + RoundUp(n) + HEAP_TAIL_REDZONE_SIZE <= shadow.Length * GRANULE
      modifies `headers, shadow
      ensures payload == p + headRedzone
      ensures shadow[..] == ShadowAllocated(old(shadow[..]), headRedzone, p, n)
      ensures headers == old(headers)[p := aligned % UINT32_RANGE]
    {
      hide RoundUp, Poison, Unpoison, ShadowAllocated, FilledBytes, OpenBytes;
      headers := headers[p := aligned % UINT32_RANGE];
      UnpoisonShadow(p + headRedzone, n);
      PoisonShadow(p, headRedzone, HEAP_HEAD_REDZONE_MAGIC);
      PoisonShadow(p + headRedzone + aligned, HEAP_TAIL_REDZONE_SIZE, HEAP_TAIL_REDZONE_MAGIC);
      AllocatedSteps(old(shadow[..]), headRedzone, p, n);
      return p + headRedzone;
    }

    /** block is what the heap returned for the total size, with redzones. */
    method AllocateHook(n: nat, block: Option<nat>) returns (payload: Option<nat>)
      requires Valid()
      requires block.Some? ==>
        && block.value % GRANULE == 0 && block.value > 0
        && block.value + headRedzone + RoundUp(n) + HEAP_TAIL_REDZONE_SIZE <= shadow.Length * GRANULE
      modifies `headers, shadow
      ensures Valid()
      ensures block.None? ==> payload.None? && shadow[..] == old(shadow[..]) && headers == old(headers)
      ensures block.Some? ==>
        && payload == Some(block.value + headRedzone)
        && shadow[..] == ShadowAllocated(old(shadow[..]), headRedzone, block.value, n)
        && headers == old(headers)[block.value := RoundUp(n) % UINT32_RANGE]
        && BlockBytes(old(shadow[..]), shadow[..], headRedzone, block.value, n)
    {
      if block.None? {
        return None;
      }
      hide RoundUp, ShadowAllocated, ValidShadow, BlockBytes;
      AllocationKeepsValid(shadow[..], headRedzone, block.value, n);
      AllocatedBytes(shadow[..], headRedzone, block.value, n);
      var p := MarkAllocated(block.value, n, RoundUp(n));
      payload := Some(p);
    }

    /** n is the size that was asked for when the payload was allocated. */
    method FreeHook(payload: Option<nat>, ghost n: nat)
      requires Valid()
      requires payload.Some? ==>
        && payload.value % GRANULE == 0 && payload.value >= headRedzone && payload.value > 0
        && payload.value + RoundUp(n) <= shadow.Length * GRANULE
        && payload.value - headRedzone in headers
        && headers[payload.value - headRedzone] == RoundUp(n) % UINT32_RANGE
      modifies shadow
      ensures Valid()
      ensures shadow[..] == if payload.None? then old(shadow[..]) else ShadowFreed(old(shadow[..]), payload.value, n)
      ensures payload.Some? ==> FreedBytes(old(shadow[..]), shadow[..], payload.value, n)
    {
      if payload.Some? {
        ShadowFreedBytes(shadow[..], payload.value, n);
        hide RoundUp, FreedBytes, FilledBytes;
        var size := headers[payload.value - headRedzone];
        PoisonShadow(payload.value, size, HEAP_FREE_MAGIC);
      }
    }

    /** The first granule of the access with a non-zero shadow byte decides: 0 is returned if and
        only if every byte of the access is addressable, else the shadow address of the first
        granule with a byte that is not. */
    method GetPoisonedShadowAddress(addr: nat, size: nat) returns (bad: nat)
      requires Valid() && size > 0 && addr + size <= shadow.Length * GRANULE
      ensures bad == 0 <==> AllAddressable(shadow[..], addr, addr + size)
      ensures bad != 0 ==> bad >= start && FirstBadGranule(shadow[..], addr, size, bad - start)
    {
      var first := addr / GRANULE;
      var end := (addr + size - 1) / GRANULE + 1;
      var nonZero := 0;
      var i := 0;
      while i < end - first
        invariant 0 <= i <= end - first
        invariant forall g :: first <= g < first + i ==> shadow[g] == 0
      {
        if shadow[first + i] != 0 {
          nonZero := start + first + i;
          break;
        }
        i := i + 1;
      }
      ghost var g := first + i;
      if nonZero != 0 {
        var lastByte := addr + size - 1;
        if nonZero != start + lastByte / GRANULE {
          assert !Addressable(shadow[..], g * GRANULE + 7);
          return nonZero;
        }
        if lastByte % GRANULE >= Signed(shadow[lastByte / GRANULE]) {
          assert !Addressable(shadow[..], lastByte);
          return nonZero;
        }
      }
      return 0;
    }
  }

  lemma AllocatedSteps(s: Shadow, head: nat, p: nat, n: nat)
    requires p % GRANULE == 0 && head % GRANULE == 0
    requires p + head + RoundUp(n) + HEAP_TAIL_REDZONE_SIZE <= |s| * GRANULE
    ensures ShadowAllocated(s, head, p, n) ==
      Poison(Poison(Unpoison(s, p + head, n), p, head, HEAP_HEAD_REDZONE_MAGIC),
             p + head + RoundUp(n), HEAP_TAIL_REDZONE_SIZE, HEAP_TAIL_REDZONE_MAGIC)
  {}

  lemma AllocationKeepsValid(s: Shadow, head: nat, p: nat, n: nat)
    requires ValidShadow(s) && p % GRANULE == 0 && head % GRANULE == 0
    requires p + head + RoundUp(n) + HEAP_TAIL_REDZONE_SIZE <= |s| * GRANULE
    ensures ValidShadow(ShadowAllocated(s, head, p, n))
  {
    hide RoundUp, ShadowAllocated, ValidShadow;
    AllocationMarksExactly(s, head, p, n);
  }

  /** g is the first granule that holds a byte of the access that must not be used. */
  ghost predicate FirstBadGranule(s: Shadow, addr: nat, size: nat, g: nat)
    requires addr + size <= |s| * GRANULE
  {
    && (exists a :: addr <= a < addr + size && a / GRANULE == g && !Addressable(s, a))
    && (forall a :: addr <= a < addr + size && a / GRANULE < g ==> Addressable(s, a))
  }
}
