/**
 Shadow memory of the address sanitizer (circle/lib/kasan.cpp): one shadow byte stands for a
 granule of eight bytes. It is 0 if all of them are addressable, 1..7 if only that many at
 the front are, and a tag of 0x80 or above, negative as a signed byte, if none is.
*/
module KasanSpec {
  import opened Basics

  const GRANULE := 8
  const HEAP_HEAD_REDZONE_MAGIC: uint8 := 0xfa
  const HEAP_TAIL_REDZONE_MAGIC: uint8 := 0xfb
  const HEAP_FREE_MAGIC: uint8 := 0xfd
  const CONTAINER_OVERFLOW_MAGIC: uint8 := 0xfc
  const HEAP_TAIL_REDZONE_SIZE := 0x20

  type Shadow = seq<uint8>

  function Signed(b: uint8): int {
    if b < 0x80 then b else b - 0x100
  }

  predicate ValidTag(b: uint8) {
    b == 0 || 1 <= Signed(b) < GRANULE || Signed(b) < 0
  }

  ghost predicate ValidShadow(s: Shadow) {
    forall g :: 0 <= g < |s| ==> ValidTag(s[g])
  }

  /** The definition of the shadow, byte by byte */
  predicate Addressable(s: Shadow, a: nat)
    requires a / GRANULE < |s|
  {
    s[a / GRANULE] == 0 || a % GRANULE < Signed(s[a / GRANULE])
  }

  ghost predicate AllAddressable(s: Shadow, from: nat, to: nat)
    requires to <= |s| * GRANULE
  {
    forall a :: from <= a < to ==> Addressable(s, a)
  }

  ghost predicate NoneAddressable(s: Shadow, from: nat, to: nat)
    requires to <= |s| * GRANULE
  {
    forall a :: from <= a < to ==> !Addressable(s, a)
  }

  // ---------------------------------------------------------------- marking

  function Fill(s: Shadow, from: nat, to: nat, v: uint8): (r: Shadow)
    requires from <= to <= |s|
    ensures |r| == |s|
    ensures forall g :: 0 <= g < |s| ==> r[g] == if from <= g < to then v else s[g]
  {
    s[..from] + seq(to - from, _ => v) + s[to..]
  }

  /** poison_shadow: address and size are multiples of the granule */
  function Poison(s: Shadow, address: nat, size: nat, v: uint8): (r: Shadow)
    requires address % GRANULE == 0 && size % GRANULE == 0 && address + size <= |s| * GRANULE
    ensures |r| == |s|
  {
    Fill(s, address / GRANULE, (address + size) / GRANULE, v)
  }

  /** The number of shadow bytes that poison_shadow computes for an area, modulo the word size */
  function ShadowLength(word: nat, address: nat, size: nat): int
    requires word > 0
  {
    ((address + size - 1) % word) / GRANULE + 1 - address / GRANULE
  }

  /** It is exact but for the empty area at address 0, for which it stands for the whole memory. */
  lemma ShadowLengthIff(word: nat, address: nat, size: nat)
    requires word > 0 && word % GRANULE == 0 && address % GRANULE == 0 && size % GRANULE == 0 && address + size <= word
    ensures ShadowLength(word, address, size) == size / GRANULE <==> address + size > 0
    ensures address + size == 0 ==> ShadowLength(word, address, size) == word / GRANULE
  {
    if address + size > 0 {
      SmallModulo(address + size - 1, word);
    } else {
      DivModUnique(-1, -1, word - 1, word);
    }
  }

  lemma SmallModulo(x: nat, n: nat)
    requires x < n
    ensures x % n == x
  {}

  /** unpoison_shadow: address is a multiple of the granule */
  function Unpoison(s: Shadow, address: nat, size: nat): (r: Shadow)
    requires address % GRANULE == 0 && address + size <= |s| * GRANULE
    ensures |r| == |s|
  {
    var s1 := Poison(s, address, size - size % GRANULE, 0);
    if size % GRANULE != 0 then s1[(address + size) / GRANULE := size % GRANULE] else s1
  }

  function RoundUp(n: nat): (r: nat)
    ensures n <= r < n + GRANULE && r % GRANULE == 0
  {
    (n + GRANULE - 1) / GRANULE * GRANULE
  }

  /** An area is marked exactly, and nothing but its granules has changed. */
  ghost predicate MarksExactly(s: Shadow, s': Shadow, from: nat, size: nat) {
    && |s'| == |s| && from % GRANULE == 0 && RoundUp(from + size) <= |s| * GRANULE
    && AllAddressable(s', from, from + size)
    && NoneAddressable(s', from + size, RoundUp(from + size))
    && (forall g :: 0 <= g < |s| && !(from <= g * GRANULE < from + size) ==> s'[g] == s[g])
  }

  lemma PoisonAt(s: Shadow, address: nat, size: nat, v: uint8, g: nat)
    requires address % GRANULE == 0 && size % GRANULE == 0 && address + size <= |s| * GRANULE && g < |s|
    ensures |Poison(s, address, size, v)| == |s|
    ensures Poison(s, address, size, v)[g] == if address <= g * GRANULE < address + size then v else s[g]
  {}

  /** The shadow byte of granule g after unpoison_shadow */
  lemma UnpoisonAt(s: Shadow, address: nat, size: nat, g: nat)
    requires address % GRANULE == 0 && address + size <= |s| * GRANULE && g < |s|
    ensures Unpoison(s, address, size)[g] ==
      if g * GRANULE < address || address + size <= g * GRANULE then s[g]
      else if (g + 1) * GRANULE <= address + size then 0
      else address + size - g * GRANULE
  {
    hide Poison;
    PoisonAt(s, address, size - size % GRANULE, 0, g);
    PartialGranule(address, size);
  }

  /** The shadow bytes behind unpoison_shadow: only those of the area have changed. */
  ghost predicate OpenBytes(s: Shadow, s': Shadow, address: nat, size: nat) {
    && |s'| == |s|
    && forall g :: 0 <= g < |s| ==>
         if 8 * g < address || address + size <= 8 * g then s'[g] == s[g]
         else s'[g] as int == if 8 * g + 8 <= address + size then 0 else address + size - 8 * g
  }

  lemma UnpoisonBytes(s: Shadow, address: nat, size: nat)
    requires address % GRANULE == 0 && address + size <= |s| * GRANULE
    ensures OpenBytes(s, Unpoison(s, address, size), address, size)
  {
    hide Unpoison;
    forall g | 0 <= g < |s|
      ensures var b := Unpoison(s, address, size)[g];
        if 8 * g < address || address + size <= 8 * g then b == s[g]
        else b as int == if 8 * g + 8 <= address + size then 0 else address + size - 8 * g
    {
      UnpoisonAt(s, address, size, g);
    }
  }

  lemma PartialGranule(address: nat, size: nat)
    requires address % GRANULE == 0
    ensures (address + size) / GRANULE * GRANULE == address + (size - size % GRANULE)
  {
    DivModUnique(address + size, address / GRANULE + size / GRANULE, size % GRANULE, GRANULE);
  }

  lemma UnpoisonAddress(s: Shadow, address: nat, size: nat, a: nat)
    requires address % GRANULE == 0 && address <= a < RoundUp(address + size) <= |s| * GRANULE
    ensures Addressable(Unpoison(s, address, size), a) <==> a < address + size
  {
    hide Unpoison;
    UnpoisonAt(s, address, size, a / GRANULE);
  }

  /** unpoison_shadow marks its area exactly. */
  lemma UnpoisonMarks(s: Shadow, address: nat, size: nat)
    requires address % GRANULE == 0 && address + size <= |s| * GRANULE
    ensures RoundUp(address + size) <= |s| * GRANULE
    ensures MarksExactly(s, Unpoison(s, address, size), address, size)
    ensures ValidShadow(s) ==> ValidShadow(Unpoison(s, address, size))
  {
    var s' := Unpoison(s, address, size);
    hide Unpoison, RoundUp;
    assert RoundUp(address + size) <= |s| * GRANULE by { RoundUpMonotone(address + size, |s|); }
    forall g | 0 <= g < |s|
      ensures ValidTag(s[g]) ==> ValidTag(s'[g])
      ensures !(address <= g * GRANULE < address + size) ==> s'[g] == s[g]
    {
      UnpoisonAt(s, address, size, g);
    }
    hide Addressable, ValidTag;
    forall a | address <= a < RoundUp(address + size)
      ensures Addressable(s', a) <==> a < address + size
    {
      UnpoisonAddress(s, address, size, a);
    }
  }

  lemma RoundUpMonotone(n: nat, granules: nat)
    requires n <= granules * GRANULE
    ensures RoundUp(n) <= granules * GRANULE
  {}

  /** kasan_shadow_allocated: head and tail redzone around the payload */
  function ShadowAllocated(s: Shadow, head: nat, p: nat, n: nat): (r: Shadow)
    requires p % GRANULE == 0 && head % GRANULE == 0
    requires p + head + RoundUp(n) + HEAP_TAIL_REDZONE_SIZE <= |s| * GRANULE
    ensures |r| == |s|
  {
    var s1 := Unpoison(s, p + head, n);
    var s2 := Poison(s1, p, head, HEAP_HEAD_REDZONE_MAGIC);
    Poison(s2, p + head + RoundUp(n), HEAP_TAIL_REDZONE_SIZE, HEAP_TAIL_REDZONE_MAGIC)
  }

  lemma SumAligned(a: nat, b: nat)
    requires a % GRANULE == 0 && b % GRANULE == 0
    ensures (a + b) % GRANULE == 0
  {}

  lemma RoundUpCovers(a: nat, n: nat, g: nat)
    requires a % GRANULE == 0
    ensures a + n <= g * GRANULE <==> a + RoundUp(n) <= g * GRANULE
  {
    hide RoundUp;
    DivModUnique(a, a / GRANULE, 0, GRANULE);
  }

  /** The shadow byte of granule g after kasan_shadow_allocated */
  lemma AllocatedAt(s: Shadow, head: nat, p: nat, n: nat, g: nat)
    requires p % GRANULE == 0 && head % GRANULE == 0 && g < |s|
    requires p + head + RoundUp(n) + HEAP_TAIL_REDZONE_SIZE <= |s| * GRANULE
    ensures var b := ShadowAllocated(s, head, p, n)[g]; var payload := p + head; var tail := payload + RoundUp(n);
      if p <= g * GRANULE < payload then b == HEAP_HEAD_REDZONE_MAGIC
      else if tail <= g * GRANULE < tail + HEAP_TAIL_REDZONE_SIZE then b == HEAP_TAIL_REDZONE_MAGIC
      else if payload <= g * GRANULE < tail then
        b == if (g + 1) * GRANULE <= payload + n then 0 else payload + n - g * GRANULE
      else b == s[g]
  {
    hide Unpoison, Poison, RoundUp;
    SumAligned(p, head);
    SumAligned(p + head, RoundUp(n));
    RoundUpCovers(p + head, n, g);
    UnpoisonAt(s, p + head, n, g);
    var s1 := Unpoison(s, p + head, n);
    PoisonAt(s1, p, head, HEAP_HEAD_REDZONE_MAGIC, g);
    var s2 := Poison(s1, p, head, HEAP_HEAD_REDZONE_MAGIC);
    PoisonAt(s2, p + head + RoundUp(n), HEAP_TAIL_REDZONE_SIZE, HEAP_TAIL_REDZONE_MAGIC, g);
  }

  /** The shadow bytes of a block for n bytes at p: the head redzone (0xfa), zeros for the granules in use,
      the number of bytes in use for the last one if that is not full, the tail redzone (0xfb), and
      outside of the block the old ones. */
  ghost predicate BlockBytes(s: Shadow, s': Shadow, head: nat, p: nat, n: nat) {
    && |s'| == |s|
    && forall g :: 0 <= g < |s| ==>
         var a, payload := 8 * g, p + head;
         var tail := payload + (n + 7) / 8 * 8;
         if p <= a < payload then s'[g] == 0xfa
         else if payload <= a < tail then s'[g] as int == if a + 8 <= payload + n then 0 else payload + n - a
         else if tail <= a < tail + 32 then s'[g] == 0xfb
         else s'[g] == s[g]
  }

  lemma AllocatedBytes(s: Shadow, head: nat, p: nat, n: nat)
    requires p % GRANULE == 0 && head % GRANULE == 0
    requires p + head + RoundUp(n) + HEAP_TAIL_REDZONE_SIZE <= |s| * GRANULE
    ensures BlockBytes(s, ShadowAllocated(s, head, p, n), head, p, n)
  {
    hide ShadowAllocated;
    forall g | 0 <= g < |s|
      ensures var b := ShadowAllocated(s, head, p, n)[g]; var a, payload := 8 * g, p + head;
        var tail := payload + (n + 7) / 8 * 8;
        if p <= a < payload then b == 0xfa
        else if payload <= a < tail then b as int == if a + 8 <= payload + n then 0 else payload + n - a
        else if tail <= a < tail + 32 then b == 0xfb
        else b == s[g]
    {
      AllocatedAt(s, head, p, n, g);
    }
  }

  lemma AllocatedAddress(s: Shadow, head: nat, p: nat, n: nat, a: nat)
    requires p % GRANULE == 0 && head % GRANULE == 0
    requires p <= a < p + head + RoundUp(n) + HEAP_TAIL_REDZONE_SIZE <= |s| * GRANULE
    ensures Addressable(ShadowAllocated(s, head, p, n), a) <==> p + head <= a < p + head + n
  {
    hide ShadowAllocated, RoundUp;
    AllocatedAt(s, head, p, n, a / GRANULE);
  }

  /** After KasanAllocateHook exactly the requested bytes between the redzones are addressable. */
  lemma AllocationMarksExactly(s: Shadow, head: nat, p: nat, n: nat)
    requires p % GRANULE == 0 && head % GRANULE == 0
    requires p + head + RoundUp(n) + HEAP_TAIL_REDZONE_SIZE <= |s| * GRANULE
    ensures var s' := ShadowAllocated(s, head, p, n);
      var end := p + head + RoundUp(n) + HEAP_TAIL_REDZONE_SIZE;
      && (forall a :: p <= a < end ==> (Addressable(s', a) <==> p + head <= a < p + head + n))
      && (forall g :: 0 <= g < |s| && !(p <= g * GRANULE < end) ==> s'[g] == s[g])
      && (ValidShadow(s) ==> ValidShadow(s'))
  {
    var s' := ShadowAllocated(s, head, p, n);
    hide ShadowAllocated, RoundUp;
    forall g | 0 <= g < |s|
      ensures ValidTag(s[g]) ==> ValidTag(s'[g])
      ensures !(p <= g * GRANULE < p + head + RoundUp(n) + HEAP_TAIL_REDZONE_SIZE) ==> s'[g] == s[g]
    {
      AllocatedAt(s, head, p, n, g);
    }
    hide Addressable, ValidTag;
    forall a | p <= a < p + head + RoundUp(n) + HEAP_TAIL_REDZONE_SIZE
      ensures Addressable(s', a) <==> p + head <= a < p + head + n
    {
      AllocatedAddress(s, head, p, n, a);
    }
  }

  // ---------------------------------------------------------------- free hook

  /** KasanFreeHook: the size comes from the 32-bit field of the header written at allocation. */
  function ShadowFreed(s: Shadow, payload: nat, n: nat): (r: Shadow)
    requires payload % GRANULE == 0 && payload + RoundUp(n) <= |s| * GRANULE
    ensures |r| == |s|
  {
    Poison(s, payload, RoundUp(n) % UINT32_RANGE, HEAP_FREE_MAGIC)
  }

  lemma FreedAt(s: Shadow, payload: nat, n: nat, g: nat)
    requires payload % GRANULE == 0 && payload + RoundUp(n) <= |s| * GRANULE && g < |s|
    ensures |ShadowFreed(s, payload, n)| == |s|
    ensures ShadowFreed(s, payload, n)[g] ==
      if payload <= g * GRANULE < payload + RoundUp(n) % UINT32_RANGE then HEAP_FREE_MAGIC else s[g]
  {
    hide RoundUp, Poison;
    PoisonAt(s, payload, RoundUp(n) % UINT32_RANGE, HEAP_FREE_MAGIC, g);
  }

  /** The shadow bytes behind a free: the granules of the payload have the tag 0xfd, as far as the size in
      the header goes. */
  ghost predicate FreedBytes(s: Shadow, s': Shadow, payload: nat, n: nat) {
    && |s'| == |s|
    && forall g :: 0 <= g < |s| ==>
         s'[g] == if payload <= 8 * g < payload + (n + 7) / 8 * 8 % 0x1_0000_0000 then 0xfd else s[g]
  }

  lemma ShadowFreedBytes(s: Shadow, payload: nat, n: nat)
    requires payload % GRANULE == 0 && payload + RoundUp(n) <= |s| * GRANULE
    ensures FreedBytes(s, ShadowFreed(s, payload, n), payload, n)
  {
    hide ShadowFreed;
    forall g | 0 <= g < |s|
      ensures ShadowFreed(s, payload, n)[g] ==
        if payload <= 8 * g < payload + (n + 7) / 8 * 8 % 0x1_0000_0000 then 0xfd else s[g]
    {
      FreedAt(s, payload, n, g);
    }
  }

  /** The shadow of a block after its allocation and free */
  function AllocatedFreed(s: Shadow, head: nat, p: nat, n: nat): (r: Shadow)
    requires p % GRANULE == 0 && head % GRANULE == 0
    requires p + head + RoundUp(n) + HEAP_TAIL_REDZONE_SIZE <= |s| * GRANULE
    ensures |r| == |s|
  {
    hide RoundUp, ShadowAllocated;
    SumAligned(p, head);
    ShadowFreed(ShadowAllocated(s, head, p, n), p + head, n)
  }

  lemma FreedAddress(s: Shadow, head: nat, p: nat, n: nat, a: nat)
    requires p % GRANULE == 0 && head % GRANULE == 0
    requires p <= a < p + head + RoundUp(n) + HEAP_TAIL_REDZONE_SIZE <= |s| * GRANULE
    ensures Addressable(AllocatedFreed(s, head, p, n), a) <==>
      p + head + RoundUp(n) % UINT32_RANGE <= a < p + head + n
  {
    hide RoundUp, ShadowAllocated, ShadowFreed, Addressable;
    SumAligned(p, head);
    var s1, s2 := ShadowAllocated(s, head, p, n), AllocatedFreed(s, head, p, n);
    AllocatedAddress(s, head, p, n, a);
    FreedAt(s1, p + head, n, a / GRANULE);
    FreedSize(n);
    GranuleInside(a, p + head, RoundUp(n) % UINT32_RANGE);
    ByteDecides(s1, s2, a);
  }

  lemma FreedSize(n: nat)
    ensures RoundUp(n) % UINT32_RANGE % GRANULE == 0
  {
    var r := RoundUp(n);
    hide RoundUp;
    var k := r % UINT32_RANGE;
    DivModUnique(k, r / GRANULE - r / UINT32_RANGE * (UINT32_RANGE / GRANULE), 0, GRANULE);
  }

  lemma GranuleInside(a: nat, from: nat, size: nat)
    requires from % GRANULE == 0 && size % GRANULE == 0
    ensures from <= a / GRANULE * GRANULE < from + size <==> from <= a < from + size
  {
    SumAligned(from, size);
    GranuleBelow(a, from);
    GranuleBelow(a, from + size);
  }

  lemma GranuleBelow(a: nat, limit: nat)
    requires limit % GRANULE == 0
    ensures a / GRANULE * GRANULE < limit <==> a < limit
  {}

  lemma ByteDecides(s: Shadow, s': Shadow, a: nat)
    requires a / GRANULE < |s| == |s'|
    ensures s'[a / GRANULE] == s[a / GRANULE] ==> (Addressable(s', a) <==> Addressable(s, a))
    ensures s'[a / GRANULE] == HEAP_FREE_MAGIC ==> !Addressable(s', a)
  {}

  /** After allocation and free no byte of the block is addressable, exactly if the aligned
      size fits the 32 bits of the header. Otherwise the end of the payload stays addressable. */
  lemma FreeMarksExactly(s: Shadow, head: nat, p: nat, n: nat)
    requires p % GRANULE == 0 && head % GRANULE == 0
    requires p + head + RoundUp(n) + HEAP_TAIL_REDZONE_SIZE <= |s| * GRANULE
    ensures NoneAddressable(AllocatedFreed(s, head, p, n), p, p + head + RoundUp(n) + HEAP_TAIL_REDZONE_SIZE)
       <==> RoundUp(n) < UINT32_RANGE
  {
    hide AllocatedFreed, Addressable, RoundUp;
    var s' := AllocatedFreed(s, head, p, n);
    var end := p + head + RoundUp(n) + HEAP_TAIL_REDZONE_SIZE;
    if RoundUp(n) < UINT32_RANGE {
      forall a | p <= a < end
        ensures !Addressable(s', a)
      {
        FreedAddress(s, head, p, n, a);
      }
    } else {
      var left := p + head + RoundUp(n) % UINT32_RANGE;
      FreedAddress(s, head, p, n, left);
      assert Addressable(s', left);
    }
  }

  // ---------------------------------------------------------------- containers

  /** annotate_range_transition: the end of the used part moves from oldAddr to newAddr. */
  function Transition(s: Shadow, oldAddr: nat, newAddr: nat): (r: Shadow)
    requires oldAddr <= |s| * GRANULE && newAddr <= |s| * GRANULE
    ensures |r| == |s|
  {
    if newAddr > oldAddr then
      var alignedStart := oldAddr - oldAddr % GRANULE;
      Unpoison(s, alignedStart, newAddr - alignedStart)
    else if newAddr < oldAddr then Shrink(s, oldAddr, newAddr)
    else s
  }

  lemma ShrinkBounds(oldAddr: nat, newAddr: nat, granules: nat)
    requires newAddr < oldAddr <= granules * GRANULE
    ensures newAddr / GRANULE < granules && (oldAddr % GRANULE != 0 ==> oldAddr / GRANULE < granules)
    ensures (oldAddr - oldAddr % GRANULE) % GRANULE == 0 && RoundUp(newAddr) <= granules * GRANULE
    ensures (oldAddr - oldAddr % GRANULE - RoundUp(newAddr)) % GRANULE == 0
  {}

  function Shrink(s: Shadow, oldAddr: nat, newAddr: nat): (r: Shadow)
    requires newAddr < oldAddr <= |s| * GRANULE
    ensures |r| == |s|
  {
    ShrinkBounds(oldAddr, newAddr, |s|);
    var s1 := if newAddr % GRANULE != 0 then s[newAddr / GRANULE := newAddr % GRANULE] else s;
    var newAlignedNext := RoundUp(newAddr);
    var oldAligned := oldAddr - oldAddr % GRANULE;
    var s2 := if newAlignedNext < oldAligned
              then Poison(s1, newAlignedNext, oldAligned - newAlignedNext, CONTAINER_OVERFLOW_MAGIC) else s1;
    if oldAddr % GRANULE != 0 && oldAligned >= newAlignedNext
    then s2[oldAddr / GRANULE := CONTAINER_OVERFLOW_MAGIC] else s2
  }

  /** Of the area [beg, lim) of a container exactly [beg, end) is addressable. */
  ghost predicate ContainerMarked(s: Shadow, beg: nat, end: nat, lim: nat) {
    && beg % GRANULE == 0 && lim % GRANULE == 0 && beg <= end <= lim <= |s| * GRANULE
    && forall a :: beg <= a < lim ==> (Addressable(s, a) <==> a < end)
  }

  /** The shadow byte of granule g after annotate_range_transition */
  lemma TransitionAt(s: Shadow, oldAddr: nat, newAddr: nat, g: nat)
    requires oldAddr <= |s| * GRANULE && newAddr <= |s| * GRANULE && g < |s|
    ensures var b := Transition(s, oldAddr, newAddr)[g];
      if newAddr > oldAddr then
        if (g + 1) * GRANULE <= oldAddr || newAddr <= g * GRANULE then b == s[g]
        else if (g + 1) * GRANULE <= newAddr then b == 0
        else b == newAddr - g * GRANULE
      else
        if (g + 1) * GRANULE <= newAddr || oldAddr <= g * GRANULE then b == s[g]
        else if newAddr <= g * GRANULE then b == CONTAINER_OVERFLOW_MAGIC
        else if oldAddr == newAddr then b == s[g]
        else b == newAddr - g * GRANULE
  {
    hide Unpoison, Poison;
    if newAddr > oldAddr {
      var alignedStart := oldAddr - oldAddr % GRANULE;
      UnpoisonAt(s, alignedStart, newAddr - alignedStart, g);
    } else if newAddr < oldAddr {
      var s1 := if newAddr % GRANULE != 0 then s[newAddr / GRANULE := newAddr % GRANULE] else s;
      var next := RoundUp(newAddr);
      var oldAligned := oldAddr - oldAddr % GRANULE;
      if next < oldAligned {
        PoisonAt(s1, next, oldAligned - next, CONTAINER_OVERFLOW_MAGIC, g);
      }
    }
  }

  /** The shadow bytes behind a transition: up to a new end that is larger the granules are open, behind
      one that is smaller they have the tag 0xfc. */
  ghost predicate MovedBytes(s: Shadow, s': Shadow, oldAddr: nat, newAddr: nat) {
    && |s'| == |s|
    && forall g :: 0 <= g < |s| ==>
         if 8 * g + 8 <= Min(oldAddr, newAddr) || Max(oldAddr, newAddr) <= 8 * g || oldAddr == newAddr
         then s'[g] == s[g]
         else if 8 * g >= newAddr then s'[g] == 0xfc
         else s'[g] as int == if 8 * g + 8 <= newAddr then 0 else newAddr - 8 * g
  }

  lemma TransitionBytes(s: Shadow, oldAddr: nat, newAddr: nat)
    requires oldAddr <= |s| * GRANULE && newAddr <= |s| * GRANULE
    ensures MovedBytes(s, Transition(s, oldAddr, newAddr), oldAddr, newAddr)
  {
    hide Transition;
    forall g | 0 <= g < |s|
      ensures var b := Transition(s, oldAddr, newAddr)[g];
        if 8 * g + 8 <= Min(oldAddr, newAddr) || Max(oldAddr, newAddr) <= 8 * g || oldAddr == newAddr then b == s[g]
        else if 8 * g >= newAddr then b == 0xfc
        else b as int == if 8 * g + 8 <= newAddr then 0 else newAddr - 8 * g
    {
      TransitionAt(s, oldAddr, newAddr, g);
    }
  }

  lemma TransitionAddress(s: Shadow, beg: nat, oldAddr: nat, newAddr: nat, lim: nat, a: nat)
    requires ContainerMarked(s, beg, oldAddr, lim) && beg <= newAddr <= lim && beg <= a < lim
    ensures Addressable(Transition(s, oldAddr, newAddr), a) <==> a < newAddr
  {
    hide Transition;
    assert Addressable(s, a) <==> a < oldAddr;
    TransitionAt(s, oldAddr, newAddr, a / GRANULE);
  }

  /** An exactly marked container stays so, for growth and shrink and every misalignment. */
  lemma TransitionMarksExactly(s: Shadow, beg: nat, oldAddr: nat, newAddr: nat, lim: nat)
    requires ContainerMarked(s, beg, oldAddr, lim) && beg <= newAddr <= lim
    ensures var s' := Transition(s, oldAddr, newAddr);
      && ContainerMarked(s', beg, newAddr, lim)
      && (forall g :: 0 <= g < |s| && !(beg <= g * GRANULE < lim) ==> s'[g] == s[g])
      && (ValidShadow(s) ==> ValidShadow(s'))
  {
    hide Transition;
    var s' := Transition(s, oldAddr, newAddr);
    forall g | 0 <= g < |s|
      ensures ValidTag(s[g]) ==> ValidTag(s'[g])
      ensures !(beg <= g * GRANULE < lim) ==> s'[g] == s[g]
    {
      TransitionAt(s, oldAddr, newAddr, g);
    }
    hide Addressable, ValidTag;
    forall a | beg <= a < lim
      ensures Addressable(s', a) <==> a < newAddr
    {
      TransitionAddress(s, beg, oldAddr, newAddr, lim, a);
    }
  }
}
