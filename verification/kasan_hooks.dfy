/**
 The allocation hook of the sanitizer on top of the heap: the size of the redzones is added to
 the request before the heap rounds it up again.
*/
module KasanHooks {
  import opened Basics
  import opened KasanSpec
  import Heap = HeapSpec

  /** kasan_get_allocate_params, modulo the range of size_t */
  function AlignedSize(word: nat, n: nat): nat
    requires word > 0
  {
    (n + GRANULE - 1) % word / GRANULE * GRANULE
  }

  function TotalSize(word: nat, head: nat, n: nat): nat
    requires word > 0
  {
    (AlignedSize(word, n) + head + HEAP_TAIL_REDZONE_SIZE) % word
  }

  /** What the hook is going to mark, redzones included */
  function MarkedSize(head: nat, n: nat): nat {
    head + RoundUp(n) + HEAP_TAIL_REDZONE_SIZE
  }

  /** The hook asks for as much as it marks if and only if neither sum overflows; otherwise for
      less than the redzones. */
  lemma TotalSizeIff(word: nat, head: nat, n: nat)
    requires word % GRANULE == 0 && head % GRANULE == 0 && n < word && head + HEAP_TAIL_REDZONE_SIZE < word
    ensures TotalSize(word, head, n) == MarkedSize(head, n) <==> MarkedSize(head, n) < word
    ensures MarkedSize(head, n) >= word ==> TotalSize(word, head, n) <= head + HEAP_TAIL_REDZONE_SIZE
    ensures MarkedSize(head, n) < word ==> AlignedSize(word, n) == RoundUp(n)
  {
    var x := n + GRANULE - 1;
    if x < word {
      SmallModulo(x, word);
      var total := MarkedSize(head, n);
      if total < word {
        SmallModulo(total, word);
      } else {
        DivModUnique(total, 1, total - word, word);
      }
    } else {
      DivModUnique(x, 1, x - word, word);
      SmallModulo(head + HEAP_TAIL_REDZONE_SIZE, word);
    }
  }

  /** The head redzone is as large as HEAP_BLOCK_ALIGN. */
  predicate HookConfig(c: Heap.Config) {
    c.align % GRANULE == 0 && c.word % GRANULE == 0 && c.align + HEAP_TAIL_REDZONE_SIZE < c.word
  }

  ghost predicate Covers(c: Heap.Config, h: Heap.Heap, p: nat, n: nat) {
    && p >= c.align && p - c.align in h.ends
    && (p + MarkedSize(c.align, n) <= h.ends[p - c.align] <==> Heap.NoWrap(c, MarkedSize(c.align, n)))
  }

  /** The exact condition for a block that holds all that the hook marks: neither its own sums nor
      the one in the heap overflow. */
  lemma HookCoversIff(c: Heap.Config, h: Heap.Heap, n: nat)
    requires Heap.Inv(c, h) && HookConfig(c) && n < c.word
    requires Heap.Allocate(c, h, TotalSize(c.word, c.align, n)).1 != 0
    ensures var (h', p) := Heap.Allocate(c, h, TotalSize(c.word, c.align, n)); Covers(c, h', p, n)
  {
    hide Heap.Inv, Heap.Allocate, TotalSize, MarkedSize;
    var total := TotalSize(c.word, c.align, n);
    TotalSizeIff(c.word, c.align, n);
    TotalIsWord(c.word, c.align, n);
    var (h', p) := Heap.Allocate(c, h, total);
    Heap.CoversRequestExactly(c, h, total);
    Heap.AllocateKeeps(c, h, total);
    Heap.AllocateFrame(c, h, total);
    Heap.LivePayload(c, h', p - c.align);
    Heap.NextInRegion(c, h');
  }

  /** KasanAllocateHook: the new heap and shadow, and the payload, 0 if there is none */
  function AllocateHook(c: Heap.Config, h: Heap.Heap, s: Shadow, n: nat): (Heap.Heap, Shadow, nat)
    requires Heap.Inv(c, h) && HookConfig(c) && n < c.word && c.limit <= |s| * GRANULE
    requires Heap.NoWrap(c, MarkedSize(c.align, n))
  {
    hide Heap.Inv, Heap.Allocate, TotalSize;
    var (h', p) := Heap.Allocate(c, h, TotalSize(c.word, c.align, n));
    if p == 0 then (h', s, 0)
    else
      HookReady(c, h, n);
      (h', ShadowAllocated(s, c.align, p, n), p + c.align)
  }

  /** The live block at p holds what the hook marks. */
  ghost predicate Holds(c: Heap.Config, h: Heap.Heap, p: nat, n: nat) {
    && c.align > 0 && p >= c.align && p - c.align in h.ends && Heap.IsLive(c, h, p)
    && p % c.align == 0 && p % GRANULE == 0 && p + MarkedSize(c.align, n) <= h.ends[p - c.align] <= h.next <= c.limit
  }

  lemma HookReady(c: Heap.Config, h: Heap.Heap, n: nat)
    requires Heap.Inv(c, h) && HookConfig(c) && n < c.word && Heap.NoWrap(c, MarkedSize(c.align, n))
    requires Heap.Allocate(c, h, TotalSize(c.word, c.align, n)).1 != 0
    ensures var (h', p) := Heap.Allocate(c, h, TotalSize(c.word, c.align, n)); Heap.Inv(c, h') && Holds(c, h', p, n)
  {
    hide Heap.Inv, Heap.Allocate, TotalSize, MarkedSize;
    var total := TotalSize(c.word, c.align, n);
    TotalIsWord(c.word, c.align, n);
    var (h', p) := Heap.Allocate(c, h, total);
    HookCoversIff(c, h, n);
    Heap.AllocateKeeps(c, h, total);
    Heap.AllocateFrame(c, h, total);
    Heap.LivePayload(c, h', p - c.align);
    Heap.NextInRegion(c, h);
    MultipleOfMultiple(p, c.align);
  }

  lemma MultipleOfMultiple(p: nat, align: nat)
    requires align > 0 && align % GRANULE == 0 && p % align == 0
    ensures p % GRANULE == 0
  {
    var k, m := p / align, align / GRANULE;
    assert p == k * align && align == m * GRANULE;
    assert k * (m * GRANULE) == (k * m) * GRANULE;
    DivModUnique(p, k * m, 0, GRANULE);
  }

  /** Of the block exactly the requested bytes are addressable, they start at a multiple of
      HEAP_BLOCK_ALIGN, and the shadow of everything else is as before. */
  ghost predicate HookMarked(c: Heap.Config, h: Heap.Heap, s: Shadow, s': Shadow, payload: nat, n: nat) {
    && 2 * c.align <= payload && Heap.IsLive(c, h, payload - c.align) && payload - 2 * c.align in h.ends
    && c.align > 0 && payload % c.align == 0 && |s'| == |s|
    && var p := payload - c.align; var end := p + MarkedSize(c.align, n);
    && end <= h.ends[p - c.align] && end <= |s| * GRANULE
    && (forall a :: p <= a < end ==> (Addressable(s', a) <==> payload <= a < payload + n))
    && (forall g :: 0 <= g < |s| && !(p <= g * GRANULE < end) ==> s'[g] == s[g])
    && (ValidShadow(s) ==> ValidShadow(s'))
  }

  lemma HookMarksExactly(c: Heap.Config, h: Heap.Heap, s: Shadow, n: nat)
    requires Heap.Inv(c, h) && HookConfig(c) && n < c.word && c.limit <= |s| * GRANULE
    requires Heap.NoWrap(c, MarkedSize(c.align, n))
    ensures var (h', s', payload) := AllocateHook(c, h, s, n);
      && Heap.Inv(c, h')
      && if payload == 0 then s' == s else HookMarked(c, h', s, s', payload, n)
  {
    hide Heap.Inv, Heap.Allocate, TotalSize, ShadowAllocated, Addressable, ValidShadow;
    var total := TotalSize(c.word, c.align, n);
    TotalIsWord(c.word, c.align, n);
    Heap.AllocateKeeps(c, h, total);
    var (h', p) := Heap.Allocate(c, h, total);
    if p != 0 {
      HookReady(c, h, n);
      Heap.NextInRegion(c, h);
      AllocationMarksExactly(s, c.align, p, n);
      NextMultiple(p, c.align);
    }
  }

  lemma HookIsAllocate(c: Heap.Config, h: Heap.Heap, s: Shadow, n: nat)
    requires Heap.Inv(c, h) && HookConfig(c) && n < c.word && c.limit <= |s| * GRANULE
    requires Heap.NoWrap(c, MarkedSize(c.align, n))
    ensures var (h', p) := Heap.Allocate(c, h, TotalSize(c.word, c.align, n));
      var (heap, shadow, payload) := AllocateHook(c, h, s, n);
      && heap == h' && c.align > 0
      && if p == 0 then payload == 0 && shadow == s else p >= c.align && p % GRANULE == 0 && payload == p + c.align
  {
    hide Heap.Inv, Heap.Allocate, TotalSize, MarkedSize, ShadowAllocated;
    Heap.NextInRegion(c, h);
    if Heap.Allocate(c, h, TotalSize(c.word, c.align, n)).1 != 0 {
      HookReady(c, h, n);
    }
  }

  /** The hook asks the heap for the size rounded up to eight and both redzones, and returns the address
      behind the first one, or 0 exactly if the heap does. */
  lemma HookAsks(c: Heap.Config, h: Heap.Heap, s: Shadow, n: nat)
    requires Heap.Inv(c, h) && HookConfig(c) && n < c.word && c.limit <= |s| * GRANULE
    requires Heap.NoWrap(c, MarkedSize(c.align, n))
    ensures var (h', p) := Heap.Allocate(c, h, (n + 7) / 8 * 8 + c.align + 32);
      && AllocateHook(c, h, s, n).0 == h'
      && AllocateHook(c, h, s, n).2 == if p == 0 then 0 else p + c.align
  {
    HookTotal(c, h, n);
    hide Heap.Inv, Heap.Allocate, TotalSize, MarkedSize, AllocateHook;
    HookIsAllocate(c, h, s, n);
  }

  lemma HookTotal(c: Heap.Config, h: Heap.Heap, n: nat)
    requires Heap.Inv(c, h) && HookConfig(c) && n < c.word && Heap.NoWrap(c, MarkedSize(c.align, n))
    ensures c.word > 0 && TotalSize(c.word, c.align, n) == (n + 7) / 8 * 8 + c.align + 32
  {
    hide Heap.Inv, TotalSize;
    Heap.NextInRegion(c, h);
    TotalSizeIff(c.word, c.align, n);
  }

  lemma NextMultiple(p: nat, align: nat)
    requires align > 0 && p % align == 0
    ensures (p + align) % align == 0
  {
    DivModUnique(p + align, p / align + 1, 0, align);
  }

  /** A request whose sum overflows: the block is smaller than the redzones together with the
      bytes that would be marked behind it. */
  lemma WrappedHook()
    ensures var c, n := Heap.HEAP64, 0xFFFF_FFFF_FFFF_FFFF;
      && Heap.Inv(c, Heap.Setup(c, 0)) && HookConfig(c) && n < c.word && TotalSize(c.word, c.align, n) == 96
      && var (h', p) := Heap.Allocate(c, Heap.Setup(c, 0), 96);
         p == c.base + c.align && p - c.align in h'.ends && p + MarkedSize(c.align, n) > h'.ends[p - c.align]
  {
    var c, n := Heap.HEAP64, 0xFFFF_FFFF_FFFF_FFFF;
    Heap.Heap64Valid();
    Heap.SetupInv(c, 0);
    assert n + GRANULE - 1 == c.word + 6;
    DivModUnique(n + GRANULE - 1, 1, 6, c.word);
    assert TotalSize(c.word, c.align, n) == 96;
    assert Heap.FindFit(c.sizes, 96, 0) == 1;
    assert Heap.NextBlock(c, c.base, 0x400) == c.base + 0x440;
    hide Heap.Inv, Heap.ValidConfig, Heap.NextBlock, Heap.FindFit, TotalSize;
  }

  lemma TotalIsWord(word: nat, head: nat, n: nat)
    requires word > 0
    ensures TotalSize(word, head, n) < word
  {}
}
