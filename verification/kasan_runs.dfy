/**
 Runs of the allocation and the free hook of the sanitizer on top of the heap
 (circle/lib/kasan.cpp): which bytes an instrumented access may use.
*/
module KasanRuns {
  import opened Basics
  import opened KasanSpec
  import opened KasanHooks
  import Heap = HeapSpec

  /** history: the sizes requested for the blocks in use, by the address that the heap has returned,
      and all areas that the allocation hook has marked so far */
  datatype System = System(heap: Heap.Heap, shadow: Shadow, sizes: map<nat, nat>, marked: seq<(nat, nat)>)

  datatype Event = Malloc(n: nat) | Mfree(payload: nat)

  /** A byte that some caller has asked for and not given back */
  ghost predicate InUse(c: Heap.Config, sizes: map<nat, nat>, a: nat) {
    exists p :: p in sizes && p + c.align <= a < p + c.align + sizes[p]
  }

  predicate InArea(area: (nat, nat), a: nat) {
    area.0 <= a < area.0 + area.1
  }

  ghost predicate WasMarked(marked: seq<(nat, nat)>, a: nat) {
    exists k :: 0 <= k < |marked| && InArea(marked[k], a)
  }

  /** Requests with which the hook stays inside of the block, see HookCoversIff, and payloads all of
      which the free hook poisons, see FreeMarksExactly */
  predicate Allowed(c: Heap.Config, s: System, e: Event) {
    match e
    case Malloc(n) => n < c.word && Heap.NoWrap(c, MarkedSize(c.align, n))
    case Mfree(payload) =>
      payload >= c.align && payload - c.align in s.sizes && RoundUp(s.sizes[payload - c.align]) < UINT32_RANGE
  }

  /** The blocks in use are those of the heap, and the hook has marked each of them. */
  ghost predicate Blocks(c: Heap.Config, h: Heap.Heap, sizes: map<nat, nat>, marked: seq<(nat, nat)>) {
    && (forall p :: p in sizes ==> Holds(c, h, p, sizes[p]) && (p, MarkedSize(c.align, sizes[p])) in marked)
    && (forall p :: Heap.IsLive(c, h, p) ==> p in sizes)
  }

  /** A byte is addressable if and only if it is in use or was never marked. */
  ghost predicate Exact(c: Heap.Config, shadow: Shadow, sizes: map<nat, nat>, marked: seq<(nat, nat)>) {
    forall a: nat | a < |shadow| * GRANULE ::
      Addressable(shadow, a) <==> InUse(c, sizes, a) || !WasMarked(marked, a)
  }

  ghost predicate Ready(c: Heap.Config, s: System) {
    Heap.Inv(c, s.heap) && HookConfig(c) && c.limit <= |s.shadow| * GRANULE
  }

  ghost predicate SysInv(c: Heap.Config, s: System) {
    && Ready(c, s) && ValidShadow(s.shadow)
    && Blocks(c, s.heap, s.sizes, s.marked) && Exact(c, s.shadow, s.sizes, s.marked)
  }

  /** KasanAllocateHook */
  function Allocated(c: Heap.Config, s: System, n: nat): System
    requires Ready(c, s) && Allowed(c, s, Malloc(n))
  {
    var (heap, shadow, payload) := AllocateHook(c, s.heap, s.shadow, n);
    if payload < c.align then s.(heap := heap)
    else
      var p := payload - c.align;
      System(heap, shadow, s.sizes[p := n], s.marked + [(p, MarkedSize(c.align, n))])
  }

  predicate MayFree(c: Heap.Config, s: System, payload: nat) {
    && Allowed(c, s, Mfree(payload))
    && var p := payload - c.align;
    && |s.heap.heads| == |s.heap.chains| == |c.sizes| && Heap.IsLive(c, s.heap, p) && p - c.align in s.heap.headers
    && payload % GRANULE == 0 && payload + RoundUp(s.sizes[p]) <= |s.shadow| * GRANULE
  }

  /** KasanFreeHook */
  function Freed(c: Heap.Config, s: System, payload: nat): System
    requires MayFree(c, s, payload)
  {
    var p := payload - c.align;
    System(Heap.Release(c, s.heap, p), ShadowFreed(s.shadow, payload, s.sizes[p]), s.sizes - {p}, s.marked)
  }

  lemma FreeHookReady(c: Heap.Config, s: System, payload: nat)
    requires SysInv(c, s) && Allowed(c, s, Mfree(payload))
    ensures MayFree(c, s, payload)
  {
    hide Heap.Inv, Exact, ValidShadow, RoundUp;
    var p := payload - c.align;
    Heap.FreeReady(c, s.heap, p);
    SumAligned(p, c.align);
  }

  // ---------------------------------------------------------------- blocks

  /** What the hook marks in one block does not concern another. */
  lemma BlocksApart(c: Heap.Config, h: Heap.Heap, p: nat, n: nat, q: nat, m: nat, a: nat)
    requires Heap.Inv(c, h) && Holds(c, h, p, n) && Holds(c, h, q, m) && p != q
    requires p <= a < p + MarkedSize(c.align, n)
    ensures !(q <= a < q + MarkedSize(c.align, m))
  {
    hide Heap.Inv, MarkedSize;
    Heap.LiveBlocksApart(c, h, p - c.align, q - c.align);
  }

  lemma PayloadInside(c: Heap.Config, n: nat)
    ensures c.align + n <= c.align + RoundUp(n) <= MarkedSize(c.align, n)
  {}

  // ---------------------------------------------------------------- what the hooks keep

  lemma HoldsStill(c: Heap.Config, h: Heap.Heap, h': Heap.Heap, b: nat, total: nat, p: nat, n: nat)
    requires Heap.Inv(c, h') && Heap.HandedOut(h, h', b, total) && Holds(c, h, p, n)
    ensures p - c.align != b && Holds(c, h', p, n)
  {
    hide Heap.Inv, MarkedSize;
    Heap.KeySets(c, h');
    Heap.LivePayload(c, h', p - c.align);
  }

  lemma OnlyOneMore(c: Heap.Config, h: Heap.Heap, h': Heap.Heap, p: nat, total: nat)
    requires p >= c.align && Heap.HandedOut(h, h', p - c.align, total)
    ensures forall q :: Heap.IsLive(c, h', q) ==> q == p || Heap.IsLive(c, h, q)
  {}

  lemma TakenKeepsBlocks(c: Heap.Config, h: Heap.Heap, h': Heap.Heap, sizes: map<nat, nat>, marked: seq<(nat, nat)>,
                         p: nat, n: nat, total: nat)
    requires Heap.Inv(c, h') && Blocks(c, h, sizes, marked)
    requires p >= c.align && Heap.HandedOut(h, h', p - c.align, total) && Holds(c, h', p, n)
    ensures p !in sizes && Blocks(c, h', sizes[p := n], marked + [(p, MarkedSize(c.align, n))])
  {
    hide Heap.Inv, MarkedSize, Holds, Heap.HandedOut, Heap.IsLive;
    OnlyOneMore(c, h, h', p, total);
    forall q | q in sizes
      ensures q != p && Holds(c, h', q, sizes[q])
    {
      HoldsStill(c, h, h', p - c.align, total, q, sizes[q]);
    }
    var marked' := marked + [(p, MarkedSize(c.align, n))];
    assert marked'[|marked|] == (p, MarkedSize(c.align, n));
  }

  lemma GivenUpKeepsBlocks(c: Heap.Config, h: Heap.Heap, sizes: map<nat, nat>, marked: seq<(nat, nat)>)
    requires Blocks(c, h, sizes, marked)
    ensures Blocks(c, h.(reserve := 0), sizes, marked)
  {}

  lemma ReleasedKeepsBlocks(c: Heap.Config, h: Heap.Heap, h': Heap.Heap, sizes: map<nat, nat>,
                            marked: seq<(nat, nat)>, p: nat)
    requires Blocks(c, h, sizes, marked) && p in sizes && p != 0 && Heap.Released(c, h, h', p)
    ensures Blocks(c, h', sizes - {p}, marked)
  {
    hide MarkedSize;
    assert Holds(c, h, p, sizes[p]);
    forall q | q in sizes && q != p
      ensures Holds(c, h', q, sizes[q])
    {
      assert Holds(c, h, q, sizes[q]);
    }
    forall q | Heap.IsLive(c, h', q)
      ensures q in sizes && q != p
    {
      assert Heap.IsLive(c, h, q);
    }
  }

  lemma MarkedMore(marked: seq<(nat, nat)>, area: (nat, nat), a: nat)
    ensures WasMarked(marked + [area], a) <==> WasMarked(marked, a) || InArea(area, a)
  {
    var marked' := marked + [area];
    if InArea(area, a) {
      assert InArea(marked'[|marked|], a);
    }
    if WasMarked(marked, a) {
      var k :| 0 <= k < |marked| && InArea(marked[k], a);
      assert InArea(marked'[k], a);
    }
  }

  lemma InUseMore(c: Heap.Config, sizes: map<nat, nat>, p: nat, n: nat, a: nat)
    requires p !in sizes
    ensures InUse(c, sizes[p := n], a) <==> InUse(c, sizes, a) || p + c.align <= a < p + c.align + n
  {
    var sizes' := sizes[p := n];
    if InUse(c, sizes, a) {
      var q :| q in sizes && q + c.align <= a < q + c.align + sizes[q];
      assert q in sizes';
    }
    if p + c.align <= a < p + c.align + n {
      assert p in sizes';
    }
  }

  lemma InUseLess(c: Heap.Config, sizes: map<nat, nat>, p: nat, a: nat)
    requires p in sizes
    ensures InUse(c, sizes, a) <==> InUse(c, sizes - {p}, a) || p + c.align <= a < p + c.align + sizes[p]
  {
    var sizes' := sizes - {p};
    assert sizes'[p := sizes[p]] == sizes;
    InUseMore(c, sizes', p, sizes[p], a);
  }

  /** A marked byte of one block is not in use by another. */
  lemma NotInUse(c: Heap.Config, h: Heap.Heap, sizes: map<nat, nat>, p: nat, n: nat, a: nat)
    requires Heap.Inv(c, h) && p !in sizes && Holds(c, h, p, n) && p <= a < p + MarkedSize(c.align, n)
    requires forall q :: q in sizes ==> Holds(c, h, q, sizes[q])
    ensures !InUse(c, sizes, a)
  {
    hide Heap.Inv, MarkedSize, Holds;
    forall q | q in sizes
      ensures !(q + c.align <= a < q + c.align + sizes[q])
    {
      BlocksApart(c, h, p, n, q, sizes[q], a);
      PayloadInside(c, sizes[q]);
    }
  }

  lemma MarkedSizeAligned(c: Heap.Config, n: nat)
    requires HookConfig(c)
    ensures MarkedSize(c.align, n) % GRANULE == 0
  {
    SumAligned(c.align, RoundUp(n));
  }

  lemma SameByte(s: Shadow, s': Shadow, a: nat)
    requires a < |s| * GRANULE && |s'| == |s| && s'[a / GRANULE] == s[a / GRANULE]
    ensures Addressable(s', a) <==> Addressable(s, a)
  {}

  /** The effect of a marking on the shadow */
  ghost predicate MarkedAround(s: Shadow, s': Shadow, p: nat, size: nat, payload: nat, n: nat) {
    && p % GRANULE == 0 && size % GRANULE == 0 && |s'| == |s| && p + size <= |s| * GRANULE
    && (forall a :: p <= a < p + size ==> (Addressable(s', a) <==> payload <= a < payload + n))
    && (forall g :: 0 <= g < |s| && !(p <= g * GRANULE < p + size) ==> s'[g] == s[g])
  }

  lemma HookMarksAround(c: Heap.Config, h: Heap.Heap, s: Shadow, s': Shadow, p: nat, n: nat)
    requires HookConfig(c) && HookMarked(c, h, s, s', p + c.align, n) && p % GRANULE == 0
    ensures MarkedAround(s, s', p, MarkedSize(c.align, n), p + c.align, n)
  {
    hide Addressable, ValidShadow, Heap.IsLive;
    MarkedSizeAligned(c, n);
    hide MarkedSize;
  }

  lemma MarkedByte(s: Shadow, s': Shadow, p: nat, size: nat, payload: nat, n: nat, a: nat)
    requires MarkedAround(s, s', p, size, payload, n) && a < |s| * GRANULE
    ensures a / GRANULE < |s| == |s'|
    ensures if InArea((p, size), a) then Addressable(s', a) <==> payload <= a < payload + n
            else Addressable(s', a) <==> Addressable(s, a)
  {
    hide Addressable;
    GranuleInside(a, p, size);
    if !InArea((p, size), a) {
      SameByte(s, s', a);
    }
  }

  lemma MarkedKeepsExact(c: Heap.Config, h: Heap.Heap, s: Shadow, s': Shadow,
                         sizes: map<nat, nat>, marked: seq<(nat, nat)>, p: nat, n: nat)
    requires Heap.Inv(c, h) && HookConfig(c) && Exact(c, s, sizes, marked) && p !in sizes
    requires Blocks(c, h, sizes[p := n], marked + [(p, MarkedSize(c.align, n))])
    requires MarkedAround(s, s', p, MarkedSize(c.align, n), p + c.align, n)
    ensures |s'| == |s| && Exact(c, s', sizes[p := n], marked + [(p, MarkedSize(c.align, n))])
  {
    assert |s'| == |s|;
    hide Heap.Inv, MarkedSize, Holds, Addressable, InUse, WasMarked, HookConfig, MarkedAround, Blocks;
    var area := (p, MarkedSize(c.align, n));
    EachHolds(c, h, sizes, marked + [area], p, n);
    forall a: nat | a < |s'| * GRANULE
      ensures Addressable(s', a) <==> InUse(c, sizes[p := n], a) || !WasMarked(marked + [area], a)
    {
      MarkedByte(s, s', p, area.1, p + c.align, n, a);
      MarkedMore(marked, area, a);
      InUseMore(c, sizes, p, n, a);
      PayloadInside(c, n);
      if InArea(area, a) {
        NotInUse(c, h, sizes, p, n, a);
      }
    }
  }

  lemma EachHolds(c: Heap.Config, h: Heap.Heap, sizes: map<nat, nat>, marked: seq<(nat, nat)>, p: nat, n: nat)
    requires Blocks(c, h, sizes[p := n], marked) && p !in sizes
    ensures Holds(c, h, p, n) && forall q :: q in sizes ==> Holds(c, h, q, sizes[q])
  {
    hide Holds;
    var sizes' := sizes[p := n];
    assert p in sizes';
    forall q | q in sizes
      ensures Holds(c, h, q, sizes[q])
    {
      assert q in sizes' && sizes'[q] == sizes[q];
    }
  }

  lemma FreedByte(s: Shadow, payload: nat, n: nat, a: nat)
    requires payload % GRANULE == 0 && payload + RoundUp(n) <= |s| * GRANULE && a < |s| * GRANULE
    requires RoundUp(n) < UINT32_RANGE
    ensures |ShadowFreed(s, payload, n)| == |s|
    ensures if payload <= a < payload + RoundUp(n) then !Addressable(ShadowFreed(s, payload, n), a)
            else Addressable(ShadowFreed(s, payload, n), a) <==> Addressable(s, a)
  {
    hide RoundUp, ShadowFreed, Addressable;
    FreedAt(s, payload, n, a / GRANULE);
    GranuleInside(a, payload, RoundUp(n));
    ByteDecides(s, ShadowFreed(s, payload, n), a);
  }

  lemma FreedKeepsExact(c: Heap.Config, h: Heap.Heap, s: Shadow, sizes: map<nat, nat>, marked: seq<(nat, nat)>, p: nat)
    requires Heap.Inv(c, h) && Exact(c, s, sizes, marked) && Blocks(c, h, sizes, marked) && p in sizes
    requires (p + c.align) % GRANULE == 0 && p + c.align + RoundUp(sizes[p]) <= |s| * GRANULE
    requires RoundUp(sizes[p]) < UINT32_RANGE
    ensures Exact(c, ShadowFreed(s, p + c.align, sizes[p]), sizes - {p}, marked)
  {
    hide Heap.Inv, MarkedSize, Holds, Addressable, InUse, ShadowFreed, RoundUp;
    var n, s', area := sizes[p], ShadowFreed(s, p + c.align, sizes[p]), (p, MarkedSize(c.align, sizes[p]));
    PayloadInside(c, n);
    forall a: nat | a < |s'| * GRANULE
      ensures Addressable(s', a) <==> InUse(c, sizes - {p}, a) || !WasMarked(marked, a)
    {
      FreedByte(s, p + c.align, n, a);
      InUseLess(c, sizes, p, a);
      if p + c.align <= a < p + c.align + RoundUp(n) {
        NotInUse(c, h, sizes - {p}, p, n, a);
        assert area in marked && InArea(area, a);
      }
    }
  }

  lemma FreedKeepsValid(s: Shadow, payload: nat, n: nat)
    requires ValidShadow(s) && payload % GRANULE == 0 && payload + RoundUp(n) <= |s| * GRANULE
    ensures ValidShadow(ShadowFreed(s, payload, n)) && |ShadowFreed(s, payload, n)| == |s|
  {
    hide RoundUp, ShadowFreed;
    forall g | 0 <= g < |s|
      ensures ValidTag(ShadowFreed(s, payload, n)[g])
    {
      FreedAt(s, payload, n, g);
    }
  }

  /** What an allocation records: a new block with the size asked for, unless the heap gave none. */
  lemma AllocatedRecords(c: Heap.Config, s: System, n: nat)
    requires SysInv(c, s) && Allowed(c, s, Malloc(n))
    ensures var p := Heap.Allocate(c, s.heap, (n + 7) / 8 * 8 + c.align + 32).1; var s' := Allocated(c, s, n);
      if p == 0 then s'.sizes == s.sizes && s'.marked == s.marked && s'.shadow == s.shadow
      else
        && p !in s.sizes && s'.sizes == s.sizes[p := n]
        && s'.marked == s.marked + [(p, c.align + (n + 7) / 8 * 8 + 32)]
  {
    hide Heap.Inv, Heap.Allocate, TotalSize, ValidShadow, Holds, Exact, Heap.NoWrap, HookMarked, AllocateHook;
    HookIsAllocate(c, s.heap, s.shadow, n);
    HookAsks(c, s.heap, s.shadow, n);
    if Heap.Allocate(c, s.heap, (n + 7) / 8 * 8 + c.align + 32).1 != 0 {
      NewBlock(c, s, (n + 7) / 8 * 8 + c.align + 32);
    }
  }

  lemma NewBlock(c: Heap.Config, s: System, total: nat)
    requires SysInv(c, s) && Heap.Allocate(c, s.heap, total).1 != 0
    ensures Heap.Allocate(c, s.heap, total).1 !in s.sizes
  {
    hide Heap.Inv, Heap.Allocate, MarkedSize, ValidShadow, Exact;
    Heap.AllocateFrame(c, s.heap, total);
    Heap.HeapReady(c, s.heap);
  }

  /** Allocation keeps the account of the addressable bytes. */
  lemma AllocatedKeeps(c: Heap.Config, s: System, n: nat)
    requires SysInv(c, s) && Allowed(c, s, Malloc(n))
    ensures SysInv(c, Allocated(c, s, n))
  {
    hide Heap.Inv, Heap.Allocate, TotalSize, MarkedSize, ValidShadow, Holds, Heap.HandedOut, Blocks, Exact;
    hide HookConfig, AllocateHook, MarkedAround, Heap.NoWrap;
    var total := TotalSize(c.word, c.align, n);
    var (h', p) := Heap.Allocate(c, s.heap, total);
    HookIsAllocate(c, s.heap, s.shadow, n);
    HookMarksExactly(c, s.heap, s.shadow, n);
    Heap.AllocateFrame(c, s.heap, total);
    var (heap, shadow, payload) := AllocateHook(c, s.heap, s.shadow, n);
    if p == 0 {
      GivenUpKeepsBlocks(c, s.heap, s.sizes, s.marked);
    } else {
      HookReady(c, s.heap, n);
      HookMarksAround(c, h', s.shadow, shadow, p, n);
      hide HookMarked;
      TakenKeepsBlocks(c, s.heap, h', s.sizes, s.marked, p, n, total);
      MarkedKeepsExact(c, h', s.shadow, shadow, s.sizes, s.marked, p, n);
    }
  }

  lemma BlockAt(c: Heap.Config, h: Heap.Heap, sizes: map<nat, nat>, marked: seq<(nat, nat)>, p: nat)
    requires Blocks(c, h, sizes, marked) && p in sizes
    ensures p > 0 && Heap.IsLive(c, h, p)
  {
    hide MarkedSize;
    assert Holds(c, h, p, sizes[p]);
  }

  lemma FreedKeepsHeap(c: Heap.Config, s: System, payload: nat)
    requires SysInv(c, s) && MayFree(c, s, payload)
    ensures var s' := Freed(c, s, payload); Heap.Inv(c, s'.heap) && Blocks(c, s'.heap, s'.sizes, s'.marked)
  {
    hide Heap.Inv, Heap.Release, RoundUp, ShadowFreed, ValidShadow, Blocks, Exact, Heap.Released, HookConfig;
    var p := payload - c.align;
    BlockAt(c, s.heap, s.sizes, s.marked, p);
    Heap.ReleaseKeeps(c, s.heap, p);
    ReleasedKeepsBlocks(c, s.heap, Heap.Release(c, s.heap, p), s.sizes, s.marked, p);
  }

  lemma FreedKeepsShadow(c: Heap.Config, s: System, payload: nat)
    requires SysInv(c, s) && MayFree(c, s, payload)
    ensures var s' := Freed(c, s, payload);
      |s'.shadow| == |s.shadow| && ValidShadow(s'.shadow) && Exact(c, s'.shadow, s'.sizes, s'.marked)
  {
    hide Heap.Inv, Heap.Release, Heap.IsLive, RoundUp, ShadowFreed, ValidShadow, Blocks, Exact, HookConfig;
    var p := payload - c.align;
    assert p + c.align == payload;
    FreedKeepsExact(c, s.heap, s.shadow, s.sizes, s.marked, p);
    FreedKeepsValid(s.shadow, payload, s.sizes[p]);
  }

  /** So does the free hook. */
  lemma FreedKeeps(c: Heap.Config, s: System, payload: nat)
    requires SysInv(c, s) && Allowed(c, s, Mfree(payload))
    ensures MayFree(c, s, payload) && SysInv(c, Freed(c, s, payload))
  {
    hide Heap.Inv, Blocks, Exact, ValidShadow, HookConfig, MayFree, Freed;
    FreeHookReady(c, s, payload);
    FreedKeepsHeap(c, s, payload);
    FreedKeepsShadow(c, s, payload);
  }

  // ---------------------------------------------------------------- runs

  ghost function Step(c: Heap.Config, s: System, e: Event): (s': System)
    requires SysInv(c, s)
    ensures SysInv(c, s')
  {
    if !Allowed(c, s, e) then s
    else
      match e
      case Malloc(n) => AllocatedKeeps(c, s, n); Allocated(c, s, n)
      case Mfree(payload) => FreedKeeps(c, s, payload); Freed(c, s, payload)
  }

  /** A region of which every byte is addressable, as KasanInitialize leaves it */
  function Init(c: Heap.Config, reserve: nat, granules: nat): System
    requires c.base <= c.limit
  {
    System(Heap.Setup(c, reserve), seq(granules, _ => 0), map[], [])
  }

  lemma InitInv(c: Heap.Config, reserve: nat, granules: nat)
    requires Heap.ValidConfig(c) && HookConfig(c) && c.base + reserve <= c.limit <= granules * GRANULE
    ensures SysInv(c, Init(c, reserve, granules))
  {
    Heap.SetupInv(c, reserve);
    hide Heap.Inv;
  }

  ghost function Run(c: Heap.Config, reserve: nat, granules: nat, events: seq<Event>): (s: System)
    requires Heap.ValidConfig(c) && HookConfig(c) && c.base + reserve <= c.limit <= granules * GRANULE
    ensures SysInv(c, s)
  {
    if events == [] then InitInv(c, reserve, granules); Init(c, reserve, granules)
    else Step(c, Run(c, reserve, granules, events[..|events| - 1]), events[|events| - 1])
  }

  /** After every run exactly those bytes are addressable that were requested and not given back,
      and those that the allocation hook has never marked: nothing else is in a redzone. */
  lemma RunIsExact(c: Heap.Config, reserve: nat, granules: nat, events: seq<Event>, a: nat)
    requires Heap.ValidConfig(c) && HookConfig(c) && c.base + reserve <= c.limit <= granules * GRANULE
    requires var s := Run(c, reserve, granules, events); a < |s.shadow| * GRANULE
    ensures var s := Run(c, reserve, granules, events);
      Addressable(s.shadow, a) <==> InUse(c, s.sizes, a) || !WasMarked(s.marked, a)
  {
    hide Run, Heap.Inv, Addressable, InUse, WasMarked, Heap.ValidConfig;
  }

  /** The blocks in use are the live blocks of the heap. */
  lemma RunTracksBlocks(c: Heap.Config, reserve: nat, granules: nat, events: seq<Event>, p: nat)
    requires Heap.ValidConfig(c) && HookConfig(c) && c.base + reserve <= c.limit <= granules * GRANULE
    ensures var s := Run(c, reserve, granules, events); p in s.sizes <==> Heap.IsLive(c, s.heap, p)
  {
    var s := Run(c, reserve, granules, events);
    hide Run, Heap.Inv, Exact, Heap.ValidConfig, HookConfig;
    if p in s.sizes {
      BlockAt(c, s.heap, s.sizes, s.marked, p);
    }
  }

  /** An input for the second kind of addressable bytes: the shadow starts out open. */
  lemma FreshByte(c: Heap.Config, reserve: nat, granules: nat)
    requires Heap.ValidConfig(c) && HookConfig(c) && c.base + reserve <= c.limit <= granules * GRANULE
    requires c.base < c.limit
    ensures var s := Run(c, reserve, granules, []);
      c.base / GRANULE < |s.shadow| && Addressable(s.shadow, c.base) && !InUse(c, s.sizes, c.base)
  {
    hide Heap.Inv, Heap.ValidConfig;
  }

  /** After every run: when a payload is given back, all of its bytes are poisoned. */
  lemma RunFindsUseAfterFree(c: Heap.Config, reserve: nat, granules: nat, events: seq<Event>, payload: nat, a: nat)
    requires Heap.ValidConfig(c) && HookConfig(c) && c.base + reserve <= c.limit <= granules * GRANULE
    requires Allowed(c, Run(c, reserve, granules, events), Mfree(payload))
    requires PayloadByte(c, Run(c, reserve, granules, events), payload, a)
    ensures var s' := Run(c, reserve, granules, events + [Mfree(payload)]);
      a / GRANULE < |s'.shadow| && !Addressable(s'.shadow, a)
  {
    var s := Run(c, reserve, granules, events);
    assert (events + [Mfree(payload)])[..|events|] == events;
    assert Run(c, reserve, granules, events + [Mfree(payload)]) == Step(c, s, Mfree(payload));
    hide Run, SysInv, Heap.ValidConfig, HookConfig, Addressable, Allowed, Freed;
    FreeHookReady(c, s, payload);
    FreedPoisons(c, s, payload, a);
  }

  predicate PayloadByte(c: Heap.Config, s: System, payload: nat, a: nat) {
    payload >= c.align && payload - c.align in s.sizes && payload <= a < payload + s.sizes[payload - c.align]
  }

  lemma FreedPoisons(c: Heap.Config, s: System, payload: nat, a: nat)
    requires MayFree(c, s, payload) && PayloadByte(c, s, payload, a)
    ensures var s' := Freed(c, s, payload); a / GRANULE < |s'.shadow| && !Addressable(s'.shadow, a)
  {
    hide Heap.Release, Heap.IsLive, ShadowFreed, Addressable, RoundUp;
    FreedByte(s.shadow, payload, s.sizes[payload - c.align], a);
  }
}
