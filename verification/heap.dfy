/**
 The heap allocator (circle/lib/heapallocator.cpp): a pointer that only moves up through a
 flat region, and one free list per bucket size, linked through the block headers.
*/
module HeapSpec {
  import opened Basics

  const ALLOC_MAGIC := 0x424C4D41
  const FREE_MAGIC := 0x424C4D46

  /** word is the range of an address and of size_t, align is HEAP_BLOCK_ALIGN and the size of a
      block header, sizes are the bucket sizes without the terminating zero. */
  datatype Config = Config(word: nat, align: nat, sizes: seq<nat>, base: nat, limit: nat)

  datatype Header = Header(magic: nat, size: nat, next: nat)

  /** What a block is used for: history, the allocator does not store it. */
  datatype Use = Live(request: nat) | Free(bucket: nat) | Lost

  datatype Heap = Heap(
    // allocator
    next: nat, reserve: nat, heads: seq<nat>,
    // memory
    headers: map<nat, Header>, mem: seq<uint8>,
    // history: blocks in the order of their addresses, their ends and use, the free lists
    blocks: seq<nat>, ends: map<nat, nat>, use: map<nat, Use>, chains: seq<seq<nat>>)

  ghost predicate ValidConfig(c: Config) {
    && 16 <= c.align && Aligned(c.word, c.align) && c.word >= UINT32_RANGE && Aligned(c.word, UINT32_RANGE)
    && 0 < c.base <= c.limit < c.word && Aligned(c.base, c.align)
    && (forall i :: 0 <= i < |c.sizes| ==> 0 < c.sizes[i] && c.sizes[i] + 2 * c.align <= UINT32_RANGE)
    && 2 * c.align <= UINT32_RANGE
    && (forall i, j :: 0 <= i < j < |c.sizes| ==> c.sizes[i] < c.sizes[j])
  }

  predicate Aligned(a: int, align: nat)
    requires align > 0
  {
    a % align == 0
  }

  /** Conversion to the u32 field nSize of the header */
  function U32(x: nat): (r: nat) {
    x % UINT32_RANGE
  }

  // ---------------------------------------------------------------- invariant

  function Capacity(c: Config, h: Heap, b: nat): int
    requires b in h.ends
  {
    h.ends[b] - b - c.align
  }

  /** The region from base to next is tiled by the blocks. */
  ghost predicate Tiled(base: nat, align: nat, next: nat, blocks: seq<nat>, ends: map<nat, nat>)
    requires align > 0
  {
    && (forall i :: 0 <= i < |blocks| ==> blocks[i] in ends && Aligned(blocks[i], align))
    && (forall b :: b in ends ==> b in blocks && base <= b && b + align <= ends[b])
    && (|blocks| == 0 ==> next == base)
    && (|blocks| > 0 ==> blocks[0] == base && ends[blocks[|blocks| - 1]] == next)
    && (forall i :: 0 <= i < |blocks| - 1 ==> ends[blocks[i]] == blocks[i + 1])
  }

  ghost predicate Tiling(c: Config, h: Heap)
    requires c.align > 0
  {
    && c.base <= h.next && h.next + h.reserve <= c.limit && Aligned(h.next, c.align)
    && |h.mem| == c.limit - c.base
    && Tiled(c.base, c.align, h.next, h.blocks, h.ends)
  }

  /** The recorded size exceeds the payload: the request overflowed the size computation. */
  predicate Hollow(c: Config, h: Heap, b: nat)
    requires b in h.ends && b in h.headers
  {
    h.headers[b].size > Capacity(c, h, b)
  }

  ghost predicate BlockInv(c: Config, h: Heap, b: nat)
    requires b in h.ends && b in h.headers && b in h.use
  {
    && h.headers[b].size < UINT32_RANGE
    && (Hollow(c, h, b) ==> Capacity(c, h, b) == 0 && h.headers[b].size + 2 * c.align > UINT32_RANGE)
    && match h.use[b] {
         case Live(request) =>
           && h.headers[b].magic == ALLOC_MAGIC
           && (if Hollow(c, h, b) then request > 0 else request <= Capacity(c, h, b))
           && (request < UINT32_RANGE ==> request <= h.headers[b].size)
         case Free(i) =>
           && h.headers[b].magic == FREE_MAGIC
           && i < |c.sizes| && h.headers[b].size == c.sizes[i]
         case Lost =>
           && h.headers[b].magic == FREE_MAGIC
           && h.headers[b].size !in c.sizes
       }
  }

  ghost predicate Blocks(c: Config, h: Heap) {
    && h.headers.Keys == h.ends.Keys && h.use.Keys == h.ends.Keys
    && forall b :: b in h.ends ==> BlockInv(c, h, b)
  }

  function Link(chain: seq<nat>, k: nat): nat {
    if k < |chain| then chain[k] else 0
  }

  /** The free list of a bucket: linked through the headers, without repetition. */
  ghost predicate ChainInv(h: Heap, i: nat)
    requires i < |h.chains| == |h.heads|
  {
    var chain := h.chains[i];
    && h.heads[i] == Link(chain, 0)
    && (forall k :: 0 <= k < |chain| ==> chain[k] in h.headers && chain[k] in h.use && h.use[chain[k]] == Free(i))
    && (forall k :: 0 <= k < |chain| ==> h.headers[chain[k]].next == Link(chain, k + 1))
    && (forall k, l :: 0 <= k < l < |chain| ==> chain[k] != chain[l])
  }

  ghost predicate Chains(c: Config, h: Heap) {
    && |h.heads| == |h.chains| == |c.sizes|
    && (forall i :: 0 <= i < |c.sizes| ==> ChainInv(h, i))
    && (forall b :: b in h.use && h.use[b].Free? ==> h.use[b].bucket < |c.sizes| && b in h.chains[h.use[b].bucket])
  }

  ghost predicate Inv(c: Config, h: Heap) {
    ValidConfig(c) && Tiling(c, h) && Blocks(c, h) && Chains(c, h)
  }

  // ---------------------------------------------------------------- operations

  function Setup(c: Config, reserve: nat): Heap
    requires c.base <= c.limit
  {
    Heap(c.base, reserve, seq(|c.sizes|, _ => 0), map[], seq(c.limit - c.base, _ => 0),
         [], map[], map[], seq(|c.sizes|, _ => []))
  }

  /** First bucket from i on that is large enough, or the number of buckets */
  function FindFit(sizes: seq<nat>, n: nat, i: nat): (r: nat)
    requires i <= |sizes|
    ensures i <= r <= |sizes|
    ensures forall j :: i <= j < r ==> sizes[j] < n
    ensures r < |sizes| ==> n <= sizes[r]
    decreases |sizes| - i
  {
    if i == |sizes| || n <= sizes[i] then i else FindFit(sizes, n, i + 1)
  }

  function FitSize(c: Config, n: nat): (size: nat)
    ensures n <= size
  {
    var i := FindFit(c.sizes, n, 0);
    if i < |c.sizes| then c.sizes[i] else n
  }

  function RoundDown(x: nat, align: nat): (r: nat)
    requires align > 0
  {
    x / align * align
  }

  /** Address behind a new block at m_pNext, computed as in the source modulo the word size */
  function BlockEnd(word: nat, align: nat, next: nat, size: nat): nat
    requires align > 0 && word > 0
  {
    (next + RoundDown((align + size + align - 1) % word, align)) % word
  }

  function NextBlock(c: Config, next: nat, size: nat): nat
    requires c.align > 0 && c.word > 0
  {
    BlockEnd(c.word, c.align, next, size)
  }

  /** The block is handed out: header fields and history */
  function Take(h: Heap, b: nat, size: nat, n: nat): Heap {
    h.(headers := h.headers[b := Header(ALLOC_MAGIC, size, 0)], use := h.use[b := Live(n)])
  }

  /** The first block of a free list */
  function TakeFree(h: Heap, i: nat, n: nat): Heap
    requires i < |h.heads| == |h.chains| && h.heads[i] in h.headers && h.chains[i] != []
  {
    var b := h.heads[i];
    Take(h, b, h.headers[b].size, n).(
      heads := h.heads[i := h.headers[b].next], chains := h.chains[i := h.chains[i][1..]])
  }

  function TakeNew(h: Heap, nextBlock: nat, size: nat, n: nat): Heap {
    Take(h, h.next, U32(size), n).(
      next := nextBlock, blocks := h.blocks + [h.next], ends := h.ends[h.next := nextBlock])
  }

  predicate IsLive(c: Config, h: Heap, p: nat) {
    p >= c.align && p - c.align in h.use && h.use[p - c.align].Live?
  }

  function FindSize(sizes: seq<nat>, size: nat, i: nat): (r: nat)
    requires i <= |sizes|
    ensures i <= r <= |sizes|
    ensures forall j :: i <= j < r ==> sizes[j] != size
    ensures r < |sizes| ==> sizes[r] == size
    decreases |sizes| - i
  {
    if i == |sizes| || sizes[i] == size then i else FindSize(sizes, size, i + 1)
  }

  /** DoFree; the source asserts that the block is allocated. */
  function Release(c: Config, h: Heap, p: nat): Heap
    requires |h.heads| == |h.chains| == |c.sizes|
    requires p == 0 || (IsLive(c, h, p) && p - c.align in h.headers)
  {
    if p == 0 then h
    else
      var b := p - c.align;
      var header := h.headers[b].(magic := FREE_MAGIC);
      var i := FindSize(c.sizes, header.size, 0);
      if i < |c.sizes| then
        h.(headers := h.headers[b := header.(next := h.heads[i])], heads := h.heads[i := b],
           use := h.use[b := Free(i)], chains := h.chains[i := [b] + h.chains[i]])
      else
        h.(headers := h.headers[b := header], use := h.use[b := Lost])
  }

  // ---------------------------------------------------------------- blocks

  lemma {:induction false} BlockOrder(base: nat, align: nat, next: nat, blocks: seq<nat>, ends: map<nat, nat>,
                                      i: nat, j: nat)
    requires align > 0 && Tiled(base, align, next, blocks, ends) && i < j < |blocks|
    ensures ends[blocks[i]] <= blocks[j]
    decreases j
  {
    if j > i + 1 {
      BlockOrder(base, align, next, blocks, ends, i, j - 1);
      assert blocks[j - 1] in ends;
    }
  }

  /** Two blocks do not overlap. */
  lemma BlocksDisjoint(c: Config, h: Heap, b: nat, d: nat)
    requires c.align > 0 && Tiling(c, h) && b in h.ends && d in h.ends && b < d
    ensures h.ends[b] <= d
  {
    var i :| 0 <= i < |h.blocks| && h.blocks[i] == b;
    var j :| 0 <= j < |h.blocks| && h.blocks[j] == d;
    if i < j {
      BlockOrder(c.base, c.align, h.next, h.blocks, h.ends, i, j);
    } else if j < i {
      BlockOrder(c.base, c.align, h.next, h.blocks, h.ends, j, i);
    }
  }

  lemma BlockBelowNext(base: nat, align: nat, next: nat, blocks: seq<nat>, ends: map<nat, nat>, b: nat)
    requires align > 0 && Tiled(base, align, next, blocks, ends) && b in ends
    ensures ends[b] <= next
  {
    var i :| 0 <= i < |blocks| && blocks[i] == b;
    if i < |blocks| - 1 {
      BlockOrder(base, align, next, blocks, ends, i, |blocks| - 1);
      assert blocks[|blocks| - 1] in ends;
    }
  }

  /** Every address below the pointer belongs to a block. */
  lemma {:induction false} BlocksCover(c: Config, h: Heap, a: nat, n: nat) returns (b: nat)
    requires c.align > 0 && Tiling(c, h) && 0 < n <= |h.blocks| && c.base <= a < h.ends[h.blocks[n - 1]]
    ensures b in h.ends && b <= a < h.ends[b]
    decreases n
  {
    b := h.blocks[n - 1];
    if a < b {
      b := BlocksCover(c, h, a, n - 1);
    }
  }

  // ---------------------------------------------------------------- allocation

  /** When the size computation does not wrap, a new block holds its payload. */
  lemma NextBlockFits(c: Config, next: nat, size: nat)
    requires ValidConfig(c) && next < c.word && Aligned(next, c.align)
    requires size + 2 * c.align - 1 < c.word && NextBlock(c, next, size) > next
    ensures var e := NextBlock(c, next, size); Aligned(e, c.align) && next + c.align + size <= e
  {
    var x := 2 * c.align + size - 1;
    SmallModulo(x, c.word);
    var r := RoundDown(x, c.align);
    RoundedDown(x, c.align);
    if next + r < c.word {
      SmallModulo(next + r, c.word);
      SumOfMultiples(next, r, c.align);
    } else {
      DivModUnique(next + r, 1, next + r - c.word, c.word);
    }
  }

  lemma SmallModulo(x: nat, n: nat)
    requires x < n
    ensures x % n == x
  {}

  lemma RoundedDown(x: nat, align: nat)
    requires align > 0
    ensures var r := RoundDown(x, align); x - align < r <= x && r % align == 0
  {
    DivModUnique(RoundDown(x, align), x / align, 0, align);
  }

  lemma SumOfMultiples(a: nat, b: nat, n: nat)
    requires n > 0 && a % n == 0 && b % n == 0
    ensures (a + b) % n == 0
  {
    assert (a / n + b / n) * n == a / n * n + b / n * n;
    DivModUnique(a + b, a / n + b / n, 0, n);
  }

  /** The request does not overflow the size computation. */
  predicate NoWrap(c: Config, n: nat) {
    n + 2 * c.align - 1 < c.word
  }

  lemma HeadIsFree(c: Config, h: Heap, i: nat)
    requires Inv(c, h) && i < |h.heads| && h.heads[i] != 0
    ensures h.chains[i] != [] && h.heads[i] == h.chains[i][0]
    ensures h.heads[i] in h.ends && h.use[h.heads[i]] == Free(i)
  {
    assert ChainInv(h, i);
  }

  lemma ChainWithoutHead(h: Heap, h': Heap, i: nat)
    requires i < |h.chains| == |h.heads| && ChainInv(h, i) && h.chains[i] != []
    requires |h'.chains| == |h'.heads| == |h.heads|
    requires h'.chains[i] == h.chains[i][1..] && h'.heads[i] == h.headers[h.chains[i][0]].next
    requires forall b :: b in h.headers && b != h.chains[i][0] ==> b in h'.headers && h'.headers[b] == h.headers[b]
    requires forall b :: b in h.use && b != h.chains[i][0] ==> b in h'.use && h'.use[b] == h.use[b]
    ensures ChainInv(h', i)
  {
    var chain := h.chains[i];
    forall k | 0 <= k < |h'.chains[i]|
      ensures h'.chains[i][k] == chain[k + 1] && chain[k + 1] != chain[0]
      ensures Link(chain[1..], k + 1) == Link(chain, k + 2)
    {}
    assert Link(chain, 1) == Link(chain[1..], 0);
  }

  /** A free list that does not contain the block stays as it is. */
  lemma OtherChain(h: Heap, h': Heap, i: nat, b: nat)
    requires i < |h.chains| == |h.heads| && ChainInv(h, i)
    requires |h'.chains| == |h'.heads| == |h.heads|
    requires h'.chains[i] == h.chains[i] && h'.heads[i] == h.heads[i]
    requires b in h.use ==> h.use[b] != Free(i)
    requires forall d :: d in h.headers && d != b ==> d in h'.headers && h'.headers[d] == h.headers[d]
    requires forall d :: d in h.use && d != b ==> d in h'.use && h'.use[d] == h.use[d]
    ensures ChainInv(h', i)
  {
    var chain := h.chains[i];
    forall k | 0 <= k < |chain|
      ensures chain[k] != b
    {}
  }

  /** A block whose own part of the invariant holds fits in with the unchanged others. */
  lemma BlocksBut(c: Config, h: Heap, h': Heap, b: nat)
    requires Blocks(c, h)
    requires h'.ends.Keys == h'.headers.Keys == h'.use.Keys == h.ends.Keys + {b}
    requires forall d :: d in h.ends && d != b ==>
      h'.ends[d] == h.ends[d] && h'.headers[d] == h.headers[d] && h'.use[d] == h.use[d]
    requires BlockInv(c, h', b)
    ensures Blocks(c, h')
  {
    forall d | d in h'.ends
      ensures BlockInv(c, h', d)
    {
      if d != b {
        assert BlockInv(c, h, d);
      }
    }
  }

  lemma TakeFreeChains(c: Config, h: Heap, i: nat, n: nat)
    requires Chains(c, h) && i < |c.sizes| && h.heads[i] != 0
    ensures h.heads[i] in h.headers && h.chains[i] != []
    ensures Chains(c, TakeFree(h, i, n))
  {
    assert ChainInv(h, i);
    var b := h.heads[i];
    var h' := TakeFree(h, i, n);
    forall j | 0 <= j < |c.sizes|
      ensures ChainInv(h', j)
    {
      assert ChainInv(h, j);
      if j == i {
        ChainWithoutHead(h, h', j);
      } else {
        OtherChain(h, h', j, b);
      }
    }
    hide ChainInv;
    forall d | d in h'.use && h'.use[d].Free?
      ensures h'.use[d].bucket < |c.sizes| && d in h'.chains[h'.use[d].bucket]
    {
      assert h.use[d] == h'.use[d];
      if h.use[d] == Free(i) {
        var k :| 0 <= k < |h.chains[i]| && h.chains[i][k] == d;
        assert h'.chains[i][k - 1] == d;
      }
    }
  }

  /** Taking the head of a free list: the block becomes live with its old size. */
  lemma TakeFreeKeeps(c: Config, h: Heap, i: nat, n: nat)
    requires Inv(c, h) && i < |c.sizes| && h.heads[i] != 0 && n <= c.sizes[i]
    ensures h.heads[i] in h.headers && h.chains[i] != []
    ensures Inv(c, TakeFree(h, i, n))
  {
    HeadIsFree(c, h, i);
    TakeFreeChains(c, h, i, n);
    hide Chains, ValidConfig, Tiled;
    var b := h.heads[i];
    var h' := TakeFree(h, i, n);
    assert BlockInv(c, h, b);
    assert BlockInv(c, h', b);
    hide BlockInv;
    BlocksBut(c, h, h', b);
  }

  /** A new block at the pointer: the tiling grows by it. */
  lemma TiledGrows(base: nat, align: nat, next: nat, blocks: seq<nat>, ends: map<nat, nat>, nextBlock: nat)
    requires align > 0 && Tiled(base, align, next, blocks, ends)
    requires base <= next && Aligned(next, align) && next + align <= nextBlock
    ensures next !in ends
    ensures Tiled(base, align, nextBlock, blocks + [next], ends[next := nextBlock])
  {
    hide Aligned;
    if next in ends {
      BlockBelowNext(base, align, next, blocks, ends, next);
    }
    var blocks' := blocks + [next];
    assert blocks'[|blocks|] == next;
    forall b | b in ends
      ensures b in blocks'
    {}
  }

  lemma TakeNewBlock(c: Config, h: Heap, nextBlock: nat, size: nat, n: nat)
    requires ValidConfig(c) && n <= size < c.word && (size == n || size + 2 * c.align <= UINT32_RANGE)
    requires NewBlockOk(c, h.next, nextBlock, size)
    ensures var h' := TakeNew(h, nextBlock, size, n); BlockInv(c, h', h.next)
  {
    hide Aligned;
    SmallSize(size);
    if !NoWrap(c, size) {
      WrappedRecord(c, size);
    }
  }

  /** A new block holds the size computed for it, or it is nothing but its header because the
      computation has wrapped. */
  predicate NewBlockOk(c: Config, next: nat, nextBlock: nat, size: nat) {
    if NoWrap(c, size) then next + c.align + size <= nextBlock else nextBlock == next + c.align
  }

  lemma WrappedRecord(c: Config, n: nat)
    requires ValidConfig(c) && n < c.word && !NoWrap(c, n)
    ensures n > 0 && U32(n) + 2 * c.align > UINT32_RANGE
  {
    var k := c.word / UINT32_RANGE;
    DivModUnique(n, k - 1, n - (k - 1) * UINT32_RANGE, UINT32_RANGE);
  }

  lemma TakeNewKeeps(c: Config, h: Heap, nextBlock: nat, size: nat, n: nat)
    requires Inv(c, h) && n <= size < c.word && (size == n || size + 2 * c.align <= UINT32_RANGE)
    requires c.align > 0
    requires NewBlockOk(c, h.next, nextBlock, size) && nextBlock <= c.limit - h.reserve && Aligned(nextBlock, c.align)
    ensures Inv(c, TakeNew(h, nextBlock, size, n))
  {
    hide Aligned, U32, ValidConfig, BlockInv, Tiled;
    TiledGrows(c.base, c.align, h.next, h.blocks, h.ends, nextBlock);
    TakeNewBlock(c, h, nextBlock, size, n);
    var h' := TakeNew(h, nextBlock, size, n);
    BlocksBut(c, h, h', h.next);
    forall i | 0 <= i < |c.sizes|
      ensures ChainInv(h', i)
    {
      assert ChainInv(h, i);
      OtherChain(h, h', i, h.next);
    }
    hide ChainInv;
  }

  lemma SmallSize(size: nat)
    ensures U32(size) <= size && U32(size) < UINT32_RANGE
    ensures size < UINT32_RANGE ==> U32(size) == size
  {}

  // ---------------------------------------------------------------- DoAllocate

  /** DoAllocate: the new state and the address of the payload, 0 if there is none */
  function Allocate(c: Config, h: Heap, n: nat): (Heap, nat)
    requires Inv(c, h)
  {
    var i := FindFit(c.sizes, n, 0);
    if i < |c.sizes| && h.heads[i] != 0 then
      TakeFreeKeeps(c, h, i, n);
      (TakeFree(h, i, n), h.heads[i] + c.align)
    else
      AllocateNew(c, h, n)
  }

  /** DoAllocate without a block on a free list */
  function AllocateNew(c: Config, h: Heap, n: nat): (Heap, nat)
    requires c.align > 0 && c.word > 0
  {
    var size := FitSize(c, n);
    var nextBlock := NextBlock(c, h.next, size);
    if nextBlock <= h.next || nextBlock > c.limit - h.reserve then (h.(reserve := 0), 0)
    else (TakeNew(h, nextBlock, size, n), h.next + c.align)
  }

  /** The fields and headers the operations follow are there. */
  lemma HeapReady(c: Config, h: Heap)
    requires Inv(c, h)
    ensures c.align > 0 && c.word > 0 && 0 < h.next && h.next + h.reserve <= c.limit
    ensures |h.heads| == |h.chains| == |c.sizes| && h.headers.Keys == h.use.Keys
    ensures forall i :: 0 <= i < |c.sizes| && h.heads[i] != 0 ==>
              h.heads[i] in h.headers && h.chains[i] != []
  {
    forall i | 0 <= i < |c.sizes| && h.heads[i] != 0
      ensures h.heads[i] in h.headers && h.chains[i] != []
    {
      HeadIsFree(c, h, i);
    }
  }

  lemma FitSizeNoWrap(c: Config, n: nat)
    requires ValidConfig(c)
    ensures NoWrap(c, n) <==> NoWrap(c, FitSize(c, n))
    ensures FitSize(c, n) == n || FitSize(c, n) + 2 * c.align <= UINT32_RANGE
  {}

  /** Every request keeps the heap in order, also one that overflows the size computation. */
  lemma AllocateKeeps(c: Config, h: Heap, n: nat)
    requires Inv(c, h) && n < c.word
    ensures Inv(c, Allocate(c, h, n).0)
  {
    var i := FindFit(c.sizes, n, 0);
    if i < |c.sizes| && h.heads[i] != 0 {
      TakeFreeKeeps(c, h, i, n);
    } else {
      FitSizeNoWrap(c, n);
      var size := FitSize(c, n);
      var nextBlock := NextBlock(c, h.next, size);
      if nextBlock <= h.next || nextBlock > c.limit - h.reserve {
        SameButReserve(c, h);
      } else {
        NewBlockIsOk(c, h.next, size);
        TakeNewKeeps(c, h, nextBlock, size, n);
      }
    }
  }

  lemma NewBlockIsOk(c: Config, next: nat, size: nat)
    requires ValidConfig(c) && next < c.word && Aligned(next, c.align) && size < c.word
    requires NextBlock(c, next, size) > next
    ensures var e := NextBlock(c, next, size); NewBlockOk(c, next, e, size) && Aligned(e, c.align)
  {
    hide NextBlock;
    if NoWrap(c, size) {
      NextBlockFits(c, next, size);
    } else {
      WrappedSize(c, next, size);
      hide Aligned;
      AlignedNext(next, c.align);
    }
  }

  lemma SameButReserve(c: Config, h: Heap)
    requires Inv(c, h)
    ensures Inv(c, h.(reserve := 0))
  {
    var h' := h.(reserve := 0);
    forall b | b in h.ends
      ensures BlockInv(c, h', b)
    {
      assert BlockInv(c, h, b);
    }
    forall i | 0 <= i < |c.sizes|
      ensures ChainInv(h', i)
    {
      assert ChainInv(h, i);
    }
  }

  /** A live payload is aligned and ends below the reserve. It is at least as large as requested
      if and only if the block is not hollow. */
  lemma LivePayload(c: Config, h: Heap, b: nat)
    requires Inv(c, h) && b in h.use && h.use[b].Live?
    ensures b in h.ends && b in h.headers && c.base <= b && Aligned(b + c.align, c.align)
    ensures b + c.align <= h.ends[b] <= h.next <= c.limit - h.reserve
    ensures b + c.align + h.use[b].request <= h.ends[b] <==> !Hollow(c, h, b)
  {
    hide Chains;
    assert BlockInv(c, h, b);
    BlockBelowNext(c.base, c.align, h.next, h.blocks, h.ends, b);
    var k :| 0 <= k < |h.blocks| && h.blocks[k] == b;
    AlignedNext(b, c.align);
  }

  lemma AlignedNext(b: nat, align: nat)
    requires align > 0 && Aligned(b, align)
    ensures Aligned(b + align, align)
  {
    assert (b / align + 1) * align == b / align * align + align;
    DivModUnique(b + align, b / align + 1, 0, align);
  }

  /** Block b was not live and is now; neither the payloads nor any other block changed. */
  ghost predicate HandedOut(h: Heap, h': Heap, b: nat, n: nat) {
    && b in h'.ends && b in h'.headers && h'.mem == h.mem
    && (b in h.use ==> !h.use[b].Live?)
    && h'.use == h.use[b := Live(n)]
    && h'.headers == h.headers[b := h'.headers[b]] && h'.ends == h.ends[b := h'.ends[b]]
  }

  /** DoAllocate hands out one block, or it gives up the reserve and changes nothing else. */
  lemma AllocateFrame(c: Config, h: Heap, n: nat)
    requires Inv(c, h)
    ensures var (h', p) := Allocate(c, h, n);
      if p == 0 then h' == h.(reserve := 0) else p >= c.align && HandedOut(h, h', p - c.align, n)
  {
    hide Inv, FindFit, FitSize, NextBlock, HandedOut;
    HeapReady(c, h);
    var i := FindFit(c.sizes, n, 0);
    if i < |c.sizes| && h.heads[i] != 0 {
      TakeFreeFrame(c, h, i, n);
    } else {
      TakeNewFrame(c, h, NextBlock(c, h.next, FitSize(c, n)), FitSize(c, n), n);
    }
  }

  lemma TakeFreeFrame(c: Config, h: Heap, i: nat, n: nat)
    requires Inv(c, h) && i < |c.sizes| && h.heads[i] != 0 && n <= c.sizes[i]
    ensures h.heads[i] in h.headers && h.chains[i] != []
    ensures HandedOut(h, TakeFree(h, i, n), h.heads[i], n)
  {
    HeadIsFree(c, h, i);
    hide Chains, BlockInv, Tiled;
  }

  lemma TakeNewFrame(c: Config, h: Heap, nextBlock: nat, size: nat, n: nat)
    requires Inv(c, h)
    ensures HandedOut(h, TakeNew(h, nextBlock, size, n), h.next, n)
  {
    if h.next in h.ends {
      BlockBelowNext(c.base, c.align, h.next, h.blocks, h.ends, h.next);
    }
    hide Chains, BlockInv, Tiled;
  }

  /** The payload at p holds n bytes if and only if the size computation does not wrap for n. */
  ghost predicate Covers(c: Config, h: Heap, p: nat, n: nat) {
    && p >= c.align && p - c.align in h.ends && p - c.align in h.headers
    && (n <= Capacity(c, h, p - c.align) <==> NoWrap(c, n))
    && (!NoWrap(c, n) ==> Capacity(c, h, p - c.align) == 0)
    && (Hollow(c, h, p - c.align) <==> !NoWrap(c, n))
  }

  /** The exact condition for a payload of the requested size: the size computation in
      DoAllocate does not wrap. Otherwise the new block is nothing but its header. */
  lemma CoversRequestExactly(c: Config, h: Heap, n: nat)
    requires Inv(c, h) && n < c.word
    requires Allocate(c, h, n).1 != 0
    ensures var (h', p) := Allocate(c, h, n); Covers(c, h', p, n)
  {
    hide Inv, Hollow;
    if NoWrap(c, n) {
      HandedOutWhole(c, h, n);
      AllocateKeeps(c, h, n);
      AllocateFrame(c, h, n);
      hide Allocate, NoWrap;
      var (h', p) := Allocate(c, h, n);
      LivePayload(c, h', p - c.align);
    } else {
      WrappedIsNew(c, h, n);
      WrappedSize(c, h.next, n);
      WrappedRecord(c, n);
      HollowMeans(c, Allocate(c, h, n).0, h.next);
    }
  }

  /** Bucket i is the smallest one for n bytes. */
  ghost predicate Bucket(sizes: seq<nat>, n: nat, i: int) {
    0 <= i < |sizes| && n <= sizes[i] && forall j :: 0 <= j < i ==> sizes[j] < n
  }

  ghost predicate NoBucket(sizes: seq<nat>, n: nat) {
    forall j :: 0 <= j < |sizes| ==> sizes[j] < n
  }

  lemma BucketIsFit(sizes: seq<nat>, n: nat)
    ensures forall i :: Bucket(sizes, n, i) ==> FindFit(sizes, n, 0) == i < |sizes|
    ensures NoBucket(sizes, n) <==> FindFit(sizes, n, 0) == |sizes|
  {}

  /** The header of the block handed out for n bytes has the size of the smallest bucket that fits,
      and the block holds that many bytes. Without such a bucket the header has the low 32 bits of n. */
  ghost predicate Recorded(c: Config, h: Heap, p: nat, n: nat) {
    && p >= c.align && p - c.align in h.ends && p - c.align in h.headers
    && (forall i :: Bucket(c.sizes, n, i) ==>
          h.headers[p - c.align].size == c.sizes[i] && c.sizes[i] <= Capacity(c, h, p - c.align))
    && (NoBucket(c.sizes, n) ==> h.headers[p - c.align].size == n % UINT32_RANGE)
  }

  lemma AllocateSize(c: Config, h: Heap, n: nat)
    requires Inv(c, h) && Allocate(c, h, n).1 != 0
    ensures var (h', p) := Allocate(c, h, n); var i := FindFit(c.sizes, n, 0);
      && p >= c.align && p - c.align in h'.headers
      && h'.headers[p - c.align].size == if i < |c.sizes| then U32(c.sizes[i]) else U32(n)
  {
    HeapReady(c, h);
    var i := FindFit(c.sizes, n, 0);
    if i < |c.sizes| && h.heads[i] != 0 {
      HeadReady(c, h, i);
      BucketNoWrap(c, n);
      SmallSize(c.sizes[i]);
    }
    hide Inv, FindFit, NextBlock, U32;
  }

  /** Every allocation is rounded up to its bucket, from a free list or new. */
  lemma AllocateRecords(c: Config, h: Heap, n: nat)
    requires Inv(c, h) && n < c.word && Allocate(c, h, n).1 != 0
    ensures var (h', p) := Allocate(c, h, n); Recorded(c, h', p, n)
  {
    hide Inv, FindFit, Allocate, NoWrap, HandedOut;
    NextInRegion(c, h);
    AllocateSize(c, h, n);
    var i := FindFit(c.sizes, n, 0);
    var (h', p) := Allocate(c, h, n);
    assert p - c.align in h'.ends by {
      AllocateFrame(c, h, n);
      HandedOutMeans(h, h', p - c.align, n);
    }
    if i < |c.sizes| {
      BucketNoWrap(c, n);
      SmallSize(c.sizes[i]);
      HandedOutWhole(c, h, n);
    }
    RecordedFrom(c, h', p, n);
  }

  lemma HandedOutMeans(h: Heap, h': Heap, b: nat, n: nat)
    requires HandedOut(h, h', b, n)
    ensures b in h'.ends && b in h'.headers
  {}

  lemma RecordedFrom(c: Config, h: Heap, p: nat, n: nat)
    requires p >= c.align && p - c.align in h.ends && p - c.align in h.headers
    requires var i := FindFit(c.sizes, n, 0); var size := h.headers[p - c.align].size;
      if i < |c.sizes| then size == c.sizes[i] && !Hollow(c, h, p - c.align) else size == U32(n)
    ensures Recorded(c, h, p, n)
  {
    BucketIsFit(c.sizes, n);
    hide FindFit;
  }

  lemma BucketNoWrap(c: Config, n: nat)
    requires ValidConfig(c) && FindFit(c.sizes, n, 0) < |c.sizes|
    ensures NoWrap(c, n)
    ensures c.sizes[FindFit(c.sizes, n, 0)] < UINT32_RANGE
  {}

  lemma HollowMeans(c: Config, h: Heap, b: nat)
    requires b in h.ends && b in h.headers
    ensures Hollow(c, h, b) <==> h.headers[b].size > Capacity(c, h, b)
  {}

  lemma HandedOutWhole(c: Config, h: Heap, n: nat)
    requires Inv(c, h) && NoWrap(c, n)
    requires Allocate(c, h, n).1 != 0
    ensures var (h', p) := Allocate(c, h, n);
      p >= c.align && p - c.align in h'.ends && p - c.align in h'.headers && !Hollow(c, h', p - c.align)
  {
    hide Inv;
    var i := FindFit(c.sizes, n, 0);
    HeapReady(c, h);
    NextInRegion(c, h);
    if i < |c.sizes| && h.heads[i] != 0 {
      HeadReady(c, h, i);
      FreeIsWhole(c, h, h.heads[i]);
    } else {
      FitSizeNoWrap(c, n);
      var size := FitSize(c, n);
      SmallSize(size);
      hide NextBlock, FitSize, U32;
      NewBlockIsOk(c, h.next, size);
    }
  }

  lemma FreeIsWhole(c: Config, h: Heap, b: nat)
    requires Inv(c, h) && b in h.use && h.use[b].Free?
    ensures b in h.headers && b in h.ends && !Hollow(c, h, b)
  {
    hide Tiled, Chains;
    assert BlockInv(c, h, b);
  }

  lemma WrappedIsNew(c: Config, h: Heap, n: nat)
    requires Inv(c, h) && !NoWrap(c, n)
    ensures ValidConfig(c) && h.next < c.word && Aligned(h.next, c.align) && n > 0
    ensures var nextBlock := NextBlock(c, h.next, n);
      Allocate(c, h, n).1 != 0 ==>
        nextBlock > h.next && Allocate(c, h, n) == (TakeNew(h, nextBlock, n, n), h.next + c.align)
  {
    hide Aligned, NextBlock, Inv;
    NextInRegion(c, h);
    WrappedFit(c, n);
  }

  lemma NextInRegion(c: Config, h: Heap)
    requires Inv(c, h)
    ensures ValidConfig(c) && c.base <= h.next < c.word && Aligned(h.next, c.align)
  {}

  lemma WrappedFit(c: Config, n: nat)
    requires ValidConfig(c) && !NoWrap(c, n)
    ensures FindFit(c.sizes, n, 0) == |c.sizes| && FitSize(c, n) == n
  {}

  /** There is no free block in the bucket for n bytes. */
  ghost predicate NoneFree(c: Config, h: Heap, n: nat)
    requires |h.chains| == |c.sizes|
  {
    forall i :: Bucket(c.sizes, n, i) ==> h.chains[i] == []
  }

  /** The result of an allocation from bucket i with a list that is not empty */
  ghost predicate TakesFirst(c: Config, h: Heap, h': Heap, p: nat, i: nat)
    requires i < |h.chains|
  {
    h.chains[i] != [] ==>
      p == h.chains[i][0] + c.align && h'.chains == h.chains[i := h.chains[i][1..]] && h'.next == h.next
  }

  /** A free block of the bucket is taken before any new one, the first of the list. */
  lemma AllocateTakes(c: Config, h: Heap, n: nat)
    requires Inv(c, h)
    ensures |h.chains| == |c.sizes|
    ensures var (h', p) := Allocate(c, h, n);
      && (forall i :: Bucket(c.sizes, n, i) ==> TakesFirst(c, h, h', p, i))
      && (NoneFree(c, h, n) ==> h'.chains == h.chains && Allocate(c, h, n) == AllocateNew(c, h, n))
  {
    hide Inv, FindFit, Bucket, NoBucket, TakesFirst, Allocate, AllocateNew, NoneFree;
    BucketIsFit(c.sizes, n);
    HeapReady(c, h);
    var i := FindFit(c.sizes, n, 0);
    if i < |c.sizes| {
      BucketOfFit(c.sizes, n);
      TakesFirstOrNew(c, h, n);
      NoneFreeMeans(c, h, n, i);
    } else {
      TakesNew(c, h, n);
    }
  }

  lemma NoneFreeMeans(c: Config, h: Heap, n: nat, i: nat)
    requires |h.chains| == |c.sizes| && Bucket(c.sizes, n, i)
    ensures NoneFree(c, h, n) ==> h.chains[i] == []
  {}

  lemma TakesFirstOrNew(c: Config, h: Heap, n: nat)
    requires Inv(c, h) && FindFit(c.sizes, n, 0) < |c.sizes| == |h.chains|
    ensures var (h', p) := Allocate(c, h, n); var i := FindFit(c.sizes, n, 0);
      && TakesFirst(c, h, h', p, i)
      && (h.chains[i] == [] ==> h'.chains == h.chains && Allocate(c, h, n) == AllocateNew(c, h, n))
  {
    var i := FindFit(c.sizes, n, 0);
    HeapReady(c, h);
    HeadIsChain(c, h, i);
    hide AllocateNew;
    if h.heads[i] != 0 {
      HeadIsFree(c, h, i);
      hide Inv;
    } else {
      TakesNew(c, h, n);
    }
  }

  lemma TakesNew(c: Config, h: Heap, n: nat)
    requires Inv(c, h)
    requires var i := FindFit(c.sizes, n, 0); i < |c.sizes| ==> i < |h.heads| && h.heads[i] == 0
    ensures Allocate(c, h, n) == AllocateNew(c, h, n) && Allocate(c, h, n).0.chains == h.chains
  {
    hide Inv, FindFit, FitSize, NextBlock;
  }

  lemma BucketOfFit(sizes: seq<nat>, n: nat)
    requires FindFit(sizes, n, 0) < |sizes|
    ensures Bucket(sizes, n, FindFit(sizes, n, 0))
  {}

  lemma HeadIsChain(c: Config, h: Heap, i: nat)
    requires Inv(c, h) && i < |c.sizes|
    ensures i < |h.heads| == |h.chains| && (h.heads[i] == 0 <==> h.chains[i] == [])
  {
    assert ChainInv(h, i);
    if h.chains[i] != [] {
      var b := h.chains[i][0];
      assert b in h.ends && h.ends[b] > 0;
      hide Aligned;
      assert b >= c.base;
    }
  }

  /** e is the first multiple of the alignment behind a header and size bytes at next. */
  ghost predicate EndOf(align: nat, next: nat, size: nat, e: nat)
    requires align > 0
  {
    e % align == 0 && next + align + size <= e < next + align + size + align
  }

  lemma NextBlockExact(c: Config, next: nat, size: nat, e: nat)
    requires ValidConfig(c) && next < c.word && Aligned(next, c.align) && NoWrap(c, size)
    requires EndOf(c.align, next, size, e)
    ensures if e < c.word then NextBlock(c, next, size) == e else NextBlock(c, next, size) <= next
  {
    var x := 2 * c.align + size - 1;
    SmallModulo(x, c.word);
    MultipleBetween(e - next, x, c.align, next);
    var r := RoundDown(x, c.align);
    if e < c.word {
      SmallModulo(next + r, c.word);
    } else {
      DivModUnique(next + r, 1, next + r - c.word, c.word);
    }
  }

  lemma MultipleBetween(r: nat, x: nat, align: nat, next: nat)
    requires align > 0 && next % align == 0 && (next + r) % align == 0 && r <= x < r + align
    ensures RoundDown(x, align) == r
  {
    var k := (next + r) / align - next / align;
    assert k * align == (next + r) / align * align - next / align * align;
    DivModUnique(x, k, x - r, align);
  }

  /** The exact condition for a new block, and where it ends: the header and the size of the bucket,
      or the request itself above all buckets, must fit below the limit and the reserve. */
  lemma NewBlockIff(c: Config, h: Heap, n: nat, size: nat, e: nat)
    requires Inv(c, h) && NoWrap(c, n)
    requires |h.chains| == |c.sizes| ==> NoneFree(c, h, n)
    requires if NoBucket(c.sizes, n) then size == n else exists i :: Bucket(c.sizes, n, i) && size == c.sizes[i]
    requires c.align > 0 ==> EndOf(c.align, h.next, size, e)
    ensures var (h', p) := Allocate(c, h, n);
      && (p != 0 <==> e <= c.limit - h.reserve)
      && (p != 0 ==> p == h.next + c.align && h'.next == e)
  {
    AllocateTakes(c, h, n);
    NextInRegion(c, h);
    BucketIsFit(c.sizes, n);
    FitSizeNoWrap(c, n);
    assert size == FitSize(c, n);
    NextBlockExact(c, h.next, size, e);
    HeapReady(c, h);
    hide Inv, NoneFree, FitSize, FindFit, NextBlock, EndOf, NoWrap, Bucket, NoBucket, Allocate;
  }

  /** The exact condition when the size computation wraps: the header alone must fit, and for the
      first of these requests the wrapped sum does not even cover that. */
  lemma WrappedBlockIff(c: Config, h: Heap, n: nat)
    requires Inv(c, h) && n < c.word && !NoWrap(c, n)
    ensures Allocate(c, h, n).1 != 0 <==> n + c.align > c.word && h.next + c.align <= c.limit - h.reserve
  {
    WrappedIsNew(c, h, n);
    WrappedFit(c, n);
    WrappedExact(c, h.next, n);
    HeapReady(c, h);
    hide Inv, NextBlock, FindFit, Aligned;
  }

  lemma WrappedExact(c: Config, next: nat, n: nat)
    requires ValidConfig(c) && n < c.word && !NoWrap(c, n) && next < c.word
    ensures next + c.align < c.word ==> (NextBlock(c, next, n) > next <==> n + c.align > c.word)
    ensures next + c.align < c.word && n + c.align > c.word ==> NextBlock(c, next, n) == next + c.align
    ensures next + c.align >= c.word ==> NextBlock(c, next, n) <= next
  {
    var x := n + 2 * c.align - 1;
    var y := x - c.word;
    DivModUnique(x, 1, y, c.word);
    if y < c.align {
      DivModUnique(y, 0, y, c.align);
    } else {
      DivModUnique(y, 1, y - c.align, c.align);
    }
    var r := RoundDown(y, c.align);
    if next + r < c.word {
      SmallModulo(next + r, c.word);
    } else {
      DivModUnique(next + r, 1, next + r - c.word, c.word);
    }
  }

  /** HEAP_BLOCK_BUCKET_SIZES */
  const BUCKET_SIZES := [0x40, 0x400, 0x1000, 0x4000, 0x10000, 0x40000, 0x80000]

  /** A 64-bit heap with these sizes */
  const HEAP64 := Config(0x1_0000_0000_0000_0000, 64, BUCKET_SIZES, 0x80000, 0x100000)

  lemma Heap64Valid()
    ensures ValidConfig(HEAP64)
  {}

  /** A request that is answered with a pointer to no bytes at all */
  lemma HugeRequest()
    ensures var n := HEAP64.word - 63;
      && ValidConfig(HEAP64) && Inv(HEAP64, Setup(HEAP64, 0)) && n < HEAP64.word
      && var (h', p) := Allocate(HEAP64, Setup(HEAP64, 0), n);
         p == HEAP64.base + HEAP64.align && p - HEAP64.align in h'.ends && Capacity(HEAP64, h', p - HEAP64.align) == 0
  {
    var n := HEAP64.word - 63;
    Heap64Valid();
    SetupInv(HEAP64, 0);
    WrappedFit(HEAP64, n);
    assert NextBlock(HEAP64, HEAP64.base, n) == HEAP64.base + HEAP64.align;
    hide ValidConfig, Inv, FindFit, NextBlock;
  }

  lemma WrappedSize(c: Config, next: nat, n: nat)
    requires ValidConfig(c) && n < c.word && !NoWrap(c, n) && next < c.word && Aligned(next, c.align)
    ensures NextBlock(c, next, n) > next ==> NextBlock(c, next, n) == next + c.align
  {
    var x := n + 2 * c.align - 1;
    if x < 2 * c.word {
      DivModUnique(x, 1, x - c.word, c.word);
    } else {
      DivModUnique(x, 2, x - 2 * c.word, c.word);
    }
    var r := RoundDown(x % c.word, c.align);
    assert r == 0 || r == c.align by { RoundedSmall(x % c.word, c.align); }
    if next + r < c.word {
      SmallModulo(next + r, c.word);
    } else {
      DivModUnique(next + r, 1, next + r - c.word, c.word);
    }
  }

  lemma RoundedSmall(x: nat, align: nat)
    requires align > 0 && x < 2 * align - 1
    ensures RoundDown(x, align) == 0 || RoundDown(x, align) == align
  {
    if x < align {
      DivModUnique(x, 0, x, align);
    } else {
      DivModUnique(x, 1, x - align, align);
    }
  }

  // ---------------------------------------------------------------- DoFree

  lemma FindSizeOfBucket(sizes: seq<nat>, i: nat)
    requires i < |sizes| && forall j, k :: 0 <= j < k < |sizes| ==> sizes[j] < sizes[k]
    ensures FindSize(sizes, sizes[i], 0) == i
  {
  }

  lemma LiveInChains(c: Config, h: Heap, b: nat, i: nat)
    requires Inv(c, h) && b in h.use && h.use[b].Live? && i < |c.sizes|
    ensures b !in h.chains[i]
  {
    assert ChainInv(h, i);
  }

  lemma PushChain(h: Heap, h': Heap, i: nat, b: nat)
    requires i < |h.chains| == |h.heads| && ChainInv(h, i) && b != 0
    requires |h'.chains| == |h'.heads| == |h.heads|
    requires b !in h.chains[i] && h'.chains[i] == [b] + h.chains[i] && h'.heads[i] == b
    requires b in h'.headers && h'.headers[b].next == h.heads[i] && b in h'.use && h'.use[b] == Free(i)
    requires forall d :: d in h.headers && d != b ==> d in h'.headers && h'.headers[d] == h.headers[d]
    requires forall d :: d in h.use && d != b ==> d in h'.use && h'.use[d] == h.use[d]
    ensures ChainInv(h', i)
  {
    var chain, chain' := h.chains[i], h'.chains[i];
    forall k | 0 <= k < |chain'|
      ensures k > 0 ==> chain'[k] == chain[k - 1] && chain[k - 1] != b
      ensures Link(chain', k + 1) == Link(chain, k)
    {}
  }

  lemma ReleaseChain(c: Config, h: Heap, p: nat, j: nat)
    requires |h.heads| == |h.chains| == |c.sizes| && p > c.align && IsLive(c, h, p) && p - c.align in h.headers
    requires j < |c.sizes| && ChainInv(h, j) && p - c.align !in h.chains[j]
    ensures ChainInv(Release(c, h, p), j)
  {
    hide FindSize;
    var b, h' := p - c.align, Release(c, h, p);
    if j == FindSize(c.sizes, h.headers[b].size, 0) {
      PushChain(h, h', j, b);
    } else {
      OtherChain(h, h', j, b);
    }
  }

  lemma ChainOf(c: Config, h: Heap, j: nat)
    requires Chains(c, h) && j < |c.sizes|
    ensures |h.heads| == |h.chains| == |c.sizes| && ChainInv(h, j)
  {}

  lemma ReleaseCounts(c: Config, h: Heap, p: nat)
    requires |h.heads| == |h.chains| == |c.sizes|
    requires p == 0 || (IsLive(c, h, p) && p - c.align in h.headers)
    ensures |Release(c, h, p).heads| == |Release(c, h, p).chains| == |c.sizes|
  {}

  lemma ChainsFrom(c: Config, h: Heap)
    requires |h.heads| == |h.chains| == |c.sizes|
    requires forall i :: 0 <= i < |c.sizes| ==> ChainInv(h, i)
    requires forall b :: b in h.use && h.use[b].Free? ==> h.use[b].bucket < |c.sizes| && b in h.chains[h.use[b].bucket]
    ensures Chains(c, h)
  {
    hide ChainInv;
  }

  lemma ReleaseChains(c: Config, h: Heap, p: nat)
    requires Inv(c, h) && p != 0 && IsLive(c, h, p)
    ensures Chains(c, Release(c, h, p))
  {
    FreeReady(c, h, p);
    HeadsAndChains(c, h);
    hide Inv, Release, ChainInv, Chains;
    ReleaseCounts(c, h, p);
    FreeInChains(c, h, p);
    LiveAddress(c, h, p);
    forall j | 0 <= j < |c.sizes|
      ensures ChainInv(Release(c, h, p), j)
    {
      ChainOf(c, h, j);
      LiveInChains(c, h, p - c.align, j);
      ReleaseChain(c, h, p, j);
    }
    ChainsFrom(c, Release(c, h, p));
  }

  lemma HeadsAndChains(c: Config, h: Heap)
    requires Inv(c, h)
    ensures Chains(c, h)
  {}

  lemma LiveAddress(c: Config, h: Heap, p: nat)
    requires Inv(c, h) && IsLive(c, h, p)
    ensures p > c.align && p - c.align in h.headers
  {
    hide Aligned;
    LivePayload(c, h, p - c.align);
    NextInRegion(c, h);
  }

  /** Every free block is on the list of its bucket. */
  lemma FreeInChains(c: Config, h: Heap, p: nat)
    requires Inv(c, h) && p != 0 && IsLive(c, h, p)
    ensures var h' := Release(c, h, p);
      forall d :: d in h'.use && h'.use[d].Free? ==>
        h'.use[d].bucket < |c.sizes| == |h'.chains| && d in h'.chains[h'.use[d].bucket]
  {
    hide ChainInv, FindSize, Tiled, Blocks, ValidConfig, Aligned;
    LiveAddress(c, h, p);
    var b := p - c.align;
    var h' := Release(c, h, p);
    var i := FindSize(c.sizes, h.headers[b].size, 0);
    forall d | d in h'.use && h'.use[d].Free?
      ensures h'.use[d].bucket < |c.sizes| && d in h'.chains[h'.use[d].bucket]
    {
      if d != b && h.use[d] == Free(i) {
        var k :| 0 <= k < |h.chains[i]| && h.chains[i][k] == d;
        assert h'.chains[i][k + 1] == d;
      } else if d == b {
        assert h'.chains[i][0] == b;
      }
    }
  }

  /** A freed block goes to the free list of its size, or is lost if there is none. */
  lemma ReleaseKeeps(c: Config, h: Heap, p: nat)
    requires Inv(c, h) && (p == 0 || IsLive(c, h, p))
    ensures Inv(c, Release(c, h, p)) && Released(c, h, Release(c, h, p), p)
  {
    hide Chains, ValidConfig, Tiled, BlockInv, FindSize;
    if p != 0 {
      hide Release, Aligned;
      FreeReady(c, h, p);
      ReleaseFrame(c, h, p);
      ReleaseChains(c, h, p);
      ReleasedBlock(c, h, p);
      BlocksBut(c, h, Release(c, h, p), p - c.align);
    }
  }

  /** Nothing but the freed block and the lists has changed. */
  ghost predicate Released(c: Config, h: Heap, h': Heap, p: nat) {
    && h'.mem == h.mem && h'.ends == h.ends && h'.reserve == h.reserve && h'.next == h.next && h'.blocks == h.blocks
    && h'.use.Keys == h.use.Keys && h'.headers.Keys == h.headers.Keys
    && (forall b :: b in h.use && b != p - c.align ==> h'.use[b] == h.use[b])
    && (forall b :: b in h.headers && b != p - c.align ==> h'.headers[b] == h.headers[b])
    && (p != 0 ==>
          && p - c.align in h.headers && p - c.align in h.use
          && var i := FindSize(c.sizes, h.headers[p - c.align].size, 0);
             h'.use[p - c.align] == if i < |c.sizes| then Free(i) else Lost)
  }

  lemma ReleaseFrame(c: Config, h: Heap, p: nat)
    requires |h.heads| == |h.chains| == |c.sizes| && p != 0 && IsLive(c, h, p) && p - c.align in h.headers
    ensures Released(c, h, Release(c, h, p), p)
  {
    hide FindSize;
  }

  lemma ReleasedBlock(c: Config, h: Heap, p: nat)
    requires Inv(c, h) && p != 0 && IsLive(c, h, p)
    ensures var h' := Release(c, h, p); var b := p - c.align;
      b in h'.ends && b in h'.headers && b in h'.use && BlockInv(c, h', b)
  {
    hide Chains, Tiled;
    assert BlockInv(c, h, p - c.align);
  }

  lemma TakeReleased(c: Config, h: Heap, p: nat, i: nat, n: nat)
    requires |h.heads| == |h.chains| == |c.sizes| && p != 0 && IsLive(c, h, p) && p - c.align in h.headers
    requires i == FindSize(c.sizes, h.headers[p - c.align].size, 0) < |c.sizes|
    ensures var h1 := Release(c, h, p);
      && h1.heads[i] == p - c.align && h1.heads[i] in h1.headers && h1.chains[i] != []
      && var h' := TakeFree(h1, i, n);
         h'.heads == h.heads && h'.chains == h.chains && h'.next == h.next && h'.ends == h.ends && h'.mem == h.mem
  {
    hide FindSize;
    var b := p - c.align;
    assert ([b] + h.chains[i])[1..] == h.chains[i];
  }

  /** A freed block is the next one handed out for a request of its size, and that undoes the
      free: all lists and blocks are as before. */
  lemma FreedBlockIsReused(c: Config, h: Heap, p: nat, n: nat)
    requires Inv(c, h) && p != 0 && IsLive(c, h, p) && p - c.align in h.headers
    requires FindFit(c.sizes, n, 0) == FindSize(c.sizes, h.headers[p - c.align].size, 0) < |c.sizes|
    ensures Inv(c, Release(c, h, p))
    ensures var (h', q) := Allocate(c, Release(c, h, p), n);
      && q == p && h'.heads == h.heads && h'.chains == h.chains
      && h'.next == h.next && h'.ends == h.ends && h'.mem == h.mem
  {
    hide Inv, FindFit, FindSize, IsLive, Release, TakeFree;
    ReleaseReady(c, h, p);
    var i := FindFit(c.sizes, n, 0);
    TakeReleased(c, h, p, i, n);
    assert Allocate(c, Release(c, h, p), n) == (TakeFree(Release(c, h, p), i, n), p);
  }

  /** Block b became the first of the list for its size, and the other lists are the same. */
  ghost predicate Pushed(sizes: seq<nat>, chains: seq<seq<nat>>, chains': seq<seq<nat>>, b: nat, size: nat) {
    && |chains'| == |chains| == |sizes|
    && forall i :: 0 <= i < |sizes| ==> chains'[i] == if size == sizes[i] then [b] + chains[i] else chains[i]
  }

  /** Freeing a block puts it first on the list of the bucket that has its recorded size, if there is
      one, and changes no other list. */
  lemma ReleasePushes(c: Config, h: Heap, p: nat)
    requires Inv(c, h) && p != 0 && IsLive(c, h, p)
    ensures |h.chains| == |c.sizes| && p - c.align in h.headers
    ensures var b, h' := p - c.align, Release(c, h, p);
      && Pushed(c.sizes, h.chains, h'.chains, b, h.headers[b].size)
      && b in h'.use && !h'.use[b].Live?
  {
    ReleaseReady(c, h, p);
    SizesDistinct(c, h);
    hide Inv, ValidConfig;
  }

  lemma SizesDistinct(c: Config, h: Heap)
    requires Inv(c, h)
    ensures forall i, j :: 0 <= i < j < |c.sizes| ==> c.sizes[i] != c.sizes[j]
  {}

  /** The block at p is live, and once it is freed the next request for m bytes gets it. */
  ghost predicate ComesBack(c: Config, h: Heap, p: nat, m: nat) {
    && Inv(c, h) && IsLive(c, h, p) && |h.heads| == |h.chains| == |c.sizes| && p - c.align in h.headers
    && var h2 := Release(c, h, p);
       Inv(c, h2) && Allocate(c, h2, m).1 == p
  }

  /** Whatever fits a bucket can be freed and comes back: the next request of the same bucket gets the
      block just freed. */
  lemma FreedComesBack(c: Config, h: Heap, n: nat, m: nat, i: nat)
    requires Inv(c, h) && n < c.word && Bucket(c.sizes, n, i) && Bucket(c.sizes, m, i)
    requires Allocate(c, h, n).1 != 0
    ensures var (h1, p) := Allocate(c, h, n); ComesBack(c, h1, p, m)
  {
    hide Inv, Allocate, ComesBack, HandedOut, Recorded;
    AllocateFrame(c, h, n);
    AllocateRecords(c, h, n);
    AllocateKeeps(c, h, n);
    BucketSize(c, h, i);
    BucketIsFit(c.sizes, m);
    var (h1, p) := Allocate(c, h, n);
    RecordedSizeComesBack(c, h, h1, p, n, m, i);
  }

  lemma RecordedSizeComesBack(c: Config, h: Heap, h1: Heap, p: nat, n: nat, m: nat, i: nat)
    requires Inv(c, h1) && p >= c.align && HandedOut(h, h1, p - c.align, n) && Recorded(c, h1, p, n) && p != 0
    requires Bucket(c.sizes, n, i) && i < |c.sizes|
    requires FindFit(c.sizes, m, 0) == i == FindSize(c.sizes, c.sizes[i], 0)
    ensures ComesBack(c, h1, p, m)
  {
    hide Inv, Allocate, Release, Bucket, FindFit, FindSize;
    FreeReady(c, h1, p);
    FreedBlockIsReused(c, h1, p, m);
  }

  lemma BucketSize(c: Config, h: Heap, i: nat)
    requires Inv(c, h) && i < |c.sizes|
    ensures FindSize(c.sizes, c.sizes[i], 0) == i
  {
    FindSizeOfBucket(c.sizes, i);
  }

  lemma ReleaseReady(c: Config, h: Heap, p: nat)
    requires Inv(c, h) && p != 0 && IsLive(c, h, p)
    ensures p > c.align && p - c.align in h.headers && |h.heads| == |h.chains| == |c.sizes|
    ensures Inv(c, Release(c, h, p)) && |Release(c, h, p).heads| == |Release(c, h, p).chains| == |c.sizes|
  {
    hide Aligned;
    ReleaseKeeps(c, h, p);
    LiveAddress(c, h, p);
    HeapReady(c, h);
    HeapReady(c, Release(c, h, p));
    hide Inv, Release;
  }

  /** What a heap and a later one have in common when nothing but their memory and reserve may differ */
  predicate SameLists(h: Heap, h': Heap) {
    h'.heads == h.heads && h'.chains == h.chains && h'.headers == h.headers && h'.use == h.use && h'.ends == h.ends
  }

  lemma ReleaseTaken(c: Config, h: Heap, i: nat, n: nat)
    requires i < |c.sizes| == |h.heads| == |h.chains| && h.chains[i] != [] && h.heads[i] == h.chains[i][0]
    requires h.heads[i] in h.headers && h.heads[i] in h.use && h.use[h.heads[i]] == Free(i)
    requires h.headers[h.heads[i]].magic == FREE_MAGIC && h.headers[h.heads[i]].size == c.sizes[i]
    requires FindSize(c.sizes, c.sizes[i], 0) == i
    ensures var h1 := TakeFree(h, i, n); var p := h.heads[i] + c.align;
      IsLive(c, h1, p) && p - c.align in h1.headers && (c.align > 0 ==> SameLists(h, Release(c, h1, p)))
  {
    hide FindSize;
    var b := h.heads[i];
    assert [b] + h.chains[i][1..] == h.chains[i];
  }

  /** Freeing a block that came from a free list puts it back where it was. */
  lemma FreeUndoesReuse(c: Config, h: Heap, i: nat, n: nat)
    requires Inv(c, h) && n < c.word && i < |h.heads| == |h.chains| == |c.sizes|
    requires i == FindFit(c.sizes, n, 0) && h.heads[i] != 0
    ensures var (h1, p) := Allocate(c, h, n);
      p != 0 && IsLive(c, h1, p) && Inv(c, h1) && p - c.align in h1.headers && |h1.heads| == |h1.chains| == |c.sizes| &&
      SameLists(h, Release(c, h1, p))
  {
    hide Inv, FindFit, FindSize, SameLists, Release, TakeFree, IsLive;
    AllocateKeeps(c, h, n);
    HeapReady(c, h);
    HeadReady(c, h, i);
    ReleaseTaken(c, h, i, n);
    HeapReady(c, Allocate(c, h, n).0);
    assert Allocate(c, h, n) == (TakeFree(h, i, n), h.heads[i] + c.align);
  }

  lemma HeadReady(c: Config, h: Heap, i: nat)
    requires Inv(c, h) && i < |h.heads| && h.heads[i] != 0
    ensures i < |c.sizes| && h.chains[i] != [] && h.heads[i] == h.chains[i][0]
    ensures h.heads[i] in h.headers && h.heads[i] in h.use && h.use[h.heads[i]] == Free(i)
    ensures h.headers[h.heads[i]].magic == FREE_MAGIC && h.headers[h.heads[i]].size == c.sizes[i]
    ensures FindSize(c.sizes, c.sizes[i], 0) == i
  {
    HeadIsFree(c, h, i);
    assert BlockInv(c, h, h.heads[i]);
    FindSizeOfBucket(c.sizes, i);
  }

  // ---------------------------------------------------------------- DoReAllocate

  /** memcpy within a region, given by offsets */
  function Copy(mem: seq<uint8>, dst: nat, src: nat, n: nat): (mem': seq<uint8>)
    requires dst + n <= |mem| && src + n <= |mem|
    ensures |mem'| == |mem|
  {
    mem[..dst] + mem[src..src + n] + mem[dst + n..]
  }

  /** What reallocation asks of its caller: a live pointer or none, and if bytes are to be moved,
      two blocks that hold them. */
  predicate Callable(c: Config, h: Heap, p: nat, n: nat)
    requires Inv(c, h)
  {
    && n < c.word
    && (p == 0 || (IsLive(c, h, p) && (MoveIsSafe(c, h, p, n) || Allocate(c, h, n).1 == 0)))
  }

  predicate MoveIsSafe(c: Config, h: Heap, p: nat, n: nat)
    requires p >= c.align
  {
    var b := p - c.align;
    b in h.headers && b in h.ends && (0 < h.headers[b].size < n ==> NoWrap(c, n) && !Hollow(c, h, b))
  }

  lemma CopyNothing(mem: seq<uint8>, dst: nat, src: nat)
    requires dst <= |mem| && src <= |mem|
    ensures Copy(mem, dst, src, 0) == mem
  {}

  lemma CopyNext(mem: seq<uint8>, dst: nat, src: nat, n: nat)
    requires dst + n < |mem| && src + n < |mem|
    requires src + n < dst || dst + n < src
    ensures var m := Copy(mem, dst, src, n);
      m[src + n] == mem[src + n] && Copy(mem, dst, src, n + 1) == m[dst + n := m[src + n]]
  {
    assert mem[src..src + n + 1] == mem[src..src + n] + [mem[src + n]];
  }

  /** The payloads of the old and the new block lie in the region, apart from each other, and
      both hold the bytes that are copied. */
  lemma CopyBounds(c: Config, h: Heap, p: nat, n: nat)
    requires Inv(c, h) && p != 0 && n < c.word && IsLive(c, h, p) && MoveIsSafe(c, h, p, n)
    requires p - c.align in h.headers && h.headers[p - c.align].size < n && Allocate(c, h, n).1 != 0
    ensures var (h', q) := Allocate(c, h, n);
      CopyBounded(c, h', p, q) && h'.headers[p - c.align] == h.headers[p - c.align]
  {
    hide Inv, Allocate;
    AllocateKeeps(c, h, n);
    AllocateFrame(c, h, n);
    var (h', q) := Allocate(c, h, n);
    var b, d := p - c.align, q - c.align;
    KeySets(c, h);
    LivePayload(c, h', b);
    LivePayload(c, h', d);
    LiveBlocksApart(c, h', b, d);
    MemorySize(c, h');
    if h.headers[b].size > 0 {
      CoversRequestExactly(c, h, n);
    }
  }

  lemma KeySets(c: Config, h: Heap)
    requires Inv(c, h)
    ensures h.headers.Keys == h.ends.Keys == h.use.Keys
  {}

  ghost predicate CopyBounded(c: Config, h: Heap, p: nat, q: nat) {
    && p >= c.align && q >= c.align && p != q
    && p - c.align in h.headers && p - c.align in h.use && p - c.align in h.ends && q - c.align in h.ends
    && IsLive(c, h, p)
    && |h.mem| == c.limit - c.base
    && var size := h.headers[p - c.align].size;
    && c.base <= q && q + size <= h.ends[q - c.align] <= c.limit
    && c.base <= p && p + size <= h.ends[p - c.align] <= c.limit
    && (h.ends[p - c.align] <= q - c.align || h.ends[q - c.align] <= p - c.align)
  }

  /** The exact condition for a move to stay inside the two blocks. */
  lemma MoveStaysInsideIff(c: Config, h: Heap, p: nat, n: nat)
    requires Inv(c, h) && p != 0 && n < c.word && IsLive(c, h, p)
    requires p - c.align in h.headers && 0 < h.headers[p - c.align].size < n && Allocate(c, h, n).1 != 0
    ensures var (h', q) := Allocate(c, h, n);
      CopyBounded(c, h', p, q) <==> NoWrap(c, n) && !Hollow(c, h, p - c.align)
  {
    hide Inv, Allocate;
    KeySets(c, h);
    var (h', q) := Allocate(c, h, n);
    AllocateFrame(c, h, n);
    if NoWrap(c, n) && !Hollow(c, h, p - c.align) {
      CopyBounds(c, h, p, n);
    } else if CopyBounded(c, h', p, q) {
      CoversRequestExactly(c, h, n);
    }
  }

  lemma MemorySize(c: Config, h: Heap)
    requires Inv(c, h)
    ensures |h.mem| == c.limit - c.base
  {}

  lemma RecordedSize(c: Config, h: Heap, b: nat)
    requires Inv(c, h) && b in h.use
    ensures b in h.headers && b in h.ends && h.headers[b].size < UINT32_RANGE
    ensures h.use[b].Live? && h.use[b].request < UINT32_RANGE ==> h.use[b].request <= h.headers[b].size
  {
    hide Chains, Tiled;
    assert BlockInv(c, h, b);
  }

  lemma LiveBlocksApart(c: Config, h: Heap, b: nat, d: nat)
    requires Inv(c, h) && b in h.ends && d in h.ends && b != d
    ensures h.ends[b] <= d || h.ends[d] <= b
  {
    hide Chains, Blocks;
    if b < d { BlocksDisjoint(c, h, b, d); } else { BlocksDisjoint(c, h, d, b); }
  }

  /** memcpy and Free at the end of DoReAllocate */
  function Move(c: Config, h: Heap, p: nat, q: nat): Heap
    requires Inv(c, h) && CopyBounded(c, h, p, q)
  {
    hide Inv;
    var h2 := h.(mem := Copy(h.mem, q - c.base, p - c.base, h.headers[p - c.align].size));
    MoveReady(c, h, h2, p);
    Release(c, h2, p)
  }

  lemma MoveReady(c: Config, h: Heap, h2: Heap, p: nat)
    requires Inv(c, h) && IsLive(c, h, p) && |h2.mem| == |h.mem| && h2 == h.(mem := h2.mem)
    ensures Inv(c, h2) && IsLive(c, h2, p) && p - c.align in h2.headers
    ensures |h2.heads| == |h2.chains| == |c.sizes|
  {
    ContentsDoNotMatter(c, h, h2);
  }

  /** DoReAllocate */
  function Reallocate(c: Config, h: Heap, p: nat, n: nat): (Heap, nat)
    requires Inv(c, h) && Callable(c, h, p, n)
  {
    if p == 0 then Allocate(c, h, n)
    else if n == 0 then (Release(c, h, p), 0)
    else if h.headers[p - c.align].size >= n then (h.(use := h.use[p - c.align := Live(n)]), p)
    else
      hide Inv, Allocate;
      var (h1, q) := Allocate(c, h, n);
      if q == 0 then (h1, 0)
      else
        ReadyToMove(c, h, p, n);
        (Move(c, h1, p, q), q)
  }

  lemma ReadyToMove(c: Config, h: Heap, p: nat, n: nat)
    requires Inv(c, h) && p != 0 && Callable(c, h, p, n) && Allocate(c, h, n).1 != 0
    requires p - c.align in h.headers && h.headers[p - c.align].size < n
    ensures var (h1, q) := Allocate(c, h, n);
      && Inv(c, h1) && CopyBounded(c, h1, p, q)
      && h1.headers[p - c.align] == h.headers[p - c.align]
  {
    hide Inv, Allocate;
    AllocateKeeps(c, h, n);
    CopyBounds(c, h, p, n);
  }

  /** Reallocation keeps the heap in order. */
  lemma ReallocateKeeps(c: Config, h: Heap, p: nat, n: nat)
    requires Inv(c, h) && Callable(c, h, p, n)
    ensures Inv(c, Reallocate(c, h, p, n).0)
  {
    hide Inv, Allocate;
    if p == 0 {
      AllocateKeeps(c, h, n);
    } else if n == 0 {
      ReleaseKeeps(c, h, p);
    } else {
      RecordedSize(c, h, p - c.align);
      if h.headers[p - c.align].size >= n {
        ResizeKeeps(c, h, p - c.align, n);
      } else {
        AllocateKeeps(c, h, n);
        var (h1, q) := Allocate(c, h, n);
        if q != 0 {
          ReadyToMove(c, h, p, n);
          MoveKeeps(c, h1, p, q);
        }
      }
    }
  }

  lemma MoveKeeps(c: Config, h: Heap, p: nat, q: nat)
    requires Inv(c, h) && CopyBounded(c, h, p, q)
    ensures Inv(c, Move(c, h, p, q))
  {
    hide Inv, Release;
    var h2 := h.(mem := Copy(h.mem, q - c.base, p - c.base, h.headers[p - c.align].size));
    MoveReady(c, h, h2, p);
    ReleaseKeeps(c, h2, p);
  }

  lemma ContentsDoNotMatter(c: Config, h: Heap, h': Heap)
    requires Inv(c, h) && |h'.mem| == |h.mem| && h' == h.(mem := h'.mem)
    ensures Inv(c, h')
  {
    forall b | b in h.ends
      ensures BlockInv(c, h', b)
    {
      assert BlockInv(c, h, b);
    }
    forall i | 0 <= i < |c.sizes|
      ensures ChainInv(h', i)
    {
      assert ChainInv(h, i);
    }
  }

  lemma ResizedBlock(c: Config, h: Heap, b: nat, n: nat)
    requires b in h.headers && b in h.ends && b in h.use && h.use[b].Live?
    requires BlockInv(c, h, b) && 0 < n <= h.headers[b].size
    ensures BlockInv(c, h.(use := h.use[b := Live(n)]), b)
  {
    var h' := h.(use := h.use[b := Live(n)]);
    HollowMeans(c, h, b);
    HollowMeans(c, h', b);
    hide Hollow;
  }

  lemma ResizeKeeps(c: Config, h: Heap, b: nat, n: nat)
    requires Inv(c, h) && b in h.use && h.use[b].Live? && b in h.headers && 0 < n <= h.headers[b].size
    ensures Inv(c, h.(use := h.use[b := Live(n)]))
  {
    var h' := h.(use := h.use[b := Live(n)]);
    assert BlockInv(c, h, b);
    ResizedBlock(c, h, b, n);
    hide BlockInv, Tiled;
    BlocksBut(c, h, h', b);
    forall i | 0 <= i < |c.sizes|
      ensures ChainInv(h', i)
    {
      assert ChainInv(h, i);
      OtherChain(h, h', i, b);
    }
  }

  /** Byte i of a payload */
  function Byte(c: Config, h: Heap, p: nat, i: nat): uint8
    requires c.base <= p && p + i < c.base + |h.mem|
  {
    h.mem[p + i - c.base]
  }

  /** The block at q starts with the first size bytes of the payload at p, and no other byte of
      the region has changed. */
  ghost predicate Copied(c: Config, h: Heap, h': Heap, p: nat, q: nat, size: nat) {
    && |h'.mem| == |h.mem| && c.base <= p && c.base <= q
    && p + size <= c.base + |h.mem| && q + size <= c.base + |h.mem|
    && (forall i :: 0 <= i < size ==> Byte(c, h', q, i) == Byte(c, h, p, i))
    && (forall k :: 0 <= k < |h.mem| && !(q <= c.base + k < q + size) ==> h'.mem[k] == h.mem[k])
  }

  /** No block other than those of the two payloads has changed its use. */
  ghost predicate OthersStay(c: Config, h: Heap, h': Heap, p: nat, q: nat) {
    forall b :: b in h.use && b != p - c.align && b != q - c.align ==> b in h'.use && h'.use[b] == h.use[b]
  }

  /** Reallocation returns the same block if its recorded size is sufficient, otherwise a
      different one with as many bytes of the old payload as the header says. */
  lemma ReallocateCopies(c: Config, h: Heap, p: nat, n: nat)
    requires Inv(c, h) && Callable(c, h, p, n) && p != 0 && n != 0
    requires Reallocate(c, h, p, n).1 != 0
    ensures p - c.align in h.headers
    ensures var (h', q) := Reallocate(c, h, p, n); var size := h.headers[p - c.align].size;
      && IsLive(c, h', q) && h'.use[q - c.align] == Live(n)
      && OthersStay(c, h, h', p, q)
      && if size >= n then q == p && h'.mem == h.mem
         else q != p && !IsLive(c, h', p) && Copied(c, h, h', p, q, size)
  {
    hide Inv, Allocate, Copied, Move, MovedOk;
    RecordedSize(c, h, p - c.align);
    if h.headers[p - c.align].size < n {
      MovedCopies(c, h, p, n);
      MovedResult(c, h, p, n);
    }
  }

  lemma MovedResult(c: Config, h: Heap, p: nat, n: nat)
    requires Inv(c, h) && Callable(c, h, p, n) && p != 0 && n != 0
    requires p - c.align in h.headers && h.headers[p - c.align].size < n
    requires var (h1, q) := Allocate(c, h, n); q != 0 && MovedOk(c, h, h1, p, q, n)
    ensures var (h', q) := Reallocate(c, h, p, n); MovedTo(c, h, h', p, q, n)
  {
    hide Inv, Allocate, MovedTo, Move;
  }

  ghost predicate MovedTo(c: Config, h: Heap, h': Heap, p: nat, q: nat, n: nat) {
    && p - c.align in h.headers && q != p
    && IsLive(c, h', q) && h'.use[q - c.align] == Live(n) && Copied(c, h, h', p, q, h.headers[p - c.align].size)
    && !IsLive(c, h', p) && OthersStay(c, h, h', p, q)
  }

  ghost predicate MovedOk(c: Config, h: Heap, h1: Heap, p: nat, q: nat, n: nat) {
    && q != p && Inv(c, h1) && CopyBounded(c, h1, p, q)
    && p - c.align in h.headers && h1.headers[p - c.align] == h.headers[p - c.align]
    && h.headers[p - c.align].size < n
    && MovedTo(c, h, Move(c, h1, p, q), p, q, n)
  }

  lemma MovedCopies(c: Config, h: Heap, p: nat, n: nat)
    requires Inv(c, h) && Callable(c, h, p, n) && p != 0
    requires p - c.align in h.headers && h.headers[p - c.align].size < n
    requires Allocate(c, h, n).1 != 0
    ensures var (h1, q) := Allocate(c, h, n); MovedOk(c, h, h1, p, q, n)
  {
    hide Inv, Allocate, Copied, Move;
    var (h1, q) := Allocate(c, h, n);
    AllocateFrame(c, h, n);
    ReadyToMove(c, h, p, n);
    MoveCopies(c, h1, p, q, n);
    SameMemory(c, h, h1, Move(c, h1, p, q), p, q, h.headers[p - c.align].size);
    SameOthers(c, h, h1, Move(c, h1, p, q), p, q, n);
  }

  lemma SameMemory(c: Config, h: Heap, h1: Heap, h': Heap, p: nat, q: nat, size: nat)
    requires h1.mem == h.mem && Copied(c, h1, h', p, q, size)
    ensures Copied(c, h, h', p, q, size)
  {}

  lemma SameOthers(c: Config, h: Heap, h1: Heap, h': Heap, p: nat, q: nat, n: nat)
    requires q >= c.align && HandedOut(h, h1, q - c.align, n) && OthersStay(c, h1, h', p, q)
    ensures OthersStay(c, h, h', p, q)
  {}

  lemma MoveCopies(c: Config, h: Heap, p: nat, q: nat, n: nat)
    requires Inv(c, h) && CopyBounded(c, h, p, q)
    requires q - c.align in h.use && h.use[q - c.align] == Live(n)
    ensures var h' := Move(c, h, p, q);
      && IsLive(c, h', q) && h'.use[q - c.align] == Live(n)
      && Copied(c, h, h', p, q, h.headers[p - c.align].size)
      && !IsLive(c, h', p) && OthersStay(c, h, h', p, q)
  {
    hide Inv, Release;
    var size := h.headers[p - c.align].size;
    var h2 := h.(mem := Copy(h.mem, q - c.base, p - c.base, size));
    MoveReady(c, h, h2, p);
    HeapReady(c, h);
    ReleaseKeeps(c, h2, p);
    assert Move(c, h, p, q) == Release(c, h2, p);
    assert p != 0;
    hide FindSize, Move;
  }

  /** What reallocation of a live block does: it frees the block, or it gives up the reserve and changes
      nothing else, or it returns the same block if its recorded size is sufficient, or a new block with
      the old bytes after which the old one is free. */
  ghost predicate Reallocated(c: Config, h: Heap, h': Heap, p: nat, q: nat, n: nat) {
    && p >= c.align && p - c.align in h.headers
    && var size := h.headers[p - c.align].size;
       if n == 0 then q == 0 && !IsLive(c, h', p)
       else if q == 0 then size < n && h' == h.(reserve := 0)
       else
         && IsLive(c, h', q) && h'.use[q - c.align] == Live(n) && OthersStay(c, h, h', p, q)
         && if size >= n then q == p && h'.mem == h.mem
            else q != p && !IsLive(c, h', p) && Copied(c, h, h', p, q, size)
  }

  lemma ReallocateOutcome(c: Config, h: Heap, p: nat, n: nat)
    requires Inv(c, h) && Callable(c, h, p, n) && p != 0
    ensures var (h', q) := Reallocate(c, h, p, n); Reallocated(c, h, h', p, q, n)
  {
    hide Inv, Allocate, Release, Move, Copied, OthersStay, HandedOut;
    RecordedSize(c, h, p - c.align);
    ReleasePushes(c, h, p);
    AllocateFrame(c, h, n);
    if Reallocate(c, h, p, n).1 != 0 && n != 0 {
      ReallocateCopies(c, h, p, n);
    }
  }

  /** The exact condition for a move to preserve the old payload as a whole: its size fits the
      32 bits of nSize in the header. Otherwise the tail of the payload is not copied. */
  lemma WholePayloadExactly(c: Config, h: Heap, p: nat)
    requires Inv(c, h) && IsLive(c, h, p)
    ensures p - c.align in h.headers
    ensures h.use[p - c.align].request <= h.headers[p - c.align].size
       <==> h.use[p - c.align].request < UINT32_RANGE
  {
    hide Inv;
    RecordedSize(c, h, p - c.align);
  }

  // ---------------------------------------------------------------- runs

  datatype Event = Malloc(n: nat) | Mfree(p: nat) | Realloc(p: nat, n: nat) | Store(p: nat, i: nat, v: uint8)

  /** Calls outside of the contract are not part of a run: with a pointer that is not live, with
      bytes that would be moved or stored outside of the blocks. Requests may be of any size. */
  predicate Allowed(c: Config, h: Heap, e: Event)
    requires Inv(c, h)
  {
    match e
    case Malloc(n) => n < c.word
    case Mfree(p) => p == 0 || IsLive(c, h, p)
    case Realloc(p, n) => Callable(c, h, p, n)
    case Store(p, i, v) => MayStore(c, h, p, i)
  }

  predicate MayStore(c: Config, h: Heap, p: nat, i: nat) {
    && IsLive(c, h, p) && p - c.align in h.ends && i < h.use[p - c.align].request
    && p + i < h.ends[p - c.align] && c.base <= p && p + i < c.base + |h.mem|
  }

  lemma StoreKeeps(c: Config, h: Heap, p: nat, i: nat, v: uint8)
    requires Inv(c, h) && MayStore(c, h, p, i)
    ensures Inv(c, h.(mem := h.mem[p + i - c.base := v]))
  {
    ContentsDoNotMatter(c, h, h.(mem := h.mem[p + i - c.base := v]));
  }

  function Apply(c: Config, h: Heap, e: Event): Heap
    requires Inv(c, h)
  {
    if !Allowed(c, h, e) then h
    else
      match e
      case Malloc(n) => Allocate(c, h, n).0
      case Mfree(p) => FreeReady(c, h, p); Release(c, h, p)
      case Realloc(p, n) => Reallocate(c, h, p, n).0
      case Store(p, i, v) => h.(mem := h.mem[p + i - c.base := v])
  }

  lemma FreeReady(c: Config, h: Heap, p: nat)
    requires Inv(c, h) && (p == 0 || IsLive(c, h, p))
    ensures |h.heads| == |h.chains| == |c.sizes|
    ensures p == 0 || (IsLive(c, h, p) && p - c.align in h.headers)
  {}

  lemma ApplyKeeps(c: Config, h: Heap, e: Event)
    requires Inv(c, h)
    ensures Inv(c, Apply(c, h, e))
  {
    hide Inv, Allocate, Release, Reallocate;
    if Allowed(c, h, e) {
      match e
      case Malloc(n) => AllocateKeeps(c, h, n);
      case Mfree(p) => FreeReady(c, h, p); ReleaseKeeps(c, h, p);
      case Realloc(p, n) => ReallocateKeeps(c, h, p, n);
      case Store(p, i, v) => StoreKeeps(c, h, p, i, v);
    }
  }

  /** A region with any base: the first payload meets the assertion at the end of DoAllocate if
      and only if the base is a multiple of HEAP_BLOCK_ALIGN. Setup asks for 16 bytes only. */
  lemma FirstPayloadAlignedIff(c: Config, reserve: nat, n: nat)
    requires c.align > 0 && c.word > 0 && c.base <= c.limit
    requires AllocateNew(c, Setup(c, reserve), n).1 != 0
    ensures Aligned(AllocateNew(c, Setup(c, reserve), n).1, c.align) <==> Aligned(c.base, c.align)
  {
    hide FitSize, NextBlock;
    if Aligned(c.base, c.align) {
      AlignedNext(c.base, c.align);
    } else if Aligned(c.base + c.align, c.align) {
      var k := (c.base + c.align) / c.align;
      DivModUnique(c.base, k - 1, 0, c.align);
    }
  }

  /** A base that Setup allows and whose first payload violates the assertion */
  lemma SixteenIsNotEnough()
    ensures var c := Config(0x1_0000_0000, 64, BUCKET_SIZES, 0x80010, 0x100000);
      && Aligned(c.base, 16)
      && var p := AllocateNew(c, Setup(c, 0), 1).1; p == c.base + c.align && !Aligned(p, c.align)
  {
    var c := Config(0x1_0000_0000, 64, BUCKET_SIZES, 0x80010, 0x100000);
    assert FindFit(c.sizes, 1, 0) == 0;
    assert NextBlock(c, c.base, 0x40) == c.base + 0x80;
  }

  lemma SetupInv(c: Config, reserve: nat)
    requires ValidConfig(c) && c.base + reserve <= c.limit
    ensures Inv(c, Setup(c, reserve))
  {
    var h := Setup(c, reserve);
    forall i | 0 <= i < |c.sizes|
      ensures ChainInv(h, i)
    {}
  }

  function Run(c: Config, reserve: nat, events: seq<Event>): (h: Heap)
    requires ValidConfig(c) && c.base + reserve <= c.limit
    ensures Inv(c, h)
  {
    if events == [] then SetupInv(c, reserve); Setup(c, reserve)
    else
      var before := Run(c, reserve, events[..|events| - 1]);
      ApplyKeeps(c, before, events[|events| - 1]);
      Apply(c, before, events[|events| - 1])
  }

  ghost predicate InOneBlock(h: Heap, a: nat) {
    && (exists b :: b in h.ends && b <= a < h.ends[b])
    && (forall b, d | b in h.ends && d in h.ends :: b <= a < h.ends[b] && d <= a < h.ends[d] ==> b == d)
  }

  lemma Tiles(c: Config, h: Heap, a: nat)
    requires c.align > 0 && Tiling(c, h) && c.base <= a < h.next
    ensures InOneBlock(h, a)
  {
    assert h.blocks != [] && h.ends[h.blocks[|h.blocks| - 1]] == h.next;
    hide Tiling;
    var owner := BlocksCover(c, h, a, |h.blocks|);
    forall b, d | b in h.ends && d in h.ends && b <= a < h.ends[b] && d <= a < h.ends[d]
      ensures b == d
    {
      if b < d { BlocksDisjoint(c, h, b, d); } else if d < b { BlocksDisjoint(c, h, d, b); }
    }
  }

  /** After every run each byte below the pointer belongs to exactly one block. */
  lemma RunTiles(c: Config, reserve: nat, events: seq<Event>, a: nat)
    requires ValidConfig(c) && c.base + reserve <= c.limit
    requires c.base <= a < Run(c, reserve, events).next
    ensures InOneBlock(Run(c, reserve, events), a)
  {
    hide Run, Tiling, Blocks, Chains, InOneBlock;
    Tiles(c, Run(c, reserve, events), a);
  }

  /** A live payload is aligned, stays below the limit and the reserve, and does not reach the
      header of another live block. It holds the request if and only if its block is not hollow. */
  ghost predicate PayloadsApart(c: Config, h: Heap, p: nat, q: nat)
    requires c.align > 0 && IsLive(c, h, p) && p - c.align in h.ends && p - c.align in h.headers
  {
    var n, end := h.use[p - c.align].request, h.ends[p - c.align];
    && Aligned(p, c.align) && c.base + c.align <= p <= end <= h.next <= c.limit - h.reserve
    && (p + n <= end <==> !Hollow(c, h, p - c.align))
    && (p < q ==> end <= q - c.align)
  }

  lemma LivePayloadsApart(c: Config, h: Heap, p: nat, q: nat)
    requires Inv(c, h) && IsLive(c, h, p) && IsLive(c, h, q)
    ensures p - c.align in h.ends && p - c.align in h.headers && PayloadsApart(c, h, p, q)
  {
    hide Inv, Aligned, Hollow;
    KeySets(c, h);
    LivePayload(c, h, p - c.align);
    LivePayload(c, h, q - c.align);
    if p < q {
      LiveBlocksApart(c, h, p - c.align, q - c.align);
    }
  }

  /** After every run the live payloads are where and as large as their owners expect. */
  lemma RunLivePayloads(c: Config, reserve: nat, events: seq<Event>, p: nat, q: nat)
    requires ValidConfig(c) && c.base + reserve <= c.limit
    requires IsLive(c, Run(c, reserve, events), p) && IsLive(c, Run(c, reserve, events), q)
    ensures var h := Run(c, reserve, events);
      p - c.align in h.ends && p - c.align in h.headers && PayloadsApart(c, h, p, q)
  {
    LivePayloadsApart(c, Run(c, reserve, events), p, q);
  }

  // ---------------------------------------------------------------- runs without overflow

  /** Every recorded size is covered by its block. */
  ghost predicate Whole(c: Config, h: Heap) {
    h.headers.Keys == h.ends.Keys && forall b :: b in h.ends ==> !Hollow(c, h, b)
  }

  predicate Ordinary(c: Config, e: Event) {
    match e
    case Malloc(n) => NoWrap(c, n)
    case Realloc(p, n) => NoWrap(c, n)
    case _ => true
  }

  lemma SameExtent(c: Config, h: Heap, h': Heap, b: nat)
    requires b in h.ends && b in h'.ends && h.ends[b] == h'.ends[b]
    requires b in h.headers && b in h'.headers && h.headers[b].size == h'.headers[b].size
    ensures Hollow(c, h, b) <==> Hollow(c, h', b)
  {}

  lemma AllocateWhole(c: Config, h: Heap, n: nat)
    requires Inv(c, h) && Whole(c, h) && NoWrap(c, n)
    ensures Whole(c, Allocate(c, h, n).0)
  {
    hide Inv, Allocate, Hollow, NoWrap;
    var (h', p) := Allocate(c, h, n);
    AllocateFrame(c, h, n);
    if p != 0 {
      HandedOutWhole(c, h, n);
    }
    forall b | b in h'.ends && (p == 0 || b != p - c.align)
      ensures !Hollow(c, h', b)
    {
      SameExtent(c, h, h', b);
    }
  }

  lemma ReleaseExtents(c: Config, h: Heap, p: nat)
    requires |h.heads| == |h.chains| == |c.sizes|
    requires p == 0 || (IsLive(c, h, p) && p - c.align in h.headers)
    ensures var h' := Release(c, h, p);
      h'.ends == h.ends && h'.headers.Keys == h.headers.Keys &&
      forall b :: b in h.headers ==> h'.headers[b].size == h.headers[b].size
  {
    hide FindSize;
  }

  lemma WholeAgain(c: Config, h: Heap, h': Heap)
    requires Whole(c, h) && h'.ends == h.ends && h'.headers.Keys == h.headers.Keys
    requires forall b :: b in h.headers ==> h'.headers[b].size == h.headers[b].size
    ensures Whole(c, h')
  {
    hide Hollow;
    forall b | b in h'.ends
      ensures !Hollow(c, h', b)
    {
      SameExtent(c, h, h', b);
    }
  }

  lemma ReallocateWhole(c: Config, h: Heap, p: nat, n: nat)
    requires Inv(c, h) && Whole(c, h) && Callable(c, h, p, n) && NoWrap(c, n)
    ensures Whole(c, Reallocate(c, h, p, n).0)
  {
    hide Inv, Allocate, Release, Whole;
    FreeReady(c, h, p);
    if p == 0 {
      AllocateWhole(c, h, n);
    } else if n == 0 {
      ReleaseExtents(c, h, p);
      WholeAgain(c, h, Release(c, h, p));
    } else if h.headers[p - c.align].size >= n {
      WholeAgain(c, h, h.(use := h.use[p - c.align := Live(n)]));
    } else {
      AllocateWhole(c, h, n);
      var (h1, q) := Allocate(c, h, n);
      if q != 0 {
        ReadyToMove(c, h, p, n);
        var h2 := h1.(mem := Copy(h1.mem, q - c.base, p - c.base, h1.headers[p - c.align].size));
        MoveReady(c, h1, h2, p);
        ReleaseExtents(c, h2, p);
        WholeAgain(c, h1, Move(c, h1, p, q));
      }
    }
  }

  lemma ApplyWhole(c: Config, h: Heap, e: Event)
    requires Inv(c, h) && Whole(c, h) && Ordinary(c, e)
    ensures Whole(c, Apply(c, h, e))
  {
    hide Inv, Whole, Allocate, Release, Reallocate, NoWrap;
    if Allowed(c, h, e) {
      match e
      case Malloc(n) => AllocateWhole(c, h, n);
      case Mfree(p) =>
        FreeReady(c, h, p);
        ReleaseExtents(c, h, p);
        WholeAgain(c, h, Release(c, h, p));
      case Realloc(p, n) => ReallocateWhole(c, h, p, n);
      case Store(p, i, v) => WholeAgain(c, h, Apply(c, h, e));
    }
  }

  lemma {:induction false} RunWhole(c: Config, reserve: nat, events: seq<Event>)
    requires ValidConfig(c) && c.base + reserve <= c.limit
    requires forall i :: 0 <= i < |events| ==> Ordinary(c, events[i])
    ensures Whole(c, Run(c, reserve, events))
    decreases |events|
  {
    if events != [] {
      var n := |events| - 1;
      RunWhole(c, reserve, events[..n]);
      ApplyWhole(c, Run(c, reserve, events[..n]), events[n]);
      hide Apply, Whole, Inv, Ordinary;
    } else {
      hide Inv, Hollow;
    }
  }

  ghost predicate HoldsRequest(c: Config, h: Heap, p: nat) {
    && p >= c.align && p - c.align in h.use && h.use[p - c.align].Live? && p - c.align in h.ends
    && p + h.use[p - c.align].request <= h.ends[p - c.align]
  }

  lemma WholeHoldsRequest(c: Config, h: Heap, p: nat)
    requires Inv(c, h) && Whole(c, h) && IsLive(c, h, p)
    ensures HoldsRequest(c, h, p)
  {
    hide Inv, Hollow;
    LivePayload(c, h, p - c.align);
  }

  /** After every run without a request that overflows the size computation all live payloads are
      as large as requested. */
  lemma RunHoldsRequests(c: Config, reserve: nat, events: seq<Event>, p: nat)
    requires ValidConfig(c) && c.base + reserve <= c.limit
    requires forall i :: 0 <= i < |events| ==> Ordinary(c, events[i])
    requires IsLive(c, Run(c, reserve, events), p)
    ensures HoldsRequest(c, Run(c, reserve, events), p)
  {
    hide Inv, Whole, HoldsRequest, IsLive, Ordinary, ValidConfig, Run;
    RunWhole(c, reserve, events);
    WholeHoldsRequest(c, Run(c, reserve, events), p);
  }

  /** After every run a block that is not live is on the free list of its size and on no
      other, or it has a size without a list; the lists hold nothing else and are acyclic. */
  lemma RunFreeLists(c: Config, reserve: nat, events: seq<Event>, b: nat)
    requires ValidConfig(c) && c.base + reserve <= c.limit
    requires b in Run(c, reserve, events).ends
    ensures var h := Run(c, reserve, events);
      && b in h.use && b in h.headers && |h.chains| == |h.heads| == |c.sizes|
      && (forall i :: 0 <= i < |c.sizes| ==>
            && ChainInv(h, i)
            && (b in h.chains[i] <==> !h.use[b].Live? && h.headers[b].size == c.sizes[i]))
  {
    hide Aligned, Tiled, Run;
    var h := Run(c, reserve, events);
    assert BlockInv(c, h, b);
    forall i | 0 <= i < |c.sizes|
      ensures ChainInv(h, i)
      ensures b in h.chains[i] <==> !h.use[b].Live? && h.headers[b].size == c.sizes[i]
    {
      assert ChainInv(h, i);
    }
  }
}
