/** class CHeapAllocator: the same operations on the object's fields and on memory. */
module HeapAllocator {
  import opened Basics
  import opened Spec = HeapSpec

  class CHeapAllocator {
    ghost const config: Config
    const align: nat
    const word: nat
    const sizes: seq<nat>
    const base: nat
    const limit: nat
    var next: nat
    var reserve: nat
    const heads: array<nat>
    var headers: map<nat, Header>
    const mem: array<uint8>
    ghost var blocks: seq<nat>
    ghost var ends: map<nat, nat>
    ghost var use: map<nat, Use>
    ghost var chains: seq<seq<nat>>

    ghost function Value(): Heap
      reads this, heads, mem
    {
      Heap(next, reserve, heads[..], headers, mem[..], blocks, ends, use, chains)
    }

    ghost predicate Valid()
      reads this, heads, mem
    {
      && config == Config(word, align, sizes, base, limit)
      && heads as object != mem
      && Inv(config, Value())
    }

    /** Constructor and Setup */
    constructor (word: nat, align: nat, sizes: seq<nat>, base: nat, size: nat, reserve: nat)
      requires ValidConfig(Config(word, align, sizes, base, base + size)) && reserve <= size
      ensures Valid() && config == Config(word, align, sizes, base, base + size)
      ensures Value() == Setup(config, reserve)
      ensures next == base && this.reserve == reserve && use == map[]
      ensures forall i :: 0 <= i < |sizes| ==> heads[i] == 0 && chains[i] == []
    {
      config := Config(word, align, sizes, base, base + size);
      this.word, this.align, this.sizes := word, align, sizes;
      this.base, limit := base, base + size;
      next := base;
      this.reserve := reserve;
      heads := new nat[|sizes|](_ => 0);
      headers := map[];
      mem := new uint8[size](_ => 0);
      blocks, ends, use, chains := [], map[], map[], seq(|sizes|, _ => []);
      new;
      SetupInv(config, reserve);
      assert heads[..] == Setup(config, reserve).heads && mem[..] == Setup(config, reserve).mem;
    }

    method FindBucket(n: nat) returns (i: nat)
      ensures i == FindFit(sizes, n, 0)
    {
      i := 0;
      while i < |sizes| && n > sizes[i]
        invariant i <= |sizes|
        invariant FindFit(sizes, n, 0) == FindFit(sizes, n, i)
      {
        i := i + 1;
      }
    }

    /** The part of DoAllocate that takes a new block at m_pNext, 0 if there is no room */
    method Carve(size: nat) returns (b: nat)
      requires align > 0 && word > 0 && next > 0
      modifies `next, `reserve, `headers, `blocks, `ends
      ensures var nextBlock := BlockEnd(word, align, old(next), size);
        if nextBlock <= old(next) || nextBlock > limit - old(reserve) then
          b == 0 && reserve == 0 && unchanged(`next, `headers, `blocks, `ends)
        else
          && b == old(next) && next == nextBlock && unchanged(`reserve)
          && headers == old(headers)[b := Header(0, U32(size), 0)]
          && blocks == old(blocks) + [b] && ends == old(ends)[b := nextBlock]
    {
      hide BlockEnd;
      b := next;
      var nextBlock := BlockEnd(word, align, next, size);
      if nextBlock <= next || nextBlock > limit - reserve {
        reserve := 0;
        return 0;
      }
      next := nextBlock;
      headers := headers[b := Header(0, size % UINT32_RANGE, 0)];
      blocks, ends := blocks + [b], ends[b := nextBlock];
    }

    /** DoAllocate */
    method DoAllocate(n: nat) returns (p: nat)
      requires Valid() && n < word
      modifies this, heads
      ensures Valid() && (Value(), p) == Allocate(config, old(Value()), n)
      ensures p != 0 ==> Recorded(config, Value(), p, n)
    {
      hide Inv, BlockEnd, FindFit, ValidConfig, Link, Recorded;
      ghost var h := Value();
      AllocateKeeps(config, h, n);
      HeapReady(config, h);
      if Allocate(config, h, n).1 != 0 {
        AllocateRecords(config, h, n);
      }
      var i := FindBucket(n);
      var size := if i < |sizes| then sizes[i] else n;
      var b: nat;
      if i < |sizes| && heads[i] != 0 {
        b := heads[i];
        heads[i] := headers[b].next;
        chains := chains[i := chains[i][1..]];
      } else {
        b := Carve(size);
        if b == 0 {
          return 0;
        }
      }
      headers := headers[b := headers[b].(magic := ALLOC_MAGIC, next := 0)];
      use := use[b := Live(n)];
      p := b + align;
      if i < |sizes| && h.heads[i] != 0 {
        assert heads[..] == h.heads[i := h.headers[b].next];
        assert Value() == TakeFree(h, i, n);
      } else {
        assert headers == h.headers[b := Header(ALLOC_MAGIC, U32(size), 0)] && heads[..] == h.heads;
        assert Value() == TakeNew(h, NextBlock(config, h.next, size), size, n);
      }
    }

    method FindBucketOf(size: nat) returns (i: nat)
      ensures i == FindSize(sizes, size, 0)
    {
      i := 0;
      while i < |sizes| && size != sizes[i]
        invariant i <= |sizes|
        invariant FindSize(sizes, size, 0) == FindSize(sizes, size, i)
      {
        i := i + 1;
      }
    }

    /** DoFree */
    method DoFree(p: nat)
      requires Valid() && (p == 0 || IsLive(config, Value(), p))
      modifies this, heads
      ensures Valid() && Value() == Release(config, old(Value()), p)
      ensures p != 0 ==> p >= align && p - align in old(headers) && p - align in use && !use[p - align].Live?
      ensures p != 0 ==> Pushed(sizes, old(chains), chains, p - align, old(headers[p - align].size))
    {
      hide Inv, FindSize, ValidConfig, Pushed;
      ghost var h := Value();
      HeapReady(config, Value());
      if p != 0 {
        ReleasePushes(config, h, p);
      }
      assert p != 0 ==> p - align in headers && p >= align;
      ReleaseKeeps(config, Value(), p);
      if p == 0 {
        return;
      }
      var b := p - align;
      headers := headers[b := headers[b].(magic := FREE_MAGIC)];
      ghost var size := headers[b].size;
      var i := FindBucketOf(headers[b].size);
      if i < |sizes| {
        headers := headers[b := headers[b].(next := heads[i])];
        heads[i] := b;
        use, chains := use[b := Free(i)], chains[i := [b] + chains[i]];
        assert heads[..] == h.heads[i := b];
        assert headers == h.headers[b := Header(FREE_MAGIC, size, h.heads[i])];
      } else {
        use := use[b := Lost];
      }
    }

    /** memcpy, given by offsets into the region */
    method MemCpy(dst: nat, src: nat, n: nat)
      requires dst + n <= mem.Length && src + n <= mem.Length
      requires src + n <= dst || dst + n <= src
      modifies mem
      ensures mem[..] == Copy(old(mem[..]), dst, src, n)
    {
      ghost var before := mem[..];
      hide Copy;
      CopyNothing(before, dst, src);
      for i := 0 to n
        invariant mem[..] == Copy(before, dst, src, i)
      {
        CopyNext(before, dst, src, i);
        mem[dst + i] := mem[src + i];
      }
    }

    /** DoReAllocate */
    method DoReAllocate(p: nat, n: nat) returns (q: nat)
      requires Valid() && Callable(config, Value(), p, n)
      modifies this, heads, mem
      ensures Valid() && (Value(), q) == Reallocate(config, old(Value()), p, n)
      ensures if p == 0 then q != 0 ==> Recorded(config, Value(), q, n)
              else Reallocated(config, old(Value()), Value(), p, q, n)
    {
      hide Inv, Allocate, Release, Recorded, Reallocated;
      ghost var h := Value();
      ReallocateKeeps(config, h, p, n);
      if p != 0 {
        ReallocateOutcome(config, h, p, n);
      }
      if p == 0 {
        q := DoAllocate(n);
        return;
      }
      if n == 0 {
        DoFree(p);
        return 0;
      }
      RecordedSize(config, h, p - align);
      var size := headers[p - align].size;
      if size >= n {
        use := use[p - align := Live(n)];
        return p;
      }
      q := DoAllocate(n);
      ghost var h1 := Value();
      if q == 0 {
        return 0;
      }
      ReadyToMove(config, h, p, n);
      MemCpy(q - base, p - base, size);
      MoveReady(config, h1, Value(), p);
      DoFree(p);
    }
  }
}
