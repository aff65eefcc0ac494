/** The linear allocator: a doubly linked list of headers kept in the memory it hands out. */
module LinearAllocation {
  import opened Bytes
  import opened HeapBlocks
  import opened Masks

  /** Sums in 32-bit registers. */
  function Add32(a: nat, b: nat): nat { (a + b) % MEMORY }

  // ----- headers in memory

  /** A header; 0 is the null pointer. */
  datatype Header = Header(next: nat, prev: nat, taken: bool, size: nat, offset: byte)

  ghost predicate NodeOk(mem: map<int, Header>, bs: seq<Block>, i: nat)
    requires i < |bs|
  {
    && bs[i].addr in mem
    && var h := mem[bs[i].addr];
       && h.next == (if i + 1 < |bs| then bs[i + 1].addr else 0)
       && h.prev == (if i > 0 then bs[i - 1].addr else 0)
       && h.taken == bs[i].used && h.size == bs[i].size
       && (bs[i].used ==> h.offset == bs[i].Pad())
  }

  ghost predicate Linked(mem: map<int, Header>, bs: seq<Block>) {
    forall i {:trigger NodeOk(mem, bs, i)} :: 0 <= i < |bs| ==> NodeOk(mem, bs, i)
  }

  /** A header that was not written and whose neighbours kept their addresses is still right. */
  lemma NodeKept(mem: map<int, Header>, bs: seq<Block>, i: nat, now: map<int, Header>, cs: seq<Block>, j: nat)
    requires i < |bs| && j < |cs| && NodeOk(mem, bs, i) && cs[j] == bs[i]
    requires bs[i].addr in now && now[bs[i].addr] == mem[bs[i].addr]
    requires (i + 1 < |bs| <==> j + 1 < |cs|) && (i > 0 <==> j > 0)
    requires i + 1 < |bs| ==> cs[j + 1].addr == bs[i + 1].addr
    requires i > 0 ==> cs[j - 1].addr == bs[i - 1].addr
    ensures NodeOk(now, cs, j)
  {
  }

  /** The offset byte of the header at `p`, or what else lies there. */
  function OffsetAt(mem: map<int, Header>, p: int, stray: byte): byte {
    if p in mem then mem[p].offset else stray
  }

  /** Where free looks for the header of an address. */
  function Reached(mem: map<int, Header>, ptr: nat, stray: byte): int {
    ptr - NODE - OffsetAt(mem, ptr - NODE, stray)
  }

  /** free reaches the header of the block malloc handed out exactly when there is no gap or the byte found in front of
      the address happens to be the whole gap; so it never does from a gap of 256 on. When that byte is 0, it reaches no
      header at all. */
  lemma FreeReachesIff(mem: map<int, Header>, bs: seq<Block>, i: nat, stray: byte, start: nat, total: nat)
    requires Heap(bs, start, total) && Linked(mem, bs) && i < |bs| && bs[i].used
    ensures var b := bs[i];
            && (Reached(mem, b.Ptr(), stray) == b.addr <==> b.gap == 0 || OffsetAt(mem, b.Ptr() - NODE, stray) == b.gap)
            && (b.gap >= 0x100 ==> Reached(mem, b.Ptr(), stray) != b.addr)
            && (0 < b.gap < NODE + b.size && OffsetAt(mem, b.Ptr() - NODE, stray) == 0 ==>
                  forall j :: 0 <= j < |bs| ==> bs[j].addr != Reached(mem, b.Ptr(), stray))
  {
    assert NodeOk(mem, bs, i);
    forall j | 0 <= j < |bs| && 0 < bs[i].gap < NODE + bs[i].size
      ensures bs[j].addr != bs[i].addr + bs[i].gap
    {
      if j != i { PayloadsDisjoint(bs, start, total, i, j); }
    }
  }

  /** The same said of the address malloc returns, before anything is written behind the header: freeing it leads back to
      the block malloc chose exactly when the gap is 0 or the byte found equals it. */
  lemma FreeAfterMallocIff(mem: map<int, Header>, bs: seq<Block>, n: nat, a: nat, stray: byte, start: nat, total: nat)
    requires Heap(bs, start, total) && a > 0 && PadFits(bs, n, a) && FirstFit(bs, n) < |bs|
    requires Linked(mem, HeapBlocks.Malloc(bs, n, a))
    ensures var b, ptr := bs[FirstFit(bs, n)], MallocPtr(bs, n, a);
            Reached(mem, ptr, stray) == b.addr <==> Gap(b, a) == 0 || OffsetAt(mem, ptr - NODE, stray) == Gap(b, a)
  {
    hide Gap, Carve, FirstFit, Heap, Linked, Reached;
    var i, r := FirstFit(bs, n), HeapBlocks.Malloc(bs, n, a);
    MallocKeeps(bs, n, a, start, total);
    CarveShape(bs[i], n, a);
    assert r[i] == Carve(bs[i], n, a)[0];
    FreeReachesIff(mem, r, i, stray, start, total);
  }

  /** 16 bytes at a multiple of 64 from a fresh heap at 0x1000: with a zero byte in front of the address, freeing it goes
      to 0x102C, where no header is. */
  lemma FreeMissesInput(mem: map<int, Header>)
    requires Linked(mem, HeapBlocks.Malloc(Initial(0x1000, 0x1000), 16, 64)) && 0x102C !in mem
    ensures var bs := HeapBlocks.Malloc(Initial(0x1000, 0x1000), 16, 64);
            && MallocPtr(Initial(0x1000, 0x1000), 16, 64) == 0x1040 && |bs| == 2 && bs[0].Ptr() == 0x1040 && bs[0].used
            && Reached(mem, 0x1040, 0) == 0x102C != bs[0].addr
  {
    hide Aligned, HeapBlocks.Malloc, FirstFit, MallocPtr;
    Aligned64(0x1014);
    OneBlock(Initial(0x1000, 0x1000)[0], 16, 64);
    assert Gap(Initial(0x1000, 0x1000)[0], 64) == 44;
  }

  /** 16 bytes at a multiple of 512 from a heap of one block of 32 bytes at 0x10EC: the gap is 256, the byte kept of it
      is 0, the heap stays sound, and no byte whatever leads free back to the header. */
  lemma FreeNeverInput(mem: map<int, Header>, stray: byte)
    requires Linked(mem, HeapBlocks.Malloc(Initial(0x10EC, NODE + 32), 16, 512))
    ensures var was := Initial(0x10EC, NODE + 32);
            var bs := HeapBlocks.Malloc(was, 16, 512);
            && PadFits(was, 16, 512) && Heap(bs, 0x10EC, NODE + 32) && bs == [Block(0x10EC, 32, true, 256)]
            && bs[0].Pad() == 0 && MallocPtr(was, 16, 512) == bs[0].Ptr() == 0x1200
            && Reached(mem, 0x1200, stray) != 0x10EC
  {
    hide Aligned, HeapBlocks.Malloc, FirstFit, MallocPtr, PadFits;
    Aligned512(0x1100);
    var was := Initial(0x10EC, NODE + 32);
    OneBlock(was[0], 16, 512);
    assert Gap(was[0], 512) == 256;
    OneFits(was[0], 16, 512);
    MallocKeeps(was, 16, 512, 0x10EC, NODE + 32);
    FreeReachesIff(mem, HeapBlocks.Malloc(was, 16, 512), 0, stray, 0x10EC, NODE + 32);
  }

  lemma PaddingFacts(b: Block, a: nat, n: nat, alignedAddr: nat, padding: nat)
    requires a > 0 && alignedAddr == Aligned(b.addr + NODE, a) && padding == (alignedAddr - (b.addr + NODE)) % 0x100
    ensures padding == PadOf(b, a) < a && alignedAddr == b.addr + NODE + Gap(b, a)
    ensures Gap(b, a) < 0x100 ==> alignedAddr == b.addr + NODE + padding
    ensures Splits(b, n, a) <==> b.size >= n + padding + NODE + 1
  {
    hide Aligned;
  }

  /** The sums of the split test stay below 2^32. */
  lemma SplitTest(b: Block, n: nat, padding: nat, a: nat, top: nat)
    requires n < b.size && 0 < b.addr && b.End() <= top <= MEMORY && (a == 1 || top + a <= MEMORY) && padding < a
    ensures Add32(Add32(Add32(n, padding), NODE), 1) == n + padding + NODE + 1
  {
  }

  class LinearAllocator {
    var first: nat
    /** The headers in memory, by address; stale ones stay behind. */
    var mem: map<int, Header>

    /** The list from `first` on. */
    ghost var blocks: seq<Block>
    ghost const start: nat
    ghost const total: nat

    ghost predicate Valid()
      reads this
    {
      if blocks == [] then first == 0 && total < NODE
      else Heap(blocks, start, total) && first == start && Linked(mem, blocks)
    }

    constructor (start: nat, size: nat)
      requires 0 < start && start + size <= MEMORY
      ensures Valid() && this.start == start && this.total == size
      ensures blocks == if size < NODE then [] else Initial(start, size)
    {
      this.start, this.total := start, size;
      if size < NODE {
        first, mem := 0, map[];
        blocks := [];
      } else {
        first := start;
        var stale: byte := *;
        mem := map[start := Header(0, 0, false, size - NODE, stale)];
        blocks := Initial(start, size);
      }
      new;
      if blocks != [] { assert NodeOk(mem, blocks, 0); }
    }

    /** First free chunk that is strictly larger than the request; 0 if there is none. */
    method FindChunk(size: nat) returns (result: nat)
      requires Valid()
      ensures var i := FirstFit(blocks, size); result == if i < |blocks| then blocks[i].addr else 0
    {
      var chunk := first;
      result := 0;
      ghost var j := 0;
      while chunk != 0 && result == 0
        invariant j <= |blocks|
        invariant result == 0 ==> chunk == (if j < |blocks| then blocks[j].addr else 0) && j <= FirstFit(blocks, size)
        invariant result != 0 ==> j < |blocks| && j == FirstFit(blocks, size) && result == blocks[j].addr
        decreases |blocks| - j, result == 0
      {
        InBounds(blocks, start, total, j);
        assert NodeOk(mem, blocks, j);
        if size < mem[chunk].size && !mem[chunk].taken {
          result := chunk;
        } else {
          j := j + 1;
        }
        chunk := mem[chunk].next;
      }
      if j < |blocks| && result == 0 { InBounds(blocks, start, total, j); }
    }

    /** Rounds the address behind a header up with the mask; the sums do not leave 32 bits. */
    static method AlignedAddress(result: nat, a: nat) returns (alignedAddr: nat, padding: nat)
      requires a > 0 && result + NODE + (a - 1) < MEMORY
      ensures alignedAddr == Aligned(result + NODE, a) && padding == (alignedAddr - (result + NODE)) % 0x100
    {
      hide AndNot;
      var rawAddr := Add32(result, NODE);
      alignedAddr := AndNot(Add32(rawAddr, a - 1), a - 1);
      padding := (alignedAddr - rawAddr) % 0x100;
    }

    /** First fit with splitting. `alignment` 0 stands for 1. The byte that keeps the padding must be enough for it. */
    method Malloc(size: nat, alignment: nat) returns (ptr: nat)
      requires Valid() && size < MEMORY
      requires alignment <= 1 || start + total + alignment <= MEMORY
      requires PadFits(blocks, size, if alignment == 0 then 1 else alignment)
      modifies this
      ensures Valid()
      ensures var a := if alignment == 0 then 1 else alignment;
              blocks == HeapBlocks.Malloc(old(blocks), size, a) && ptr == MallocPtr(old(blocks), size, a)
    {
      hide Heap, Linked, Aligned, FirstFit, Carve, NodeOk, Gap, PadOf, Splits, Add32;
      var a := if alignment == 0 then 1 else alignment;
      ghost var bs, i := blocks, FirstFit(blocks, size);
      var result := FindChunk(size);
      if i < |bs| { ChunkFacts(i); }
      if result == 0 {
        return 0;
      }
      var alignedAddr, padding := AlignedAddress(result, a);
      PaddingFacts(bs[i], a, size, alignedAddr, padding);
      SplitTest(bs[i], size, padding, a, start + total);
      if mem[result].size >= Add32(Add32(Add32(size, padding), NODE), 1) {
        SplitChunk(result, alignedAddr, size, padding, i, a);
      } else {
        MarkLinks(mem, bs, i, size, a, mem[result := mem[result].(taken := true, offset := padding)], start, total);
      }
      mem := mem[result := mem[result].(taken := true, offset := padding)];
      MallocKeeps(bs, size, a, start, total);
      blocks := HeapBlocks.Malloc(bs, size, a);
      ptr := alignedAddr;
    }

    /** Puts a new header behind the requested bytes and links it after the chosen chunk. */
    method SplitChunk(result: nat, alignedAddr: nat, size: nat, padding: nat, ghost i: nat, ghost a: nat)
      requires Valid() && a > 0 && i == FirstFit(blocks, size) < |blocks| && result == blocks[i].addr && result in mem
      requires Gap(blocks[i], a) < 0x100 && padding == PadOf(blocks[i], a)
      requires alignedAddr == result + NODE + padding && alignedAddr + size < MEMORY
      requires blocks[i].size >= size + padding + NODE + 1 && mem[result].size == blocks[i].size
      requires mem[result].next != 0 ==> mem[result].next in mem
      modifies this`mem
      ensures result in mem
      ensures Linked(mem[result := mem[result].(taken := true, offset := padding)], HeapBlocks.Malloc(blocks, size, a))
    {
      hide Carve, HeapBlocks.Malloc, FirstFit, PadOf;
      ChunkFacts(i);
      ghost var was := mem;
      var temp := Add32(alignedAddr, size);
      var stale: byte := *;
      mem := mem[temp := Header(mem[result].next, result, false, mem[result].size - size - padding - NODE, stale)];
      if mem[temp].next != 0 {
        mem := mem[mem[temp].next := mem[mem[temp].next].(prev := temp)];
      }
      mem := mem[result := mem[result].(size := size + padding, next := temp)];
      SplitLinks(was, blocks, i, size, a, stale, mem[result := mem[result].(taken := true, offset := padding)], start, total);
    }

    /** Joins a freed chunk into a free predecessor. */
    method MergePrev(node: nat, ghost cs: seq<Block>, ghost i: nat) returns (merged: nat, ghost ds: seq<Block>, ghost j: nat)
      requires 0 < start && Tiled(cs, start, total) && Linked(mem, cs) && i < |cs| && !cs[i].used && node == cs[i].addr
      modifies this`mem
      ensures Tiled(ds, start, total) && Linked(mem, ds) && j < |ds| && !ds[j].used && merged == ds[j].addr
      ensures if i > 0 && !cs[i - 1].used then j == i - 1 && ds == MergedAt(cs, i - 1) else j == i && ds == cs
    {
      hide Linked, Tiled, NodeOk, MergedAt;
      NodeFacts(mem, cs, i, start, total);
      merged, ds, j := node, cs, i;
      if mem[node].prev != 0 && !mem[mem[node].prev].taken {
        NodeFacts(mem, cs, i - 1, start, total);
        var prev, next := mem[node].prev, mem[node].next;
        ghost var was := mem;
        mem := mem[prev := mem[prev].(next := next)];
        mem := mem[prev := mem[prev].(size := mem[prev].size + (mem[node].size + NODE))];
        if next != 0 {
          mem := mem[next := mem[next].(prev := prev)];
        }
        MergeLinks(was, cs, i - 1, mem, start, total);
        merged, ds, j := prev, MergedAt(cs, i - 1), i - 1;
      }
    }

    /** Joins a free successor into a free chunk. */
    method MergeNext(node: nat, ghost cs: seq<Block>, ghost i: nat) returns (ghost ds: seq<Block>)
      requires 0 < start && Tiled(cs, start, total) && Linked(mem, cs) && i < |cs| && !cs[i].used && node == cs[i].addr
      modifies this`mem
      ensures Linked(mem, ds)
      ensures ds == if i + 1 < |cs| && !cs[i + 1].used then MergedAt(cs, i) else cs
    {
      hide Linked, Tiled, NodeOk, MergedAt;
      NodeFacts(mem, cs, i, start, total);
      ds := cs;
      if mem[node].next != 0 && !mem[mem[node].next].taken {
        NodeFacts(mem, cs, i + 1, start, total);
        var next := mem[node].next;
        ghost var was := mem;
        mem := mem[node := mem[node].(size := mem[node].size + (mem[next].size + NODE))];
        mem := mem[node := mem[node].(next := mem[next].next)];
        if mem[node].next != 0 {
          mem := mem[mem[node].next := mem[mem[node].next].(prev := node)];
        }
        MergeLinks(was, cs, i, mem, start, total);
        ds := MergedAt(cs, i);
      }
    }

    /** Frees the block with this address: joined into a free predecessor, then by a free successor. The header is looked
        up right in front of the address and then as far back as the offset byte found there says; `stray` is what lies
        at the place of that byte when no header does. */
    method Free(ptr: nat, stray: byte, ghost i: nat)
      requires Valid()
      requires ptr != 0 ==> i < |blocks| && blocks[i].used && ptr == blocks[i].Ptr()
      requires ptr != 0 ==> blocks[i].gap == 0 || OffsetAt(mem, ptr - NODE, stray) == blocks[i].gap
      modifies this
      ensures Valid()
      ensures blocks == if ptr == 0 then old(blocks) else HeapBlocks.Free(old(blocks), i)
    {
      hide Linked, Tiled, NodeOk, MergedAt, HeapBlocks.Free;
      if ptr == 0 { return; }
      ghost var bs := blocks;
      NodeFacts(mem, bs, i, start, total);
      var toBeFreed := ptr - NODE;
      toBeFreed := toBeFreed - OffsetAt(mem, toBeFreed, stray);
      mem := mem[toBeFreed := mem[toBeFreed].(taken := false)];
      UnmarkLinks(old(mem), bs, i, mem, start, total);
      ghost var cs, j := bs[i := bs[i].(used := false, gap := 0)], i;
      toBeFreed, cs, j := MergePrev(toBeFreed, cs, j);
      cs := MergeNext(toBeFreed, cs, j);
      FreeIsMerges(bs, i);
      FreeKeeps(bs, i, start, total);
      blocks := cs;
    }

    lemma ChunkFacts(i: nat)
      requires Valid() && i < |blocks|
      ensures Heap(blocks, start, total) && Linked(mem, blocks) && NodeOk(mem, blocks, i)
      ensures 0 < start <= blocks[i].addr && blocks[i].End() <= start + total <= MEMORY
      ensures blocks[i].addr in mem && mem[blocks[i].addr].size == blocks[i].size
      ensures mem[blocks[i].addr].next != 0 ==> mem[blocks[i].addr].next in mem
    {
      NodeFacts(mem, blocks, i, start, total);
    }
  }

  /** The header of a listed block, and those of its neighbours. */
  lemma NodeFacts(mem: map<int, Header>, bs: seq<Block>, i: nat, start: nat, total: nat)
    requires 0 < start && Tiled(bs, start, total) && Linked(mem, bs) && i < |bs|
    ensures NodeOk(mem, bs, i) && bs[i].addr in mem
    ensures var h := mem[bs[i].addr];
            && h.size == bs[i].size && h.taken == bs[i].used && (bs[i].used ==> h.offset == bs[i].Pad())
            && h.next == (if i + 1 < |bs| then bs[i + 1].addr else 0) && h.prev == (if i > 0 then bs[i - 1].addr else 0)
    ensures start <= bs[i].addr && bs[i].End() <= start + total
    ensures i + 1 < |bs| ==> 0 < bs[i + 1].addr && bs[i + 1].addr in mem && mem[bs[i + 1].addr].taken == bs[i + 1].used
    ensures i > 0 ==> 0 < bs[i - 1].addr && bs[i - 1].addr in mem && mem[bs[i - 1].addr].taken == bs[i - 1].used
  {
    assert NodeOk(mem, bs, i);
    InBounds(bs, start, total, i);
    if i + 1 < |bs| {
      assert NodeOk(mem, bs, i + 1);
      InBounds(bs, start, total, i + 1);
    }
    if i > 0 {
      assert NodeOk(mem, bs, i - 1);
      InBounds(bs, start, total, i - 1);
    }
  }

  /** The list with block `k + 1` joined into block `k`. */
  function MergedAt(bs: seq<Block>, k: nat): (r: seq<Block>)
    requires k + 1 < |bs|
    ensures |r| == |bs| - 1 && r[k] == Merge(bs[k], bs[k + 1])
  {
    bs[..k] + [Merge(bs[k], bs[k + 1])] + bs[k + 2..]
  }

  /** Freeing is unmarking, joining into a free predecessor, and joining a free successor. */
  lemma FreeIsMerges(bs: seq<Block>, i: nat)
    requires i < |bs| && bs[i].used
    ensures var b1 := bs[i := bs[i].(used := false, gap := 0)];
            var left := i > 0 && !b1[i - 1].used;
            var b2 := if left then MergedAt(b1, i - 1) else b1;
            var j := if left then i - 1 else i;
            j < |b2| && HeapBlocks.Free(bs, i) == if j + 1 < |b2| && !b2[j + 1].used then MergedAt(b2, j) else b2
  {
  }

  lemma UnmarkLinks(mem: map<int, Header>, bs: seq<Block>, i: nat, now: map<int, Header>, start: nat, total: nat)
    requires Tiled(bs, start, total) && Linked(mem, bs) && i < |bs| && bs[i].addr in mem
    requires now == mem[bs[i].addr := mem[bs[i].addr].(taken := false)]
    ensures var cs := bs[i := bs[i].(used := false, gap := 0)];
            Linked(now, cs) && Tiled(cs, start, total)
  {
    var cs := bs[i := bs[i].(used := false, gap := 0)];
    forall j | 0 <= j < |cs|
      ensures NodeOk(now, cs, j)
    {
      assert NodeOk(mem, bs, j);
      if j != i { PayloadsDisjoint(bs, start, total, i, j); }
    }
    forall j | 0 <= j < |cs| - 1
      ensures cs[j].End() == cs[j + 1].addr
    {
      assert bs[j].End() == bs[j + 1].addr;
    }
  }

  /** Unlinking the successor of a free chunk and adding up the sizes keeps the list linked. */
  lemma MergeLinks(mem: map<int, Header>, bs: seq<Block>, k: nat, now: map<int, Header>, start: nat, total: nat)
    requires Tiled(bs, start, total) && Linked(mem, bs) && k + 1 < |bs| && !bs[k].used && 0 < start
    requires bs[k].addr in mem && bs[k + 1].addr in mem
    requires var a, b := bs[k].addr, bs[k + 1].addr;
             var next := mem[b].next;
             var m1 := mem[a := mem[a].(size := mem[a].size + (mem[b].size + NODE), next := next)];
             && (next != 0 ==> next in m1)
             && now == if next != 0 then m1[next := m1[next].(prev := a)] else m1
    ensures Linked(now, MergedAt(bs, k)) && Tiled(MergedAt(bs, k), start, total)
  {
    var cs := MergedAt(bs, k);
    var m := Merge(bs[k], bs[k + 1]);
    assert bs[k].End() == bs[k + 1].addr;
    assert NodeOk(mem, bs, k) && NodeOk(mem, bs, k + 1);
    TiledReplace(bs, k, k + 2, [m], start, total);
    if k + 2 < |bs| { InBounds(bs, start, total, k + 2); }
    forall j | 0 <= j < |cs|
      ensures NodeOk(now, cs, j)
    {
      if j < k {
        assert NodeOk(mem, bs, j) && cs[j] == bs[j];
        Ordered(bs, start, total, j, k);
        if k + 2 < |bs| { Ordered(bs, start, total, j, k + 2); }
        assert cs[j + 1].addr == bs[j + 1].addr;
        NodeKept(mem, bs, j, now, cs, j);
      } else if j == k {
        assert cs[k] == m;
        if k > 0 { assert cs[k - 1] == bs[k - 1]; }
        if k + 2 < |bs| {
          assert cs[k + 1] == bs[k + 2];
          Ordered(bs, start, total, k, k + 2);
        }
      } else if j == k + 1 {
        assert NodeOk(mem, bs, k + 2) && cs[j] == bs[k + 2] && cs[k] == m;
        if j + 1 < |cs| { assert cs[j + 1] == bs[k + 3]; }
        Ordered(bs, start, total, k, k + 2);
      } else {
        assert NodeOk(mem, bs, j + 1) && cs[j] == bs[j + 1] && cs[j - 1] == bs[j];
        if j + 1 < |cs| { assert cs[j + 1] == bs[j + 2]; }
        Ordered(bs, start, total, k, j + 1);
        Ordered(bs, start, total, k + 2, j + 1);
        NodeKept(mem, bs, j + 1, now, cs, j);
      }
    }
  }

  /** Marking a whole block as used keeps the list linked. */
  lemma MarkLinks(mem: map<int, Header>, bs: seq<Block>, i: nat, n: nat, a: nat, now: map<int, Header>, start: nat, total: nat)
    requires Heap(bs, start, total) && Linked(mem, bs) && a > 0 && i == FirstFit(bs, n) < |bs|
    requires NodeOk(mem, bs, i) && bs[i].size < n + PadOf(bs[i], a) + NODE + 1
    requires now == mem[bs[i].addr := mem[bs[i].addr].(taken := true, offset := PadOf(bs[i], a))]
    ensures Linked(now, HeapBlocks.Malloc(bs, n, a))
  {
    var cs := HeapBlocks.Malloc(bs, n, a);
    assert cs == bs[i := bs[i].(used := true, gap := Gap(bs[i], a))];
    forall j | 0 <= j < |cs|
      ensures NodeOk(now, cs, j)
    {
      assert NodeOk(mem, bs, j);
      if j != i { PayloadsDisjoint(bs, start, total, i, j); }
    }
  }

  lemma EndMeetsNext(bs: seq<Block>, start: nat, total: nat, i: nat)
    requires Tiled(bs, start, total) && i + 1 < |bs|
    ensures bs[i].End() == bs[i + 1].addr
  {
  }

  /** Splitting a block keeps the list linked in both directions. */
  lemma SplitLinks(mem: map<int, Header>, bs: seq<Block>, i: nat, n: nat, a: nat, stale: byte, now: map<int, Header>,
                   start: nat, total: nat)
    requires Heap(bs, start, total) && Linked(mem, bs) && a > 0 && i == FirstFit(bs, n) < |bs|
    requires NodeOk(mem, bs, i) && bs[i].size >= n + PadOf(bs[i], a) + NODE + 1 && Gap(bs[i], a) < 0x100
    requires var b, p := bs[i], PadOf(bs[i], a);
             var temp, next := b.addr + NODE + p + n, mem[b.addr].next;
             var m1 := mem[temp := Header(next, b.addr, false, b.size - n - p - NODE, stale)];
             && (next != 0 ==> next in m1)
             && var m2 := if next != 0 then m1[next := m1[next].(prev := temp)] else m1;
             now == m2[b.addr := Header(temp, mem[b.addr].prev, true, n + p, p)]
    ensures Linked(now, HeapBlocks.Malloc(bs, n, a))
  {
    hide Aligned, PadOf, FirstFit, NoFreePairs, Plain, Tiled;
    var cs, run := HeapBlocks.Malloc(bs, n, a), Carve(bs[i], n, a);
    if i + 1 < |bs| { EndMeetsNext(bs, start, total, i); }
    assert cs == bs[..i] + run + bs[i + 1..] && |run| == 2;
    assert i + 1 < |bs| ==> bs[i].End() == bs[i + 1].addr && NodeOk(mem, bs, i + 1);
    forall j | 0 <= j < |cs|
      ensures NodeOk(now, cs, j)
    {
      if j < i {
        assert NodeOk(mem, bs, j) && cs[j] == bs[j];
        Ordered(bs, start, total, j, i);
        if i + 1 < |bs| { Ordered(bs, start, total, j, i + 1); }
        NodeKept(mem, bs, j, now, cs, j);
      } else if j == i {
        assert cs[i] == run[0] && cs[i + 1] == run[1];
        if i > 0 { assert cs[i - 1] == bs[i - 1]; }
        InBounds(bs, start, total, i);
        if i + 1 < |bs| { Ordered(bs, start, total, i, i + 1); }
      } else if j == i + 1 {
        assert cs[i] == run[0] && cs[i + 1] == run[1];
        if i + 1 < |bs| { assert cs[i + 2] == bs[i + 1]; }
      } else if j == i + 2 {
        assert cs[j] == bs[i + 1] && cs[j - 1] == run[1];
        if j + 1 < |cs| { assert cs[j + 1] == bs[i + 2]; }
        InBounds(bs, start, total, i + 1);
      } else {
        assert NodeOk(mem, bs, j - 1) && cs[j] == bs[j - 1] && cs[j - 1] == bs[j - 2];
        if j + 1 < |cs| { assert cs[j + 1] == bs[j]; }
        Ordered(bs, start, total, i + 1, j - 1);
        NodeKept(mem, bs, j - 1, now, cs, j);
      }
    }
  }
}
