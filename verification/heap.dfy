/** The heap as a list of blocks: first fit with splitting, and freeing with two-sided merging. */
module HeapBlocks {
  import opened Bytes
  import opened Masks

  /** Size of a block header. */
  const NODE: nat := 20
  const MEMORY: nat := 0x1_0000_0000

  /** A block: its header at `addr`, `size` bytes behind it, and for one in use the distance `gap`
      from the header's end to the address handed out. */
  datatype Block = Block(addr: nat, size: nat, used: bool, gap: nat) {
    /** The address handed out. */
    function Ptr(): nat { addr + NODE + gap }
    /** The byte the header keeps of the gap. */
    function Pad(): byte { gap % 0x100 }
    /** First address behind the block. */
    function End(): nat { addr + NODE + size }
  }

  /** Every block starts where the one before it ends, from `start` to `start + total`. */
  ghost predicate Tiled(bs: seq<Block>, start: nat, total: nat) {
    && bs != []
    && bs[0].addr == start && bs[|bs| - 1].End() == start + total
    && (forall i {:trigger bs[i].End()} :: 0 <= i < |bs| - 1 ==> bs[i].End() == bs[i + 1].addr)
  }

  ghost predicate NoFreePairs(bs: seq<Block>) {
    forall i {:trigger bs[i].used} :: 0 <= i < |bs| - 1 ==> bs[i].used || bs[i + 1].used
  }

  ghost predicate Plain(bs: seq<Block>) {
    forall i :: 0 <= i < |bs| ==> bs[i].used || bs[i].gap == 0
  }

  /** A sound heap over `total` bytes from `start` on. */
  ghost predicate Heap(bs: seq<Block>, start: nat, total: nat) {
    && 0 < start && start + total <= MEMORY
    && Tiled(bs, start, total) && NoFreePairs(bs) && Plain(bs)
  }

  function Initial(start: nat, total: nat): seq<Block>
    requires total >= NODE
  {
    [Block(start, total - NODE, false, 0)]
  }

  // ----- malloc

  predicate Fits(b: Block, n: nat) { !b.used && n < b.size }

  /** First block that fits, or the block count. */
  function FirstFit(bs: seq<Block>, n: nat): (i: nat)
    ensures i <= |bs| && (i < |bs| ==> Fits(bs[i], n))
    ensures forall j :: 0 <= j < i ==> !Fits(bs[j], n)
  {
    if bs == [] || Fits(bs[0], n) then 0 else 1 + FirstFit(bs[1..], n)
  }

  /** Distance from the header's end to the address handed out. */
  function Gap(b: Block, a: nat): (g: nat)
    requires a > 0
    ensures g < a
  {
    Aligned(b.addr + NODE, a) - (b.addr + NODE)
  }

  /** The gap as kept in one byte. */
  function PadOf(b: Block, a: nat): (p: nat)
    requires a > 0
    ensures p < 0x100 && p <= Gap(b, a) && (Gap(b, a) < 0x100 ==> p == Gap(b, a))
  {
    Gap(b, a) % 0x100
  }

  /** The rest can hold a header and a byte, as far as the byte for the gap tells. */
  predicate Splits(b: Block, n: nat, a: nat)
    requires a > 0
  {
    b.size >= n + PadOf(b, a) + NODE + 1
  }

  /** What is left of the chosen block: the sizes go by the byte, the place of the second header by the gap itself. */
  function Carve(b: Block, n: nat, a: nat): (r: seq<Block>)
    requires a > 0 && Fits(b, n)
    ensures |r| > 0 && r[0].addr == b.addr && r[0].used
  {
    var p := PadOf(b, a);
    if Splits(b, n, a) then
      [Block(b.addr, n + p, true, Gap(b, a)), Block(b.addr + NODE + Gap(b, a) + n, b.size - n - p - NODE, false, 0)]
    else
      [b.(used := true, gap := Gap(b, a))]
  }

  function Malloc(bs: seq<Block>, n: nat, a: nat): (r: seq<Block>)
    requires a > 0
  {
    var i := FirstFit(bs, n);
    if i == |bs| then bs else bs[..i] + Carve(bs[i], n, a) + bs[i + 1..]
  }

  /** The address malloc returns; 0 when no block fits. */
  function MallocPtr(bs: seq<Block>, n: nat, a: nat): nat
    requires a > 0
  {
    var i := FirstFit(bs, n);
    if i == |bs| then 0 else bs[i].addr + NODE + Gap(bs[i], a)
  }

  // ----- free

  function Merge(b: Block, c: Block): Block {
    Block(b.addr, b.size + c.size + NODE, false, 0)
  }

  /** The blocks that freeing block `i` joins: `Lo..Hi`. */
  function Lo(bs: seq<Block>, i: nat): (lo: nat)
    requires i < |bs|
    ensures lo <= i
  {
    if i > 0 && !bs[i - 1].used then i - 1 else i
  }

  function Hi(bs: seq<Block>, i: nat): (hi: nat)
    requires i < |bs|
    ensures i < hi <= |bs|
  {
    if i + 1 < |bs| && !bs[i + 1].used then i + 2 else i + 1
  }

  function Joined(bs: seq<Block>, i: nat): Block
    requires i < |bs|
  {
    var b := bs[i].(used := false, gap := 0);
    var mid := if Lo(bs, i) < i then Merge(bs[i - 1], b) else b;
    if Hi(bs, i) == i + 2 then Merge(mid, bs[i + 1]) else mid
  }

  /** Frees block `i`: merged into a free predecessor, then a free successor merged into it. */
  function Free(bs: seq<Block>, i: nat): (r: seq<Block>)
    requires i < |bs|
  {
    bs[..Lo(bs, i)] + [Joined(bs, i)] + bs[Hi(bs, i)..]
  }

  // ----- every step keeps a sound heap

  /** Replacing a run of blocks by another run that covers the same addresses keeps the tiling. */
  lemma TiledReplace(bs: seq<Block>, i: nat, j: nat, run: seq<Block>, start: nat, total: nat)
    requires Tiled(bs, start, total) && i < j <= |bs| && run != []
    requires run[0].addr == bs[i].addr && run[|run| - 1].End() == bs[j - 1].End()
    requires forall k {:trigger run[k].End()} :: 0 <= k < |run| - 1 ==> run[k].End() == run[k + 1].addr
    ensures Tiled(bs[..i] + run + bs[j..], start, total)
  {
    var r := bs[..i] + run + bs[j..];
    forall k | 0 <= k < |r| - 1
      ensures r[k].End() == r[k + 1].addr
    {
      if k < i {
        assert r[k] == bs[k] && bs[k].End() == bs[k + 1].addr;
      } else if k < i + |run| - 1 {
        assert r[k] == run[k - i] && r[k + 1] == run[k - i + 1];
      } else if k == i + |run| - 1 {
        assert r[k] == run[|run| - 1] && bs[j - 1].End() == bs[j].addr;
      } else {
        var m := k - i - |run| + j;
        assert r[k] == bs[m] && r[k + 1] == bs[m + 1] && bs[m].End() == bs[m + 1].addr;
      }
    }
  }

  lemma PairAt(bs: seq<Block>, i: nat)
    requires NoFreePairs(bs) && i + 1 < |bs|
    ensures bs[i].used || bs[i + 1].used
  {
  }

  lemma PairsReplace(bs: seq<Block>, i: nat, j: nat, run: seq<Block>)
    requires NoFreePairs(bs) && NoFreePairs(run) && i < j <= |bs| && run != []
    requires i > 0 ==> bs[i - 1].used || run[0].used
    requires j < |bs| ==> run[|run| - 1].used || bs[j].used
    ensures NoFreePairs(bs[..i] + run + bs[j..])
  {
    var r := bs[..i] + run + bs[j..];
    forall k | 0 <= k < |r| - 1
      ensures r[k].used || r[k + 1].used
    {
      if k < i - 1 {
        assert r[k] == bs[k] && r[k + 1] == bs[k + 1] && (bs[k].used || bs[k + 1].used);
      } else if i <= k < i + |run| - 1 {
        assert r[k] == run[k - i] && r[k + 1] == run[k - i + 1] && (run[k - i].used || run[k - i + 1].used);
      } else if k >= i + |run| {
        var m := k - i - |run| + j;
        assert r[k] == bs[m] && r[k + 1] == bs[m + 1] && (bs[m].used || bs[m + 1].used);
      }
    }
  }

  lemma CarvePairs(b: Block, n: nat, a: nat)
    requires a > 0 && Fits(b, n)
    ensures var r := Carve(b, n, a);
            && NoFreePairs(r) && (|r| == 1 ==> r[0].used) && 1 <= |r| <= 2 && (|r| == 2 <==> Splits(b, n, a))
            && (|r| == 2 ==> r[1].gap == 0) && (|r| == 1 ==> r[0].End() == b.End()) && Plain(r)
            && (|r| == 2 && Gap(b, a) < 0x100 ==> r[0].End() == r[1].addr && r[1].End() == b.End())
            && (|r| == 2 && Gap(b, a) >= 0x100 ==> r[0].End() < r[1].addr)
  {
  }

  /** The one byte for the gap is enough for this request: the gap fits in it, or the block is not split. */
  predicate PadFits(bs: seq<Block>, n: nat, a: nat)
    requires a > 0
  {
    var i := FirstFit(bs, n);
    i < |bs| ==> Gap(bs[i], a) < 0x100 || !Splits(bs[i], n, a)
  }

  /** malloc keeps a sound heap when the byte for the gap is enough. */
  lemma MallocKeeps(bs: seq<Block>, n: nat, a: nat, start: nat, total: nat)
    requires Heap(bs, start, total) && a > 0 && PadFits(bs, n, a)
    ensures Heap(Malloc(bs, n, a), start, total)
  {
    hide Tiled, NoFreePairs, Plain, PadOf, Gap, Carve, Splits, FirstFit;
    var i := FirstFit(bs, n);
    if i < |bs| {
      var run := Carve(bs[i], n, a);
      CarvePairs(bs[i], n, a);
      TiledReplace(bs, i, i + 1, run, start, total);
      if i + 1 < |bs| { PairAt(bs, i); }
      PairsReplace(bs, i, i + 1, run);
      PlainReplace(bs, i, i + 1, run);
    }
  }

  lemma PlainReplace(bs: seq<Block>, i: nat, j: nat, run: seq<Block>)
    requires Plain(bs) && Plain(run) && i < j <= |bs|
    ensures Plain(bs[..i] + run + bs[j..])
  {
  }

  /** malloc keeps a sound heap exactly when the gap in front of the address fits in its byte or the block is not split.
      Every alignment up to 256 is safe. */
  lemma MallocKeepsIff(bs: seq<Block>, n: nat, a: nat, start: nat, total: nat)
    requires Heap(bs, start, total) && a > 0
    ensures Heap(Malloc(bs, n, a), start, total) <==> PadFits(bs, n, a)
    ensures a <= 0x100 ==> PadFits(bs, n, a)
  {
    hide Gap, PadOf, Carve, Splits;
    var i := FirstFit(bs, n);
    if PadFits(bs, n, a) {
      MallocKeeps(bs, n, a, start, total);
    } else {
      var r, run := Malloc(bs, n, a), Carve(bs[i], n, a);
      CarvePairs(bs[i], n, a);
      assert r[i] == run[0] && r[i + 1] == run[1];
      NotTiled(r, i, start, total);
    }
  }

  lemma OneBlock(b: Block, n: nat, a: nat)
    requires a > 0 && Fits(b, n)
    ensures Malloc([b], n, a) == Carve(b, n, a) && MallocPtr([b], n, a) == b.addr + NODE + Gap(b, a)
  {
    assert FirstFit([b], n) == 0 && [b][..0] == [] && [b][1..] == [];
  }

  lemma OneFits(b: Block, n: nat, a: nat)
    requires a > 0 && Fits(b, n)
    ensures PadFits([b], n, a) <==> Gap(b, a) < 0x100 || !Splits(b, n, a)
  {
    assert FirstFit([b], n) == 0;
  }

  lemma NotTiled(bs: seq<Block>, i: nat, start: nat, total: nat)
    requires i + 1 < |bs| && bs[i].End() != bs[i + 1].addr
    ensures !Tiled(bs, start, total)
  {
  }

  lemma Aligned512(x: nat)
    ensures Aligned(x, 512) == x + 511 - (x + 511) % 512
  {
    assert Pow2(1) == 2 && Pow2(2) == 4 && Pow2(3) == 8 && Pow2(4) == 16 && Pow2(5) == 32 && Pow2(6) == 64;
    assert Pow2(7) == 128 && Pow2(8) == 256 && Pow2(9) == 512;
    AndNotMask(x + 511, 9);
  }

  /** Asked for 16 bytes at a multiple of 512 in a fresh heap at 0x1000: the block ends at 0x1110, the header of the rest
      is at 0x1210. */
  lemma TilingLostInput()
    ensures var bs := Initial(0x1000, 0x1000);
            var r := Malloc(bs, 16, 512);
            && Heap(bs, 0x1000, 0x1000) && MallocPtr(bs, 16, 512) == 0x1200
            && |r| == 2 && r[0] == Block(0x1000, 252, true, 492) && r[0].End() == 0x1110 && r[1].addr == 0x1210
            && !Heap(r, 0x1000, 0x1000)
  {
    hide Aligned, Malloc, FirstFit, MallocPtr;
    Aligned512(0x1014);
    var bs := Initial(0x1000, 0x1000);
    OneBlock(bs[0], 16, 512);
    assert Gap(bs[0], 512) == 492;
    assert 492 % 0x100 == 236;
  }

  /** What malloc leaves of the first free block that is strictly larger than the request: with at least 21 bytes to spare
      behind the gap byte and the request, a block of just that size and a free rest behind the requested bytes; else the
      whole block. */
  lemma MallocDoes(bs: seq<Block>, n: nat, a: nat, i: nat)
    requires a > 0 && i < |bs| && !bs[i].used && n < bs[i].size && forall j :: 0 <= j < i ==> bs[j].used || bs[j].size <= n
    ensures var b, p := bs[i], MallocPtr(bs, n, a);
            && b.addr + 20 <= p < b.addr + 20 + a
            && var g := p - (b.addr + 20);
               Malloc(bs, n, a) == bs[..i]
                 + (if b.size >= n + g % 256 + 21 then
                      [Block(b.addr, n + g % 256, true, g), Block(p + n, b.size - n - g % 256 - 20, false, 0)]
                    else [Block(b.addr, b.size, true, g)])
                 + bs[i + 1..]
  {
    assert Fits(bs[i], n);
    var k := FirstFit(bs, n);
    assert k < |bs| ==> Fits(bs[k], n);
    assert k == i;
  }

  /** For a power of two the address is the next multiple of it behind the header. */
  lemma MallocAligned(bs: seq<Block>, n: nat, k: nat, i: nat)
    requires i < |bs| && !bs[i].used && n < bs[i].size && forall j :: 0 <= j < i ==> bs[j].used || bs[j].size <= n
    ensures var p := MallocPtr(bs, n, Pow2(k)); p % Pow2(k) == 0 && bs[i].addr + 20 <= p < bs[i].addr + 20 + Pow2(k)
  {
    hide Aligned, AlignUp;
    MallocDoes(bs, n, Pow2(k), i);
    var f := FirstFit(bs, n);
    assert Fits(bs[i], n);
    assert f < |bs| ==> Fits(bs[f], n);
    MaskIsAlignUp(bs[i].addr + NODE, k);
    AlignUpLeast(bs[i].addr + NODE, Pow2(k), 0);
  }

  /** What free leaves: one free block over the freed one and its free neighbours, whose headers become space. */
  lemma FreeDoes(bs: seq<Block>, i: nat)
    requires i < |bs|
    ensures var before, after := i > 0 && !bs[i - 1].used, i + 1 < |bs| && !bs[i + 1].used;
            Free(bs, i) == bs[..if before then i - 1 else i]
              + [Block(bs[if before then i - 1 else i].addr,
                       bs[i].size + (if before then bs[i - 1].size + 20 else 0) + (if after then bs[i + 1].size + 20 else 0), false, 0)]
              + bs[if after then i + 2 else i + 1..]
  {
  }

  lemma JoinedCovers(bs: seq<Block>, i: nat, start: nat, total: nat)
    requires Tiled(bs, start, total) && i < |bs|
    ensures Joined(bs, i).addr == bs[Lo(bs, i)].addr && Joined(bs, i).End() == bs[Hi(bs, i) - 1].End()
  {
    if Lo(bs, i) < i { assert bs[i - 1].End() == bs[i].addr; }
    if Hi(bs, i) == i + 2 { assert bs[i].End() == bs[i + 1].addr; }
  }

  /** free keeps a sound heap. */
  lemma FreeKeeps(bs: seq<Block>, i: nat, start: nat, total: nat)
    requires Heap(bs, start, total) && i < |bs| && bs[i].used
    ensures Heap(Free(bs, i), start, total)
  {
    hide Joined;
    var lo, hi, m := Lo(bs, i), Hi(bs, i), Joined(bs, i);
    JoinedCovers(bs, i, start, total);
    TiledReplace(bs, lo, hi, [m], start, total);
    assert lo > 0 ==> bs[lo - 1].used;
    assert hi < |bs| ==> bs[hi].used by {
      if hi < |bs| { PairAt(bs, hi - 1); }
    }
    JoinedFree(bs, i);
    PairsReplace(bs, lo, hi, [m]);
  }

  lemma JoinedFree(bs: seq<Block>, i: nat)
    requires i < |bs|
    ensures !Joined(bs, i).used && Joined(bs, i).gap == 0
  {
  }

  // ----- malloc and free undo each other

  /** Freeing the block malloc has just handed out without a gap restores the heap. */
  lemma FreeUndoesMalloc(bs: seq<Block>, n: nat, a: nat, start: nat, total: nat)
    requires Heap(bs, start, total) && a > 0 && FirstFit(bs, n) < |bs| && Gap(bs[FirstFit(bs, n)], a) == 0
    ensures var i, r := FirstFit(bs, n), Malloc(bs, n, a);
            i < |r| && r[i].used && r[i].gap == 0 && r[i].Ptr() == MallocPtr(bs, n, a) && Free(r, i) == bs
  {
    hide Carve, FirstFit, Gap;
    var i := FirstFit(bs, n);
    var run := Carve(bs[i], n, a);
    CarveShape(bs[i], n, a);
    if i > 0 { PairAt(bs, i - 1); }
    if i + 1 < |bs| { PairAt(bs, i); }
    assert bs == bs[..i] + [bs[i]] + bs[i + 1..];
    FreeInside(bs[..i], run, bs[i + 1..], bs[i]);
  }

  /** The pieces of a carved block join up to it again. */
  lemma CarveShape(b: Block, n: nat, a: nat)
    requires a > 0 && Fits(b, n)
    ensures var r := Carve(b, n, a);
            && r[0].used && r[0].addr == b.addr && r[0].gap == Gap(b, a) && r[0].Pad() == PadOf(b, a) && 1 <= |r| <= 2
            && (|r| == 1 ==> r[0].size == b.size)
            && (|r| == 2 ==> !r[1].used && r[0].size + NODE + r[1].size == b.size)
  {
  }

  lemma FreeInside(front: seq<Block>, run: seq<Block>, back: seq<Block>, b: Block)
    requires 1 <= |run| <= 2 && run[0].used && run[0].addr == b.addr && !b.used && b.gap == 0
    requires |run| == 1 ==> run[0].size == b.size
    requires |run| == 2 ==> !run[1].used && run[0].size + NODE + run[1].size == b.size
    requires front != [] ==> front[|front| - 1].used
    requires back != [] ==> back[0].used
    ensures Free(front + run + back, |front|) == front + [b] + back
  {
    var r, i := front + run + back, |front|;
    assert r[i] == run[0] && (i > 0 ==> r[i - 1] == front[i - 1]);
    if |run| == 2 {
      assert r[i + 1] == run[1] && r[i + 2..] == back;
    } else {
      assert (i + 1 < |r| ==> r[i + 1] == back[0]) && r[i + 1..] == back;
    }
    assert r[..i] == front;
    assert Joined(r, i) == b;
  }

  // ----- what a sound heap means

  /** Blocks come in address order and do not overlap. */
  lemma {:induction false} Ordered(bs: seq<Block>, start: nat, total: nat, i: nat, j: nat)
    requires Tiled(bs, start, total) && i < j < |bs|
    ensures bs[i].End() <= bs[j].addr
    decreases j - i
  {
    assert bs[j - 1].End() == bs[j].addr;
    if i < j - 1 { Ordered(bs, start, total, i, j - 1); }
  }

  lemma InBounds(bs: seq<Block>, start: nat, total: nat, i: nat)
    requires Tiled(bs, start, total) && i < |bs|
    ensures start <= bs[i].addr && bs[i].End() <= start + total
  {
    if i > 0 { Ordered(bs, start, total, 0, i); }
    if i < |bs| - 1 { Ordered(bs, start, total, i, |bs| - 1); }
  }

  /** Bytes of headers and payloads: the whole heap, always. */
  ghost function Footprint(bs: seq<Block>): nat {
    if bs == [] then 0 else NODE + bs[0].size + Footprint(bs[1..])
  }

  lemma {:induction false} FootprintIsTotal(bs: seq<Block>, start: nat, total: nat)
    requires Tiled(bs, start, total)
    ensures Footprint(bs) == total
    decreases |bs|
  {
    if |bs| > 1 {
      var t := bs[1..];
      assert bs[0].End() == bs[1].addr;
      forall i | 0 <= i < |t| - 1 ensures t[i].End() == t[i + 1].addr { assert bs[i + 1].End() == bs[i + 2].addr; }
      InBounds(bs, start, total, 1);
      FootprintIsTotal(t, bs[1].addr, start + total - bs[1].addr);
    }
  }

  ghost function Live(bs: seq<Block>): nat {
    if bs == [] then 0 else (if bs[0].used then 1 else 0) + Live(bs[1..])
  }

  /** With no two free neighbours there are at most twice as many blocks as live ones, plus one. */
  lemma {:induction false} NodeBound(bs: seq<Block>)
    requires NoFreePairs(bs)
    ensures |bs| <= 2 * Live(bs) + 1
    ensures bs != [] && bs[0].used ==> |bs| <= 2 * Live(bs)
    decreases |bs|
  {
    if |bs| > 1 {
      assert bs[0].used || bs[1].used;
      forall i | 0 <= i < |bs[1..]| - 1 ensures bs[1..][i].used || bs[1..][i + 1].used { assert bs[i + 1].used || bs[i + 2].used; }
      NodeBound(bs[1..]);
    }
  }

  lemma {:induction false} NothingLive(bs: seq<Block>)
    requires forall i :: 0 <= i < |bs| ==> !bs[i].used
    ensures Live(bs) == 0
  {
    if bs != [] { NothingLive(bs[1..]); }
  }

  /** A heap with nothing in use is the initial one again. */
  lemma AllFreeIsInitial(bs: seq<Block>, start: nat, total: nat)
    requires Heap(bs, start, total) && total >= NODE && forall i :: 0 <= i < |bs| ==> !bs[i].used
    ensures bs == Initial(start, total)
  {
    NothingLive(bs);
    NodeBound(bs);
  }

  // ----- what malloc promises

  /** malloc fails exactly when no free block is strictly larger than the request; otherwise the block
      it takes is the one at the lowest address among those that are. */
  lemma MallocChoice(bs: seq<Block>, n: nat, a: nat, start: nat, total: nat)
    requires Heap(bs, start, total) && a > 0
    ensures MallocPtr(bs, n, a) == 0 <==> forall i :: 0 <= i < |bs| ==> !(!bs[i].used && n < bs[i].size)
    ensures var i := FirstFit(bs, n);
            i < |bs| ==> forall j :: 0 <= j < |bs| && !bs[j].used && n < bs[j].size ==> bs[i].addr <= bs[j].addr
  {
    var i := FirstFit(bs, n);
    if i < |bs| {
      assert Fits(bs[i], n);
      forall j | 0 <= j < |bs| && Fits(bs[j], n)
        ensures bs[i].addr <= bs[j].addr
      {
        if i < j { Ordered(bs, start, total, i, j); }
      }
    } else {
      assert forall j :: 0 <= j < |bs| ==> !Fits(bs[j], n);
    }
  }

  /** The `n` bytes handed out lie inside their block exactly when the byte for the gap is enough and the gap fits into
      the block as well; without a gap they always do. The fit test of malloc looks at `n` alone. */
  lemma PayloadInsideIff(bs: seq<Block>, n: nat, a: nat)
    requires a > 0 && FirstFit(bs, n) < |bs|
    ensures var i := FirstFit(bs, n);
            var b := Malloc(bs, n, a)[i];
            && b.used && b.addr == bs[i].addr && b.Ptr() == MallocPtr(bs, n, a)
            && (b.Ptr() + n <= b.End() <==> PadFits(bs, n, a) && n + Gap(bs[i], a) <= bs[i].size)
            && (a == 1 ==> b.gap == 0 && b.Ptr() + n <= b.End())
  {
    hide Gap;
    var i := FirstFit(bs, n);
    assert Malloc(bs, n, a)[i] == Carve(bs[i], n, a)[0];
  }

  lemma Aligned64(x: nat)
    ensures Aligned(x, 64) == x + 63 - (x + 63) % 64
  {
    assert Pow2(1) == 2 && Pow2(2) == 4 && Pow2(3) == 8 && Pow2(4) == 16 && Pow2(5) == 32 && Pow2(6) == 64;
    AndNotMask(x + 63, 6);
  }

  /** A heap of one block of 32 bytes at 0x1000, asked for 16 bytes at a multiple of 64: the address handed out lies
      behind the whole heap. */
  lemma PayloadOutsideInput()
    ensures var bs := Initial(0x1000, NODE + 32);
            && Heap(bs, 0x1000, NODE + 32) && MallocPtr(bs, 16, 64) == 0x1040
            && Malloc(bs, 16, 64) == [Block(0x1000, 32, true, 44)] && 0x1000 + NODE + 32 < 0x1040
  {
    hide Aligned, Malloc, FirstFit, MallocPtr;
    Aligned64(0x1014);
    var bs := Initial(0x1000, NODE + 32);
    OneBlock(bs[0], 16, 64);
    assert Gap(bs[0], 64) == 44;
  }

  /** Payloads of different blocks and all headers are disjoint and inside the heap. */
  lemma PayloadsDisjoint(bs: seq<Block>, start: nat, total: nat, i: nat, j: nat)
    requires Tiled(bs, start, total) && i < |bs| && j < |bs| && i != j
    ensures start <= bs[i].addr && bs[i].End() <= start + total
    ensures bs[i].End() <= bs[j].addr || bs[j].End() <= bs[i].addr
  {
    InBounds(bs, start, total, i);
    if i < j { Ordered(bs, start, total, i, j); } else { Ordered(bs, start, total, j, i); }
  }

  // ----- whole runs

  datatype Op = Alloc(n: nat, a: nat) | Release(ptr: nat)

  /** Index of the live block without a gap that has this address, or the block count. */
  function IndexOf(bs: seq<Block>, ptr: nat): (i: nat)
    ensures i <= |bs|
    ensures i < |bs| ==> bs[i].used && bs[i].gap == 0 && bs[i].Ptr() == ptr
    ensures forall j :: 0 <= j < i ==> !(bs[j].used && bs[j].gap == 0 && bs[j].Ptr() == ptr)
  {
    if bs == [] || (bs[0].used && bs[0].gap == 0 && bs[0].Ptr() == ptr) then 0 else 1 + IndexOf(bs[1..], ptr)
  }

  /** First address behind the heap. */
  function Top(bs: seq<Block>): nat { if bs == [] then 0 else bs[|bs| - 1].End() }

  /** An operation the heap takes: a request whose sums stay below 2^32 and whose gap fits in its byte, or the release of
      a live block without a gap. */
  predicate Allowed(bs: seq<Block>, op: Op) {
    match op
    case Alloc(n, a) => a > 0 && (a == 1 || Top(bs) + a <= MEMORY) && PadFits(bs, n, a)
    case Release(ptr) => IndexOf(bs, ptr) < |bs|
  }

  function Apply(bs: seq<Block>, op: Op): seq<Block>
    requires Allowed(bs, op)
  {
    match op
    case Alloc(n, a) => Malloc(bs, n, a)
    case Release(ptr) => Free(bs, IndexOf(bs, ptr))
  }

  predicate AllowedRun(bs: seq<Block>, ops: seq<Op>)
    decreases |ops|
  {
    ops == [] || (Allowed(bs, ops[0]) && AllowedRun(Apply(bs, ops[0]), ops[1..]))
  }

  function Run(bs: seq<Block>, ops: seq<Op>): seq<Block>
    requires AllowedRun(bs, ops)
    decreases |ops|
  {
    if ops == [] then bs else Run(Apply(bs, ops[0]), ops[1..])
  }

  /** Every run of requests and releases keeps the heap sound: exactly tiled, no two free neighbours,
      no byte lost, and never more than twice as many blocks as live ones plus one. */
  lemma {:induction false} RunKeeps(bs: seq<Block>, ops: seq<Op>, start: nat, total: nat)
    requires Heap(bs, start, total) && AllowedRun(bs, ops)
    ensures var r := Run(bs, ops);
            Heap(r, start, total) && Footprint(r) == total && |r| <= 2 * Live(r) + 1
    decreases |ops|
  {
    if ops == [] {
      FootprintIsTotal(bs, start, total);
      NodeBound(bs);
    } else {
      match ops[0] {
        case Alloc(n, a) => MallocKeeps(bs, n, a, start, total);
        case Release(ptr) => FreeKeeps(bs, IndexOf(bs, ptr), start, total);
      }
      RunKeeps(Apply(bs, ops[0]), ops[1..], start, total);
    }
  }

  /** Addresses of the live blocks. */
  ghost function LivePtrs(bs: seq<Block>): (s: set<nat>) {
    set i | 0 <= i < |bs| && bs[i].used :: bs[i].Ptr()
  }

  /** Releasing a block takes exactly its address from the live ones. */
  lemma FreeLive(bs: seq<Block>, i: nat, start: nat, total: nat)
    requires Heap(bs, start, total) && i < |bs| && bs[i].used && forall j :: 0 <= j < |bs| ==> bs[j].gap == 0
    ensures LivePtrs(Free(bs, i)) == LivePtrs(bs) - {bs[i].Ptr()}
    ensures forall j :: 0 <= j < |Free(bs, i)| ==> Free(bs, i)[j].gap == 0
  {
    hide Joined;
    var r, lo, hi := Free(bs, i), Lo(bs, i), Hi(bs, i);
    JoinedFree(bs, i);
    forall p | p in LivePtrs(bs) && p != bs[i].Ptr()
      ensures p in LivePtrs(r)
    {
      var j :| 0 <= j < |bs| && bs[j].used && bs[j].Ptr() == p;
      if j < lo { assert r[j] == bs[j]; } else { assert r[j - hi + lo + 1] == bs[j]; }
    }
    forall p | p in LivePtrs(r)
      ensures p in LivePtrs(bs) && p != bs[i].Ptr()
    {
      var k :| 0 <= k < |r| && r[k].used && r[k].Ptr() == p;
      var j := if k < lo then k else k - lo - 1 + hi;
      assert k != lo && r[k] == bs[j] && j != i;
      PayloadsDisjoint(bs, start, total, i, j);
    }
  }

  function Releases(ptrs: seq<nat>): seq<Op> {
    seq(|ptrs|, i requires 0 <= i < |ptrs| => Release(ptrs[i]))
  }

  lemma UsedLive(bs: seq<Block>)
    ensures forall i :: 0 <= i < |bs| && bs[i].used ==> bs[i].Ptr() in LivePtrs(bs)
  {
  }

  /** Releasing every live block of a heap without gaps, in any order, leaves the initial heap. */
  lemma {:induction false} ReleaseAll(bs: seq<Block>, ptrs: seq<nat>, start: nat, total: nat)
    requires Heap(bs, start, total) && total >= NODE && forall j :: 0 <= j < |bs| ==> bs[j].gap == 0
    requires forall p :: p in ptrs <==> p in LivePtrs(bs)
    requires forall i, j :: 0 <= i < j < |ptrs| ==> ptrs[i] != ptrs[j]
    ensures AllowedRun(bs, Releases(ptrs)) && Run(bs, Releases(ptrs)) == Initial(start, total)
    decreases |ptrs|
  {
    var ops := Releases(ptrs);
    if ptrs == [] {
      UsedLive(bs);
      AllFreeIsInitial(bs, start, total);
    } else {
      var p := ptrs[0];
      assert p in ptrs;
      var j :| 0 <= j < |bs| && bs[j].used && bs[j].Ptr() == p;
      var i := IndexOf(bs, p);
      FreeKeeps(bs, i, start, total);
      FreeLive(bs, i, start, total);
      assert ops[1..] == Releases(ptrs[1..]);
      forall q ensures q in ptrs[1..] <==> q in LivePtrs(Free(bs, i)) {
        assert ptrs == [p] + ptrs[1..];
      }
      ReleaseAll(Free(bs, i), ptrs[1..], start, total);
    }
  }

  // ----- what is outstanding

  /** Taking a block without a gap adds exactly its address to the live ones. */
  lemma MallocLive(bs: seq<Block>, n: nat, a: nat, start: nat, total: nat)
    requires Heap(bs, start, total) && a > 0 && FirstFit(bs, n) < |bs| && Gap(bs[FirstFit(bs, n)], a) == 0
    requires forall j :: 0 <= j < |bs| ==> bs[j].gap == 0
    ensures var r, p := Malloc(bs, n, a), MallocPtr(bs, n, a);
            && (forall j :: 0 <= j < |r| ==> r[j].gap == 0)
            && p !in LivePtrs(bs) && LivePtrs(r) == LivePtrs(bs) + {p}
  {
    hide FirstFit, Gap, Heap, Carve;
    var i, p := FirstFit(bs, n), MallocPtr(bs, n, a);
    var r, run := Malloc(bs, n, a), Carve(bs[i], n, a);
    Apart(bs, start, total, i);
    CarveShape(bs[i], n, a);
    CarvePairs(bs[i], n, a);
    assert r[i] == run[0] && run[0].Ptr() == p;
    forall q | q in LivePtrs(bs)
      ensures q in LivePtrs(r) && q != p
    {
      var j :| 0 <= j < |bs| && bs[j].used && bs[j].Ptr() == q;
      if j < i { assert r[j] == bs[j]; } else { assert r[j - 1 + |run|] == bs[j]; }
    }
    forall q | q in LivePtrs(r)
      ensures q in LivePtrs(bs) + {p}
    {
      var k :| 0 <= k < |r| && r[k].used && r[k].Ptr() == q;
      if k < i { assert r[k] == bs[k]; } else if k >= i + |run| { assert r[k] == bs[k - |run| + 1]; }
    }
  }

  lemma Apart(bs: seq<Block>, start: nat, total: nat, i: nat)
    requires Heap(bs, start, total) && i < |bs|
    ensures forall j :: 0 <= j < |bs| && j != i ==> bs[j].addr != bs[i].addr
  {
    forall j | 0 <= j < |bs| && j != i
      ensures bs[j].addr != bs[i].addr
    {
      PayloadsDisjoint(bs, start, total, i, j);
    }
  }

  /** Outstanding addresses with the sizes asked for. */
  type Ledger = map<nat, nat>

  function Booked(bs: seq<Block>, led: Ledger, op: Op): Ledger
    requires Allowed(bs, op)
  {
    match op
    case Alloc(n, a) => if MallocPtr(bs, n, a) == 0 then led else led[MallocPtr(bs, n, a) := n]
    case Release(ptr) => led - {ptr}
  }

  function RunBooked(bs: seq<Block>, led: Ledger, ops: seq<Op>): Ledger
    requires AllowedRun(bs, ops)
    decreases |ops|
  {
    if ops == [] then led else RunBooked(Apply(bs, ops[0]), Booked(bs, led, ops[0]), ops[1..])
  }

  /** What is outstanding is what is in use, and every block in use holds the bytes asked for. */
  ghost predicate Kept(bs: seq<Block>, led: Ledger) {
    && (forall j :: 0 <= j < |bs| ==> bs[j].gap == 0)
    && led.Keys == LivePtrs(bs)
    && forall j :: 0 <= j < |bs| && bs[j].used ==> bs[j].Ptr() in led && led[bs[j].Ptr()] <= bs[j].size
  }

  /** The bytes of an outstanding address lie in the heap, apart from every header and from the bytes of every other one. */
  lemma OutstandingApart(bs: seq<Block>, led: Ledger, start: nat, total: nat, p: nat, q: nat)
    requires Heap(bs, start, total) && Kept(bs, led) && p in led && q in led && p != q
    ensures start <= p && p + led[p] <= start + total
    ensures p + led[p] <= q || q + led[q] <= p
    ensures forall j :: 0 <= j < |bs| ==> bs[j].addr + NODE <= p || p + led[p] <= bs[j].addr
  {
    assert p in LivePtrs(bs) && q in LivePtrs(bs);
    var i :| 0 <= i < |bs| && bs[i].used && bs[i].Ptr() == p;
    var k :| 0 <= k < |bs| && bs[k].used && bs[k].Ptr() == q;
    InBounds(bs, start, total, i);
    PayloadsDisjoint(bs, start, total, i, k);
    forall j | 0 <= j < |bs|
      ensures bs[j].addr + NODE <= p || p + led[p] <= bs[j].addr
    {
      if j != i { PayloadsDisjoint(bs, start, total, i, j); }
    }
  }

  lemma AllocKept(bs: seq<Block>, led: Ledger, n: nat, start: nat, total: nat)
    requires Heap(bs, start, total) && Kept(bs, led)
    ensures var p := MallocPtr(bs, n, 1);
            Kept(Malloc(bs, n, 1), if p == 0 then led else led[p := n])
  {
    hide FirstFit, Heap, Carve;
    var i := FirstFit(bs, n);
    if i < |bs| {
      MallocLive(bs, n, 1, start, total);
      var r, run, p := Malloc(bs, n, 1), Carve(bs[i], n, 1), MallocPtr(bs, n, 1);
      PayloadInsideIff(bs, n, 1);
      CarvePairs(bs[i], n, 1);
      CarveShape(bs[i], n, 1);
      assert r[i] == run[0];
      forall j | 0 <= j < |r| && r[j].used
        ensures r[j].Ptr() in led[p := n] && led[p := n][r[j].Ptr()] <= r[j].size
      {
        if j != i {
          assert j < i || j >= i + |run|;
          var k := if j < i then j else j - |run| + 1;
          assert r[j] == bs[k];
          assert bs[k].Ptr() in LivePtrs(bs);
        }
      }
    }
  }

  lemma ReleaseKept(bs: seq<Block>, led: Ledger, ptr: nat, start: nat, total: nat)
    requires Heap(bs, start, total) && Kept(bs, led) && IndexOf(bs, ptr) < |bs|
    ensures Kept(Free(bs, IndexOf(bs, ptr)), led - {ptr})
  {
    hide Joined, Heap;
    var i := IndexOf(bs, ptr);
    var r, lo, hi := Free(bs, i), Lo(bs, i), Hi(bs, i);
    FreeLive(bs, i, start, total);
    JoinedFree(bs, i);
    assert (led - {ptr}).Keys == led.Keys - {ptr};
    forall k | 0 <= k < |r| && r[k].used
      ensures r[k].Ptr() in led - {ptr} && (led - {ptr})[r[k].Ptr()] <= r[k].size
    {
      assert k != lo && r[k] == bs[if k < lo then k else k - lo - 1 + hi];
      assert r[k].Ptr() in LivePtrs(r);
    }
  }

  ghost predicate DefaultAlignment(ops: seq<Op>) { forall i :: 0 <= i < |ops| && ops[i].Alloc? ==> ops[i].a == 1 }

  /** Over every run with default alignment, what was asked for and not yet released is what is in use, with room for
      every byte of it. */
  lemma {:induction false} RunBooks(bs: seq<Block>, led: Ledger, ops: seq<Op>, start: nat, total: nat)
    requires Heap(bs, start, total) && Kept(bs, led) && AllowedRun(bs, ops) && DefaultAlignment(ops)
    ensures Heap(Run(bs, ops), start, total) && Kept(Run(bs, ops), RunBooked(bs, led, ops))
    decreases |ops|
  {
    hide Kept, Heap;
    if ops != [] {
      match ops[0] {
        case Alloc(n, a) =>
          MallocKeeps(bs, n, a, start, total);
          AllocKept(bs, led, n, start, total);
        case Release(ptr) =>
          FreeKeeps(bs, IndexOf(bs, ptr), start, total);
          ReleaseKept(bs, led, ptr, start, total);
      }
      assert DefaultAlignment(ops[1..]);
      RunBooks(Apply(bs, ops[0]), Booked(bs, led, ops[0]), ops[1..], start, total);
    }
  }

  /** After such a run from a fresh heap, releasing all that is outstanding, in any order, leaves the fresh heap. */
  lemma ReleaseAllAfterRun(ops: seq<Op>, ptrs: seq<nat>, start: nat, total: nat)
    requires 0 < start && start + total <= MEMORY && total >= NODE
    requires AllowedRun(Initial(start, total), ops) && DefaultAlignment(ops)
    requires forall p :: p in ptrs <==> p in RunBooked(Initial(start, total), map[], ops)
    requires forall i, j :: 0 <= i < j < |ptrs| ==> ptrs[i] != ptrs[j]
    ensures var r := Run(Initial(start, total), ops);
            AllowedRun(r, Releases(ptrs)) && Run(r, Releases(ptrs)) == Initial(start, total)
  {
    var led := RunBooked(Initial(start, total), map[], ops);
    RunBooks(Initial(start, total), map[], ops, start, total);
    assert forall p :: p in led <==> p in led.Keys;
    ReleaseAll(Run(Initial(start, total), ops), ptrs, start, total);
  }
}
