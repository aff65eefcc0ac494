/** Cluster chains in the abstract table: what a sound volume is, and how chains grow and shrink. */
module Chains {
  import opened Bytes
  import opened Layout

  /** Start cluster of every file and directory, with its chain. */
  type Files = map<nat, seq<nat>>

  /** Mark written into a freshly allocated entry. */
  const ALLOCATED: uint32 := 0x0FFF_FFFF
  /** Mark written into the new last entry of a cut chain. */
  const CUT: uint32 := 0x0F_FFFF

  function Next(t: seq<uint32>, c: nat): (n: nat)
    requires c < |t|
  {
    t[c] % ENTRY_MASK
  }

  predicate IsEnd(v: nat) { v >= CHAIN_END }

  ghost predicate Chain(t: seq<uint32>, ch: seq<nat>) {
    && |t| <= CHAIN_END
    && |ch| > 0
    && (forall i :: 0 <= i < |ch| ==> 2 <= ch[i] < |t|)
    && (forall i {:trigger Next(t, ch[i])} :: 0 <= i < |ch| - 1 ==> Next(t, ch[i]) == ch[i + 1])
    && IsEnd(Next(t, ch[|ch| - 1]))
  }

  ghost predicate Distinct(ch: seq<nat>) {
    forall i, j :: 0 <= i < j < |ch| ==> ch[i] != ch[j]
  }

  ghost predicate Apart(a: seq<nat>, b: seq<nat>) {
    forall c :: c in a ==> c !in b
  }

  ghost predicate Owned(fs: Files, c: nat) {
    exists s :: s in fs && c in fs[s]
  }

  ghost predicate Sound(t: seq<uint32>, fs: Files) {
    forall s {:trigger fs[s]} :: s in fs ==> Chain(t, fs[s]) && fs[s][0] == s
  }

  ghost predicate AllApart(fs: Files) {
    forall s, r {:trigger Apart(fs[s], fs[r])} :: s in fs && r in fs && s != r ==> Apart(fs[s], fs[r])
  }

  ghost predicate RestFree(t: seq<uint32>, fs: Files) {
    forall c {:trigger Owned(fs, c)} :: 2 <= c < |t| && !Owned(fs, c) ==> Next(t, c) == 0
  }

  /** Chains are sound and pairwise disjoint, and every entry outside them is free. */
  ghost predicate WellFormed(t: seq<uint32>, fs: Files) {
    Sound(t, fs) && AllApart(fs) && RestFree(t, fs)
  }

  /** A volume is sound exactly when the chains are, no cluster is in two of them, and a cluster is free
      exactly when it is in none. */
  lemma EveryClusterOnce(t: seq<uint32>, fs: Files)
    ensures WellFormed(t, fs) <==>
              && Sound(t, fs)
              && (forall c, s, r :: s in fs && r in fs && c in fs[s] && c in fs[r] ==> s == r)
              && (forall c :: 2 <= c < |t| ==> (Next(t, c) == 0 <==> !Owned(fs, c)))
  {
    if WellFormed(t, fs) {
      forall c, s, r | s in fs && r in fs && c in fs[s] && c in fs[r]
        ensures s == r
      {
        assert s == r || Apart(fs[s], fs[r]);
      }
      forall c | 2 <= c < |t| && Owned(fs, c)
        ensures Next(t, c) != 0
      {
        var s :| s in fs && c in fs[s];
        UsedNotFree(t, fs[s], c);
      }
    }
  }

  // ----- chains in general

  /** A chain that reaches an end mark never revisits a cluster. */
  lemma ChainDistinct(t: seq<uint32>, ch: seq<nat>)
    requires Chain(t, ch)
    ensures Distinct(ch)
  {
    forall i, j | 0 <= i < j < |ch|
      ensures ch[i] != ch[j]
    {
      NoRevisit(t, ch, i, j);
    }
  }

  lemma {:induction false} NoRevisit(t: seq<uint32>, ch: seq<nat>, i: nat, j: nat)
    requires Chain(t, ch) && i < j < |ch|
    ensures ch[i] != ch[j]
    decreases |ch| - j
  {
    assert Next(t, ch[i]) == ch[i + 1];
    if j + 1 < |ch| {
      assert Next(t, ch[j]) == ch[j + 1];
      NoRevisit(t, ch, i + 1, j + 1);
    }
  }

  /** The table and the start cluster determine the chain. */
  lemma ChainUnique(t: seq<uint32>, a: seq<nat>, b: seq<nat>)
    requires Chain(t, a) && Chain(t, b) && a[0] == b[0]
    ensures a == b
  {
    SamePath(t, a, b, |a| - 1);
    SamePath(t, b, a, |b| - 1);
    forall i | 0 <= i < |a|
      ensures a[i] == b[i]
    {
      SamePath(t, a, b, i);
    }
  }

  lemma {:induction false} SamePath(t: seq<uint32>, a: seq<nat>, b: seq<nat>, k: nat)
    requires Chain(t, a) && Chain(t, b) && a[0] == b[0]
    requires k < |a|
    ensures k < |b| && a[k] == b[k]
  {
    if k > 0 {
      SamePath(t, a, b, k - 1);
      assert Next(t, a[k - 1]) == a[k];
      if k < |b| { assert Next(t, b[k - 1]) == b[k]; }
    }
  }

  lemma ChainFrame(t: seq<uint32>, u: seq<uint32>, ch: seq<nat>)
    requires Chain(t, ch) && |u| == |t|
    requires forall c :: c in ch ==> u[c] == t[c]
    ensures Chain(u, ch)
  {
    forall i | 0 <= i < |ch|
      ensures Next(u, ch[i]) == Next(t, ch[i])
    {
      assert ch[i] in ch;
    }
  }

  lemma UsedNotFree(t: seq<uint32>, ch: seq<nat>, c: nat)
    requires Chain(t, ch) && c in ch
    ensures 2 <= c < |t| && Next(t, c) != 0
  {
    var i :| 0 <= i < |ch| && ch[i] == c;
    if i < |ch| - 1 {
      assert Next(t, ch[i]) == ch[i + 1];
    }
  }

  /** The way from a start cluster to a cluster of its chain: linked, without repetition, and in use to the last. */
  ghost predicate Path(t: seq<uint32>, ch: seq<nat>) {
    && |t| <= CHAIN_END
    && |ch| > 0 && Distinct(ch)
    && (forall i :: 0 <= i < |ch| ==> 2 <= ch[i] < |t|)
    && (forall i {:trigger Next(t, ch[i])} :: 0 <= i < |ch| - 1 ==> Next(t, ch[i]) == ch[i + 1])
    && Next(t, ch[|ch| - 1]) != 0
  }

  lemma ChainIsPath(t: seq<uint32>, ch: seq<nat>)
    requires Chain(t, ch)
    ensures Path(t, ch)
  {
    ChainDistinct(t, ch);
  }

  lemma PrefixIsPath(t: seq<uint32>, ch: seq<nat>, k: nat)
    requires Chain(t, ch) && k < |ch|
    ensures Path(t, ch[..k + 1])
  {
    ChainDistinct(t, ch);
    assert k + 1 < |ch| ==> Next(t, ch[k]) == ch[k + 1];
  }

  lemma PathNotFree(t: seq<uint32>, ch: seq<nat>, c: nat)
    requires Path(t, ch) && c in ch
    ensures 2 <= c < |t| && Next(t, c) != 0
  {
    var i :| 0 <= i < |ch| && ch[i] == c;
    if i < |ch| - 1 {
      assert Next(t, ch[i]) == ch[i + 1];
    }
  }

  /** First position of `c` on the chain, or the chain's length. */
  function IndexIn(ch: seq<nat>, c: nat): (k: nat)
    ensures k <= |ch| && (k < |ch| ==> ch[k] == c) && (c in ch <==> k < |ch|)
    ensures forall i :: 0 <= i < k ==> ch[i] != c
  {
    if ch == [] || ch[0] == c then 0 else 1 + IndexIn(ch[1..], c)
  }

  lemma IndexInIs(ch: seq<nat>, k: nat)
    requires Distinct(ch) && k < |ch|
    ensures IndexIn(ch, ch[k]) == k
  {
    var i := IndexIn(ch, ch[k]);
    assert ch[k] in ch && ch[i] == ch[k];
  }

  /** The chain from one of its clusters on. */
  function ChainFrom(ch: seq<nat>, c: nat): (r: seq<nat>)
    requires c in ch
    ensures r != [] && r[0] == c && forall e :: e in r ==> e in ch
  {
    ch[IndexIn(ch, c)..]
  }

  lemma ChainFromIsChain(t: seq<uint32>, ch: seq<nat>, c: nat)
    requires Chain(t, ch) && c in ch
    ensures Chain(t, ChainFrom(ch, c))
  {
    var k, r := IndexIn(ch, c), ChainFrom(ch, c);
    forall i | 0 <= i < |r| - 1
      ensures Next(t, r[i]) == r[i + 1]
    {
      assert Next(t, ch[k + i]) == ch[k + i + 1];
    }
  }

  // ----- free clusters

  ghost function FreeSet(t: seq<uint32>): (f: set<nat>) {
    set c: nat | 2 <= c < |t| && Next(t, c) == 0
  }

  /** The lowest free cluster at or after `c`, or the table length. */
  ghost function LowestFreeFrom(t: seq<uint32>, c: nat): (r: nat)
    requires 2 <= c <= |t|
    ensures c <= r <= |t|
    ensures forall e :: c <= e < r ==> Next(t, e) != 0
    ensures r < |t| ==> Next(t, r) == 0
    decreases |t| - c
  {
    if c == |t| || Next(t, c) == 0 then c else LowestFreeFrom(t, c + 1)
  }

  ghost function LowestFree(t: seq<uint32>): (r: nat)
    requires 2 <= |t|
    ensures 2 <= r <= |t|
    ensures forall e :: 2 <= e < r ==> Next(t, e) != 0
    ensures r < |t| ==> Next(t, r) == 0
  {
    LowestFreeFrom(t, 2)
  }

  lemma LowestFreeIs(t: seq<uint32>, c: nat)
    requires 2 <= c <= |t|
    requires forall e :: 2 <= e < c ==> Next(t, e) != 0
    requires c < |t| ==> Next(t, c) == 0
    ensures LowestFree(t) == c
  {
    var f := LowestFree(t);
    assert f < |t| ==> Next(t, f) == 0;
    assert c < |t| ==> Next(t, c) == 0;
  }

  /** `f` is the first cluster whose entry is 0 in its low 28 bits. */
  ghost predicate FirstFree(t: seq<uint32>, f: nat) {
    2 <= f < |t| && t[f] % 0x1000_0000 == 0 && forall e :: 2 <= e < f ==> t[e] % 0x1000_0000 != 0
  }

  ghost predicate NoneFree(t: seq<uint32>) {
    forall e :: 2 <= e < |t| ==> t[e] % 0x1000_0000 != 0
  }

  lemma FirstFreeIs(t: seq<uint32>)
    requires 2 <= |t|
    ensures LowestFree(t) < |t| <==> !NoneFree(t)
    ensures LowestFree(t) < |t| ==> FirstFree(t, LowestFree(t))
  {
    var f := LowestFree(t);
    assert forall e :: 2 <= e < |t| ==> Next(t, e) == t[e] % 0x1000_0000;
    assert f < |t| ==> Next(t, f) == 0;
  }

  /** What the allocator answers: the lowest free cluster; with none free, 0 if the word behind the table is taken, and
      else the number of that word. */
  ghost function Allocation(t: seq<uint32>, past: uint32): (r: nat)
    requires 2 <= |t|
  {
    if LowestFree(t) < |t| then LowestFree(t) else if past % ENTRY_MASK != 0 then 0 else |t|
  }

  /** A cluster that the table does not have is handed out exactly when no cluster is free and the word behind the table
      looks like a free entry. */
  lemma AllocationPastIff(t: seq<uint32>, past: uint32)
    requires 2 <= |t|
    ensures Allocation(t, past) >= |t| <==> NoneFree(t) && past % 0x1000_0000 == 0
  {
    FirstFreeIs(t);
    var f := LowestFree(t);
    assert f < |t| ==> t[f] % 0x1000_0000 == 0;
  }

  /** A full table of one sector with a zero word behind it: the allocator hands out cluster 128. */
  lemma FullTableInput()
    ensures Allocation(seq(128, _ => 0x0FFF_FFFF), 0) == 128
  {
    var t: seq<uint32> := seq(PER_SECTOR, _ => ALLOCATED);
    assert forall c :: 0 <= c < |t| ==> Next(t, c) != 0;
    AllocationPastIff(t, 0);
  }

  // ----- growing

  ghost function Grown(t: seq<uint32>, last: nat, c: nat): (u: seq<uint32>)
    requires last < |t| && c < |t| <= CHAIN_END
    ensures |u| == |t|
  {
    t[c := ALLOCATED][last := c]
  }

  datatype Resized = Resized(table: seq<uint32>, chain: seq<nat>, ok: bool)

  /** Extends `ch` with the lowest free clusters until it has `need` clusters or none is free. */
  ghost function Grow(t: seq<uint32>, ch: seq<nat>, need: nat): (r: Resized)
    requires 2 <= |t| <= CHAIN_END && |ch| > 0
    requires forall i :: 0 <= i < |ch| ==> ch[i] < |t|
    decreases need - |ch|
  {
    if |ch| >= need then Resized(t, ch, true)
    else
      var c := LowestFree(t);
      if c == |t| then Resized(t, ch, false)
      else Grow(Grown(t, ch[|ch| - 1], c), ch + [c], need)
  }

  /** Linking a free cluster behind a path makes the two a chain, whatever followed the path before. */
  lemma GrownChain(t: seq<uint32>, ch: seq<nat>, c: nat)
    requires Path(t, ch) && 2 <= c < |t| && Next(t, c) == 0
    ensures c !in ch
    ensures Chain(Grown(t, ch[|ch| - 1], c), ch + [c])
  {
    if c in ch { PathNotFree(t, ch, c); }
    var u, e := Grown(t, ch[|ch| - 1], c), ch + [c];
    forall i | 0 <= i < |e| - 1
      ensures Next(u, e[i]) == e[i + 1]
    {
      assert e[i] == ch[i] && ch[i] in ch;
      if i < |ch| - 1 {
        assert Next(t, ch[i]) == ch[i + 1];
      }
    }
  }

  // Replacing (or adding) the chain of one file.

  lemma SoundUpdate(u: seq<uint32>, fs: Files, s: nat, ch: seq<nat>)
    requires Chain(u, ch) && ch[0] == s
    requires forall r :: r in fs && r != s ==> Chain(u, fs[r]) && fs[r][0] == r
    ensures Sound(u, fs[s := ch])
  {
  }

  lemma ApartUpdate(fs: Files, s: nat, ch: seq<nat>)
    requires AllApart(fs)
    requires forall r :: r in fs && r != s ==> Apart(fs[r], ch) && Apart(ch, fs[r])
    ensures AllApart(fs[s := ch])
  {
  }

  /** A cluster that no file owns after the update was owned by none but possibly `s` before it. */
  lemma NotOwnedBefore(fs: Files, s: nat, ch: seq<nat>, e: nat)
    requires !Owned(fs[s := ch], e)
    ensures e !in ch
    ensures s !in fs || e !in fs[s] ==> !Owned(fs, e)
  {
    var gs := fs[s := ch];
    assert s in gs && gs[s] == ch;
    if s !in fs || e !in fs[s] {
      forall r | r in fs
        ensures e !in fs[r]
      {
        if r != s { assert r in gs && gs[r] == fs[r]; }
      }
    }
  }

  /** One allocation and link keeps the volume sound. */
  lemma GrownWellFormed(t: seq<uint32>, fs: Files, s: nat, c: nat)
    requires WellFormed(t, fs) && s in fs
    requires 2 <= c < |t| && Next(t, c) == 0
    ensures WellFormed(Grown(t, fs[s][|fs[s]| - 1], c), fs[s := fs[s] + [c]])
  {
    var ch := fs[s];
    var u, gs := Grown(t, ch[|ch| - 1], c), fs[s := ch + [c]];
    ChainIsPath(t, ch);
    GrownChain(t, ch, c);
    forall r | r in fs && r != s
      ensures Chain(u, fs[r]) && fs[r][0] == r && Apart(fs[r], ch + [c]) && Apart(ch + [c], fs[r])
    {
      OtherAfterGrown(t, fs, s, c, r);
    }
    SoundUpdate(u, fs, s, ch + [c]);
    ApartUpdate(fs, s, ch + [c]);
    forall e | 2 <= e < |u| && !Owned(gs, e)
      ensures Next(u, e) == 0
    {
      NotOwnedBefore(fs, s, ch + [c], e);
      assert (ch + [c])[|ch| - 1] == ch[|ch| - 1] && (ch + [c])[|ch|] == c;
    }
  }

  lemma OtherAfterGrown(t: seq<uint32>, fs: Files, s: nat, c: nat, r: nat)
    requires WellFormed(t, fs) && s in fs && r in fs && r != s
    requires 2 <= c < |t| && Next(t, c) == 0
    ensures Chain(Grown(t, fs[s][|fs[s]| - 1], c), fs[r])
    ensures Apart(fs[r], fs[s] + [c]) && Apart(fs[s] + [c], fs[r])
  {
    assert Apart(fs[s], fs[r]) && Apart(fs[r], fs[s]);
    if c in fs[r] { UsedNotFree(t, fs[r], c); }
    assert fs[s][|fs[s]| - 1] in fs[s];
    ChainFrame(t, Grown(t, fs[s][|fs[s]| - 1], c), fs[r]);
  }

  /** Growing a chain, complete or cut short by a full disk, keeps the volume sound:
      the old chain is a prefix, only free clusters were taken, and no other entry changed. */
  lemma {:induction false} GrowCorrect(t: seq<uint32>, fs: Files, s: nat, need: nat)
    requires WellFormed(t, fs) && s in fs
    ensures var r := Grow(t, fs[s], need);
            && WellFormed(r.table, fs[s := r.chain])
            && |r.table| == |t|
            && fs[s] <= r.chain
            && (r.ok ==> |r.chain| == if need > |fs[s]| then need else |fs[s]|)
            && (!r.ok ==> |r.chain| < need && FreeSet(r.table) == {})
            && (forall c :: c in r.chain[|fs[s]|..] ==> c in FreeSet(t))
            && (forall c :: 0 <= c < |t| && c !in r.chain ==> r.table[c] == t[c])
    decreases need - |fs[s]|
  {
    var ch := fs[s];
    assert fs[s := ch] == fs;
    if |ch| < need {
      var c := LowestFree(t);
      if c < |t| {
        var u := Grown(t, ch[|ch| - 1], c);
        GrownWellFormed(t, fs, s, c);
        var gs := fs[s := ch + [c]];
        GrowCorrect(u, gs, s, need);
        var r := Grow(u, ch + [c], need);
        assert gs[s := r.chain] == fs[s := r.chain];
        assert r.chain[|ch|..] == [c] + r.chain[|ch| + 1..];
        GrowFree(t, ch, c, r.chain, r.table);
      }
    }
  }

  lemma {:induction false} GrowIsChain(t: seq<uint32>, ch: seq<nat>, need: nat)
    requires Path(t, ch)
    ensures var r := Grow(t, ch, need); |r.table| == |t| && Path(r.table, r.chain) && ch <= r.chain
    ensures var r := Grow(t, ch, need); if |r.chain| > |ch| || Chain(t, ch) then Chain(r.table, r.chain) else r.table == t
    ensures var r := Grow(t, ch, need); if r.ok then |r.chain| == if need > |ch| then need else |ch| else |r.chain| < need
    decreases need - |ch|
  {
    if |ch| < need {
      var c := LowestFree(t);
      if c < |t| {
        GrownChain(t, ch, c);
        ChainIsPath(Grown(t, ch[|ch| - 1], c), ch + [c]);
        GrowIsChain(Grown(t, ch[|ch| - 1], c), ch + [c], need);
      }
    }
  }

  /** Growth takes free clusters and changes no entry outside the path and them. */
  lemma {:induction false} GrowTakes(t: seq<uint32>, ch: seq<nat>, need: nat)
    requires Path(t, ch)
    ensures var r := Grow(t, ch, need);
            && |r.table| == |t| && ch <= r.chain
            && (forall c :: c in r.chain ==> c in ch || c in FreeSet(t))
            && (forall c :: 0 <= c < |t| && c !in r.chain ==> r.table[c] == t[c])
    decreases need - |ch|
  {
    if |ch| < need {
      var c := LowestFree(t);
      if c < |t| {
        var last := ch[|ch| - 1];
        var u := Grown(t, last, c);
        GrownChain(t, ch, c);
        ChainIsPath(u, ch + [c]);
        GrowTakes(u, ch + [c], need);
        var r := Grow(u, ch + [c], need);
        assert (ch + [c])[|ch|] == c == r.chain[|ch|] && (ch + [c])[|ch| - 1] == last == r.chain[|ch| - 1];
        forall e | e in FreeSet(u)
          ensures e in FreeSet(t)
        {
          assert u[last] == c;
        }
      }
    }
  }

  lemma TakenFree(t: seq<uint32>, last: nat, c: nat)
    requires |t| <= CHAIN_END && last < |t| && Next(t, last) != 0 && c in FreeSet(t)
    ensures |FreeSet(Grown(t, last, c))| == |FreeSet(t)| - 1
  {
    var u := Grown(t, last, c);
    assert FreeSet(u) == FreeSet(t) - {c} by {
      assert u[last] == c && c != 0 && Next(u, last) == c;
    }
  }

  /** Growth gets as far as there are free clusters, and takes as many as it adds. */
  lemma {:induction false} GrowOkIff(t: seq<uint32>, ch: seq<nat>, need: nat)
    requires Path(t, ch)
    ensures var r := Grow(t, ch, need);
            && (r.ok <==> need <= |ch| + |FreeSet(t)|)
            && (!r.ok ==> |r.chain| == |ch| + |FreeSet(t)|)
    decreases need - |ch|
  {
    if |ch| < need {
      var c := LowestFree(t);
      if c < |t| {
        GrownChain(t, ch, c);
        ChainIsPath(Grown(t, ch[|ch| - 1], c), ch + [c]);
        TakenFree(t, ch[|ch| - 1], c);
        GrowOkIff(Grown(t, ch[|ch| - 1], c), ch + [c], need);
      } else {
        assert FreeSet(t) == {};
      }
    }
  }

  /** Growth adds nothing exactly when nothing is wanted or nothing is free. */
  lemma GrowsNothingIff(t: seq<uint32>, ch: seq<nat>, m: nat)
    requires Path(t, ch)
    ensures |Grow(t, ch, |ch| + m).chain| == |ch| <==> m == 0 || FreeSet(t) == {}
  {
    var c := LowestFree(t);
    assert c < |t| ==> c in FreeSet(t);
    assert c == |t| ==> FreeSet(t) == {};
    if m > 0 && c < |t| {
      GrownChain(t, ch, c);
      ChainIsPath(Grown(t, ch[|ch| - 1], c), ch + [c]);
      GrowIsChain(Grown(t, ch[|ch| - 1], c), ch + [c], |ch| + m);
    }
  }

  lemma GrowFree(t: seq<uint32>, ch: seq<nat>, c: nat, out: seq<nat>, u: seq<uint32>)
    requires |ch| > 0 && c < |t| <= CHAIN_END && ch[|ch| - 1] < |t| && ch + [c] <= out && |u| == |t|
    requires c in FreeSet(t)
    requires var v := Grown(t, ch[|ch| - 1], c);
             && (forall e :: e in out[|ch| + 1..] ==> e in FreeSet(v))
             && (forall e :: 0 <= e < |t| && e !in out ==> u[e] == v[e])
    requires !IsEnd(c) && c != 0
    ensures forall e :: e in out[|ch|..] ==> e in FreeSet(t)
    ensures forall e :: 0 <= e < |t| && e !in out ==> u[e] == t[e]
  {
    var last := ch[|ch| - 1];
    var v := Grown(t, last, c);
    assert out[|ch|] == (ch + [c])[|ch|] == c;
    assert out[|ch| - 1] == (ch + [c])[|ch| - 1] == last;
    forall e | e in out[|ch|..]
      ensures e in FreeSet(t)
    {
      if e != c {
        var i :| 0 <= i < |out[|ch|..]| && out[|ch|..][i] == e;
        assert i > 0;
        assert out[|ch| + 1..][i - 1] == e;
        assert e in FreeSet(v);
        assert Next(v, last) == c by {
          assert v[last] == c;
        }
      }
    }
  }

  /** A freshly allocated cluster is a sound one-cluster file beside all others. */
  lemma NewFileWellFormed(t: seq<uint32>, fs: Files, f: nat)
    requires WellFormed(t, fs) && 2 <= f < |t| <= CHAIN_END && Next(t, f) == 0
    ensures f !in fs && WellFormed(t[f := ALLOCATED], fs[f := [f]])
    ensures forall s :: s in fs ==> Chain(t[f := ALLOCATED], fs[s]) && f !in fs[s]
  {
    var u, gs := t[f := ALLOCATED], fs[f := [f]];
    forall r | r in fs
      ensures Chain(t, fs[r]) && fs[r][0] == r && f !in fs[r] && r != f
      ensures Chain(u, fs[r]) && Apart(fs[r], [f]) && Apart([f], fs[r])
    {
      assert Chain(t, fs[r]);
      if f in fs[r] { UsedNotFree(t, fs[r], f); }
      assert fs[r][0] in fs[r];
      ChainFrame(t, u, fs[r]);
    }
    SoundUpdate(u, fs, f, [f]);
    ApartUpdate(fs, f, [f]);
    forall e | 2 <= e < |u| && !Owned(gs, e)
      ensures Next(u, e) == 0
    {
      NotOwnedBefore(fs, f, [f], e);
      assert [f][0] == f;
    }
  }

  // ----- shrinking

  /** The table after keeping the first `k` clusters of `ch`. */
  ghost function Shrink(t: seq<uint32>, ch: seq<nat>, k: nat): (u: seq<uint32>)
    requires 0 < k <= |ch|
    ensures |u| == |t|
  {
    seq(|t|, c requires 0 <= c < |t| => if c == ch[k - 1] then CUT else if c in ch[k..] then 0 else t[c])
  }

  /** Cutting a chain keeps the volume sound: the kept part is a prefix, the rest is free,
      and no entry outside the chain changed. */
  lemma ShrinkCorrect(t: seq<uint32>, fs: Files, s: nat, k: nat)
    requires WellFormed(t, fs) && s in fs && 0 < k < |fs[s]|
    ensures var u := Shrink(t, fs[s], k);
            && WellFormed(u, fs[s := fs[s][..k]])
            && (forall c :: c in fs[s][k..] ==> c in FreeSet(u))
            && (forall c :: 0 <= c < |t| && c !in fs[s] ==> u[c] == t[c])
  {
    var ch := fs[s];
    var u, gs := Shrink(t, ch, k), fs[s := ch[..k]];
    ShrunkChain(t, ch, k);
    ShrinkFrame(t, ch, k);
    forall r | r in fs && r != s
      ensures Chain(u, fs[r]) && fs[r][0] == r && Apart(fs[r], ch[..k]) && Apart(ch[..k], fs[r])
    {
      assert Apart(ch, fs[r]) && Apart(fs[r], ch);
      ChainFrame(t, u, fs[r]);
    }
    SoundUpdate(u, fs, s, ch[..k]);
    ApartUpdate(fs, s, ch[..k]);
    forall e | 2 <= e < |u| && !Owned(gs, e)
      ensures Next(u, e) == 0
    {
      NotOwnedBefore(fs, s, ch[..k], e);
      ShrunkFree(t, fs, s, k, e);
    }
  }

  lemma ShrinkFrame(t: seq<uint32>, ch: seq<nat>, k: nat)
    requires Chain(t, ch) && 0 < k < |ch|
    ensures forall c :: c in ch[k..] ==> c in FreeSet(Shrink(t, ch, k))
    ensures forall c :: 0 <= c < |t| && c !in ch ==> Shrink(t, ch, k)[c] == t[c]
    ensures forall c :: c in ch[..k] ==> c in ch
  {
    ChainDistinct(t, ch);
    forall c | c in ch[k..]
      ensures c in ch && c != ch[k - 1]
    {
      var i :| 0 <= i < |ch[k..]| && ch[k..][i] == c;
      assert ch[k + i] == c;
    }
    assert ch[k - 1] in ch;
  }

  lemma ShrunkChain(t: seq<uint32>, ch: seq<nat>, k: nat)
    requires Chain(t, ch) && 0 < k < |ch|
    ensures Chain(Shrink(t, ch, k), ch[..k])
  {
    ChainDistinct(t, ch);
    var u, kept := Shrink(t, ch, k), ch[..k];
    forall i | 0 <= i < k - 1
      ensures Next(u, kept[i]) == kept[i + 1]
    {
      assert ch[i] !in ch[k..];
      assert Next(t, ch[i]) == ch[i + 1];
    }
  }

  lemma ShrunkFree(t: seq<uint32>, fs: Files, s: nat, k: nat, e: nat)
    requires RestFree(t, fs) && s in fs && 0 < k < |fs[s]|
    requires 2 <= e < |t| && e !in fs[s][..k] && (e !in fs[s] ==> !Owned(fs, e))
    ensures Next(Shrink(t, fs[s], k), e) == 0
  {
    var ch := fs[s];
    assert ch[..k][k - 1] == ch[k - 1];
    if e !in ch[k..] {
      assert ch == ch[..k] + ch[k..];
    }
  }

  // ----- resizing and conservation

  /** Cuts or extends the chain to `need` clusters. */
  ghost function Resize(t: seq<uint32>, ch: seq<nat>, need: nat): (r: Resized)
    requires 2 <= |t| <= CHAIN_END && |ch| > 0 && need > 0
    requires forall i :: 0 <= i < |ch| ==> ch[i] < |t|
  {
    if need < |ch| then Resized(Shrink(t, ch, need), ch[..need], true) else Grow(t, ch, need)
  }

  ghost function Elements(ch: seq<nat>): set<nat> {
    set c | c in ch
  }

  /** Free clusters and the clusters of one file together are what the other files leave. */
  lemma FreeAndOwn(t: seq<uint32>, fs: Files, s: nat)
    requires WellFormed(t, fs) && s in fs
    ensures FreeSet(t) + Elements(fs[s]) == (set c: nat | 2 <= c < |t| && !Owned(fs - {s}, c))
    ensures |FreeSet(t) + Elements(fs[s])| == |FreeSet(t)| + |fs[s]|
  {
    forall c: nat | 2 <= c < |t|
      ensures c in FreeSet(t) + Elements(fs[s]) <==> !Owned(fs - {s}, c)
    {
      LeftByOthers(t, fs, s, c);
    }
    forall c | c in fs[s] ensures 2 <= c < |t| && c !in FreeSet(t) { UsedNotFree(t, fs[s], c); }
    ChainDistinct(t, fs[s]);
    DistinctSize(fs[s]);
    assert FreeSet(t) !! Elements(fs[s]);
  }

  lemma LeftByOthers(t: seq<uint32>, fs: Files, s: nat, c: nat)
    requires WellFormed(t, fs) && s in fs && 2 <= c < |t|
    ensures c in FreeSet(t) || c in fs[s] <==> !Owned(fs - {s}, c)
  {
    var rest := fs - {s};
    if Owned(rest, c) {
      var r :| r in rest && c in rest[r];
      assert r in fs && r != s && fs[r] == rest[r];
      assert Apart(fs[r], fs[s]);
      UsedNotFree(t, fs[r], c);
    } else if c !in fs[s] {
      forall r | r in fs
        ensures c !in fs[r]
      {
        if r != s { assert r in rest && rest[r] == fs[r]; }
      }
      assert !Owned(fs, c);
    }
  }

  lemma {:induction false} DistinctSize(ch: seq<nat>)
    requires Distinct(ch)
    ensures |Elements(ch)| == |ch|
  {
    if ch != [] {
      var n := |ch| - 1;
      DistinctSize(ch[..n]);
      assert ch == ch[..n] + [ch[n]];
      assert Elements(ch) == Elements(ch[..n]) + {ch[n]};
    }
  }

  /** Whatever one file gains or loses, free clusters plus its chain length stay the same. */
  lemma Conservation(t: seq<uint32>, fs: Files, s: nat, u: seq<uint32>, ch: seq<nat>)
    requires WellFormed(t, fs) && s in fs
    requires |u| == |t| && WellFormed(u, fs[s := ch])
    ensures |FreeSet(u)| + |ch| == |FreeSet(t)| + |fs[s]|
  {
    FreeAndOwn(t, fs, s);
    FreeAndOwn(u, fs[s := ch], s);
    assert fs[s := ch] - {s} == fs - {s};
  }

  lemma ResizeIsChain(t: seq<uint32>, ch: seq<nat>, need: nat)
    requires Chain(t, ch) && need > 0
    ensures var r := Resize(t, ch, need); |r.table| == |t| && Chain(r.table, r.chain)
    ensures var r := Resize(t, ch, need); r.ok ==> |r.chain| == need
  {
    ChainIsPath(t, ch);
    if need < |ch| { ShrunkChain(t, ch, need); } else { GrowIsChain(t, ch, need); }
  }

  lemma {:induction false} GrowEnd(t: seq<uint32>, ch: seq<nat>, need: nat)
    requires 2 <= |t| <= CHAIN_END && Path(t, ch)
    ensures var r := Grow(t, ch, need);
            && ch <= r.chain && |r.table| == |t| && (forall i :: 0 <= i < |r.chain| ==> r.chain[i] < |t|)
            && (if r.chain == ch then r.table == t else r.table[r.chain[|r.chain| - 1]] == 0x0FFF_FFFF)
    decreases need - |ch|
  {
    var f := LowestFree(t);
    if |ch| < need && f < |t| {
      GrownChain(t, ch, f);
      var u := Grown(t, ch[|ch| - 1], f);
      ChainIsPath(u, ch + [f]);
      GrowEnd(u, ch + [f], need);
    }
  }

  /** The mark a resized chain ends in: 0x0FFFFF where it was cut, 0x0FFFFFFF where it grew. Code that follows a chain to
      write takes the first as an end, code that reads takes only the second. */
  lemma ResizedEnd(t: seq<uint32>, ch: seq<nat>, need: nat)
    requires Chain(t, ch) && 2 <= |t| && need > 0
    ensures var r := Resize(t, ch, need);
            && r.chain != [] && r.chain[|r.chain| - 1] < |r.table|
            && var last := r.table[r.chain[|r.chain| - 1]];
               && (|r.chain| < |ch| ==> last == 0x0F_FFFF) && (|r.chain| > |ch| ==> last == 0x0FFF_FFFF)
               && (|r.chain| == |ch| ==> r.table == t)
  {
    ChainIsPath(t, ch);
    if need < |ch| { ShrunkChain(t, ch, need); } else { GrowEnd(t, ch, need); }
  }

  /** From 0x0FFFF8 on a value ends a chain. */
  lemma ChainOfOneIff(t: seq<uint32>, c: nat)
    ensures Chain(t, [c]) <==> 2 <= c < |t| <= 0x0F_FFF8 && t[c] % 0x1000_0000 >= 0x0F_FFF8
  {
  }

  /** The disk fills up exactly when fewer clusters are free than the chain still wants. */
  lemma ResizeOkIff(t: seq<uint32>, fs: Files, s: nat, need: nat)
    requires WellFormed(t, fs) && s in fs && need > 0
    ensures Resize(t, fs[s], need).ok <==> need <= |fs[s]| + |FreeSet(t)|
  {
    ResizeCorrect(t, fs, s, need);
  }

  /** Resizing one chain: the volume stays sound, the chain becomes a prefix or an extension of the
      old one with exactly the wanted length, cut clusters are free again, taken ones were free, every
      entry outside the two chains is untouched, and clusters are conserved even when the disk fills up. */
  lemma ResizeCorrect(t: seq<uint32>, fs: Files, s: nat, need: nat)
    requires WellFormed(t, fs) && s in fs && need > 0
    ensures var r := Resize(t, fs[s], need);
            && WellFormed(r.table, fs[s := r.chain])
            && |r.table| == |t|
            && (r.chain <= fs[s] || fs[s] <= r.chain)
            && (r.ok ==> |r.chain| == need)
            && (!r.ok ==> |fs[s]| <= |r.chain| < need && FreeSet(r.table) == {})
            && (forall c :: c in r.chain && c !in fs[s] ==> c in FreeSet(t))
            && (forall c :: c in fs[s] && c !in r.chain ==> c in FreeSet(r.table))
            && (forall c :: 0 <= c < |t| && c !in fs[s] && c !in r.chain ==> r.table[c] == t[c])
            && |FreeSet(r.table)| + |r.chain| == |FreeSet(t)| + |fs[s]|
  {
    var ch := fs[s];
    var r := Resize(t, ch, need);
    if need < |ch| {
      ShrinkCorrect(t, fs, s, need);
      assert ch == ch[..need] + ch[need..];
    } else {
      GrowCorrect(t, fs, s, need);
      assert r.chain == ch + r.chain[|ch|..];
    }
    Conservation(t, fs, s, r.table, r.chain);
  }
}
