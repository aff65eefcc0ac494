/** What writing, appending, seeking and reading mean, on the abstract table and clusters. */
module FileSpec {
  import opened Bytes
  import opened Disks
  import opened Layout
  import opened Chains
  import opened Content

  // ----- cluster arithmetic

  /** Quotient and remainder by repeated subtraction, so that proofs stay linear. */
  function Quot(p: nat, cs: nat): (q: nat)
    requires cs > 0
    decreases p
  {
    if p < cs then 0 else 1 + Quot(p - cs, cs)
  }

  function Rem(p: nat, cs: nat): (r: nat)
    requires cs > 0
    ensures r < cs
    decreases p
  {
    if p < cs then p else Rem(p - cs, cs)
  }

  lemma {:induction false} DivSplit(cs: nat, p: nat)
    requires cs > 0
    ensures p == Times(cs, Quot(p, cs)) + Rem(p, cs)
    ensures p < Times(cs, Quot(p, cs) + 1)
    decreases p
  {
    if p >= cs { DivSplit(cs, p - cs); }
  }

  /** They are the usual ones. */
  lemma DivIs(cs: nat, p: nat)
    requires cs > 0
    ensures p / cs == Quot(p, cs) && p % cs == Rem(p, cs)
  {
    DivSplit(cs, p);
    TimesIsProduct(cs, Quot(p, cs));
    SameSplit(cs, p / cs, p % cs, Quot(p, cs), Rem(p, cs));
  }

  lemma SameSplit(cs: nat, j: nat, o: nat, q: nat, r: nat)
    requires o < cs && r < cs && cs * j + o == cs * q + r
    ensures j == q && o == r
  {
    if j < q {
      ProductGap(cs, j, q);
    } else if q < j {
      ProductGap(cs, q, j);
    }
  }

  lemma ProductGap(cs: nat, a: nat, b: nat)
    requires a < b
    ensures cs * a + cs <= cs * b
  {
    TimesIsProduct(cs, a);
    TimesIsProduct(cs, b);
    TimesMono(cs, a + 1, b);
  }

  /** Quotient and remainder are the only way to split a position into cluster and offset. */
  lemma {:induction false} DivUnique(cs: nat, p: nat, j: nat, o: nat)
    requires cs > 0 && p == Times(cs, j) + o && o < cs
    ensures Quot(p, cs) == j && Rem(p, cs) == o
    decreases j
  {
    if j > 0 { DivUnique(cs, p - cs, j - 1, o); }
  }

  // ----- writing

  datatype Outcome = Outcome(table: seq<uint32>, clusters: seq<seq<byte>>, chain: seq<nat>, ok: bool, written: nat)

  /** A file's whole chain, all of it on the disk. */
  ghost predicate Ready(t: seq<uint32>, cl: seq<seq<byte>>, ch: seq<nat>, cs: nat) {
    && Chain(t, ch)
    && |cl| == |t| && Sized(cl, ch, cs)
    && cs > 0 && cs % SECTOR == 0
  }

  /** The way from a file's start to the cluster its handle stands on. */
  ghost predicate Standing(t: seq<uint32>, cl: seq<seq<byte>>, ch: seq<nat>, cs: nat) {
    && Path(t, ch)
    && |cl| == |t| && Sized(cl, ch, cs)
    && cs > 0 && cs % SECTOR == 0
  }

  lemma PrefixStanding(t: seq<uint32>, cl: seq<seq<byte>>, ch: seq<nat>, k: nat, cs: nat)
    requires Ready(t, cl, ch, cs) && k < |ch|
    ensures Standing(t, cl, ch[..k + 1], cs)
  {
    PrefixIsPath(t, ch, k);
  }

  lemma ReadyChain(t: seq<uint32>, cl: seq<seq<byte>>, ch: seq<nat>, cs: nat)
    requires Ready(t, cl, ch, cs)
    ensures Chain(t, ch) && cs > 0
  {
  }

  lemma ReadyNext(t: seq<uint32>, cl: seq<seq<byte>>, ch: seq<nat>, cs: nat, j: nat)
    requires Ready(t, cl, ch, cs) && j < |ch|
    ensures 2 <= ch[j] < |t| && ch[j] < READ_END && (j + 1 < |ch| ==> Next(t, ch[j]) == ch[j + 1])
  {
  }

  lemma ReadySized(t: seq<uint32>, cl: seq<seq<byte>>, ch: seq<nat>, cs: nat)
    requires Ready(t, cl, ch, cs)
    ensures Sized(cl, ch, cs) && |t| <= CHAIN_END && cs > 0
  {
  }

  /** Clusters a file of `n` bytes gets in WRITE mode. */
  function Needed(n: nat, cs: nat): (k: nat)
    requires cs > 0
    ensures k > 0
  {
    Quot(n, cs) + 1
  }

  /** The clusters a WRITE of `n` bytes copies to are on the disk. */
  ghost predicate WriteBacked(t: seq<uint32>, cl: seq<seq<byte>>, ch: seq<nat>, cs: nat, n: nat)
    requires Chain(t, ch) && cs > 0
  {
    var z := Resize(t, ch, Needed(n, cs));
    z.ok ==> Sized(cl, z.chain, cs)
  }

  /** WRITE mode: resize the chain, then, unless the disk filled up, copy the data along it. */
  ghost function Replace(t: seq<uint32>, cl: seq<seq<byte>>, ch: seq<nat>, cs: nat, data: seq<byte>): (r: Outcome)
    requires Ready(t, cl, ch, cs) && WriteBacked(t, cl, ch, cs, |data|)
    ensures |r.clusters| == |cl|
  {
    var z := Resize(t, ch, Needed(|data|, cs));
    ResizeIsChain(t, ch, Needed(|data|, cs));
    if !z.ok then Outcome(z.table, cl, z.chain, false, 0)
    else
      DivSplit(cs, |data|);
      Outcome(z.table, Fill(cl, z.chain, cs, data), z.chain, true, |data|)
  }

  /** Clusters with the last one of the chain filled up from offset `e` on. */
  ghost function Topped(cl: seq<seq<byte>>, ch: seq<nat>, e: nat, data: seq<byte>): (r: seq<seq<byte>>)
    requires |ch| > 0 && ch[|ch| - 1] < |cl|
    requires e + |data| <= |cl[ch[|ch| - 1]]| && |cl[ch[|ch| - 1]]| % SECTOR == 0
    ensures |r| == |cl| && |r[ch[|ch| - 1]]| == |cl[ch[|ch| - 1]]|
    ensures forall c :: 0 <= c < |cl| && c != ch[|ch| - 1] ==> r[c] == cl[c]
  {
    cl[ch[|ch| - 1] := Overwrite(cl[ch[|ch| - 1]], e, data)]
  }

  /** The clusters an APPEND of `n` bytes takes are on the disk. */
  ghost predicate AppendBacked(t: seq<uint32>, cl: seq<seq<byte>>, ch: seq<nat>, cs: nat, size: nat, n: nat)
    requires Path(t, ch) && cs > 0
  {
    Sized(cl, Grow(t, ch, |ch| + AppendNeeds(size, n, cs)).chain, cs)
  }

  /** APPEND mode, with the handle on the last cluster of `ch`: fill up that cluster from the size's offset on, then
      link further clusters behind it. Whatever followed it before is cut off with the first link. */
  ghost function Append(t: seq<uint32>, cl: seq<seq<byte>>, ch: seq<nat>, cs: nat, size: nat, data: seq<byte>): (r: Outcome)
    requires Standing(t, cl, ch, cs) && AppendBacked(t, cl, ch, cs, size, |data|)
    ensures |r.chain| > 0 && ch <= r.chain && |r.clusters| == |cl|
  {
    AppendAt(t, cl, ch, cs, Rem(size, cs), AppendNeeds(size, |data|, cs), data)
  }

  /** The same with the offset `e` in the cluster and the number `m` of further clusters worked out. */
  ghost function AppendAt(t: seq<uint32>, cl: seq<seq<byte>>, ch: seq<nat>, cs: nat, e: nat, m: nat, data: seq<byte>): (r: Outcome)
    requires Standing(t, cl, ch, cs) && e < cs && Sized(cl, Grow(t, ch, |ch| + m).chain, cs)
    ensures |r.chain| > 0 && ch <= r.chain && |r.clusters| == |cl|
  {
    var k := Min(cs - e, |data|);
    var z := Grow(t, ch, |ch| + m);
    GrowIsChain(t, ch, |ch| + m);
    var added := z.chain[|ch|..];
    assert z.chain == ch + added;
    ReadyAfter(t, cl, ch, cs, e, data[..k], added);
    var rest := UpTo(data[k..], Times(cs, |added|));
    Outcome(z.table, Fill(Topped(cl, ch, e, data[..k]), added, cs, rest), z.chain, z.ok, k + |rest|)
  }

  /** Clusters needed for `n` bytes beyond the last one. */
  function Extra(n: nat, cs: nat): (m: nat)
    requires cs > 0
  {
    Quot(n + cs - 1, cs)
  }

  /** Clusters an append of `n` bytes takes behind the last one. */
  function AppendNeeds(size: nat, n: nat, cs: nat): nat
    requires cs > 0
  {
    Extra(n - Min(cs - Rem(size, cs), n), cs)
  }

  lemma ExtraStep(n: nat, cs: nat)
    requires cs > 0
    ensures n == 0 ==> Extra(n, cs) == 0
    ensures n > 0 ==> Extra(n, cs) == 1 + Extra(n - Min(cs, n), cs)
    ensures Times(cs, Extra(n, cs)) >= n
  {
    DivSplit(cs, n + cs - 1);
    if n == 0 {
      DivUnique(cs, cs - 1, 0, cs - 1);
    } else if n <= cs {
      DivUnique(cs, n + cs - 1, 1, n - 1);
      DivUnique(cs, cs - 1, 0, cs - 1);
    } else {
      DivSplit(cs, n - 1);
      DivUnique(cs, n + cs - 1, Quot(n - 1, cs) + 1, Rem(n - 1, cs));
    }
  }

  lemma GrowAlready(t: seq<uint32>, ch: seq<nat>, need: nat)
    requires Path(t, ch)
    ensures |ch| >= need ==> Grow(t, ch, need) == Resized(t, ch, true)
  {
  }

  /** The pieces of an append: the first write into the handle's cluster, and the growth behind it. */
  lemma AppendParts(t: seq<uint32>, cl: seq<seq<byte>>, ch: seq<nat>, cs: nat, size: nat, data: seq<byte>)
    returns (k: nat, z: Resized, added: seq<nat>, rest: seq<byte>)
    requires Standing(t, cl, ch, cs) && AppendBacked(t, cl, ch, cs, size, |data|)
    ensures k == Min(cs - Rem(size, cs), |data|) && k <= |data|
    ensures z == Grow(t, ch, |ch| + Extra(|data| - k, cs)) && Path(z.table, z.chain) && z.chain == ch + added && |z.table| == |t|
    ensures |rest| == Min(|data| - k, Times(cs, |added|)) && rest == data[k..][..|rest|]
    ensures Rem(size, cs) + k <= cs && Standing(t, Topped(cl, ch, Rem(size, cs), data[..k]), ch, cs)
    ensures Sized(Topped(cl, ch, Rem(size, cs), data[..k]), added, cs)
    ensures Append(t, cl, ch, cs, size, data)
         == Outcome(z.table, Fill(Topped(cl, ch, Rem(size, cs), data[..k]), added, cs, rest), z.chain, z.ok, k + |rest|)
    ensures z.ok ==> k + |rest| == |data|
  {
    hide Fill, Overwrite, Grow, Extra, Times, Topped, AppendAt, Path, Sized;
    k, z, added, rest := AppendPartsAt(t, cl, ch, cs, Rem(size, cs), AppendNeeds(size, |data|, cs), data);
    if z.ok { EnoughAdded(|data| - k, cs, |added|); }
  }

  lemma AppendPartsAt(t: seq<uint32>, cl: seq<seq<byte>>, ch: seq<nat>, cs: nat, e: nat, m: nat, data: seq<byte>)
    returns (k: nat, z: Resized, added: seq<nat>, rest: seq<byte>)
    requires Standing(t, cl, ch, cs) && e < cs && Sized(cl, Grow(t, ch, |ch| + m).chain, cs)
    ensures k == Min(cs - e, |data|) && k <= |data|
    ensures z == Grow(t, ch, |ch| + m) && Path(z.table, z.chain) && z.chain == ch + added && |z.table| == |t|
    ensures z.ok ==> |added| == m
    ensures |rest| == Min(|data| - k, Times(cs, |added|)) && rest == data[k..][..|rest|]
    ensures Standing(t, Topped(cl, ch, e, data[..k]), ch, cs) && Sized(Topped(cl, ch, e, data[..k]), added, cs)
    ensures AppendAt(t, cl, ch, cs, e, m, data)
         == Outcome(z.table, Fill(Topped(cl, ch, e, data[..k]), added, cs, rest), z.chain, z.ok, k + |rest|)
  {
    hide Fill, Overwrite, Grow, Times, Topped;
    k := Min(cs - e, |data|);
    GrowIsChain(t, ch, |ch| + m);
    z := Grow(t, ch, |ch| + m);
    added := z.chain[|ch|..];
    assert z.chain == ch + added && |added| == |z.chain| - |ch|;
    ReadyAfter(t, cl, ch, cs, e, data[..k], added);
    hide Path, Sized;
    rest := UpTo(data[k..], Times(cs, |added|));
  }

  lemma ReadyAfter(t: seq<uint32>, cl: seq<seq<byte>>, ch: seq<nat>, cs: nat, e: nat, data: seq<byte>, added: seq<nat>)
    requires Standing(t, cl, ch, cs) && e + |data| <= cs && Sized(cl, ch + added, cs)
    ensures Standing(t, Topped(cl, ch, e, data), ch, cs) && Sized(Topped(cl, ch, e, data), added, cs)
  {
    hide Overwrite;
    forall i | 0 <= i < |added|
      ensures added[i] < |cl| && |cl[added[i]]| == cs
    {
      assert (ch + added)[|ch| + i] == added[i];
    }
  }

  lemma EnoughAdded(n: nat, cs: nat, m: nat)
    requires cs > 0
    ensures m == Extra(n, cs) ==> Min(n, Times(cs, m)) == n
  {
    ExtraStep(n, cs);
  }

  /** An append that ends within the handle's cluster only fills that cluster up, and takes no other. */
  lemma AppendWithin(t: seq<uint32>, cl: seq<seq<byte>>, ch: seq<nat>, cs: nat, size: nat, data: seq<byte>)
    requires Standing(t, cl, ch, cs) && |data| <= cs - Rem(size, cs)
    ensures AppendBacked(t, cl, ch, cs, size, |data|)
    ensures Append(t, cl, ch, cs, size, data) == Outcome(t, Topped(cl, ch, Rem(size, cs), data), ch, true, |data|)
  {
    hide Fill, Overwrite, Grow, Extra, Times, Topped;
    NoGrowth(t, ch, cs);
    assert data[..|data|] == data;
    var k, z, added, rest := AppendParts(t, cl, ch, cs, size, data);
    FillEnds(Topped(cl, ch, Rem(size, cs), data), added, cs, []);
  }

  lemma NoGrowth(t: seq<uint32>, ch: seq<nat>, cs: nat)
    requires Path(t, ch) && cs > 0
    ensures Grow(t, ch, |ch| + Extra(0, cs)) == Resized(t, ch, true)
  {
    ExtraStep(0, cs);
    GrowAlready(t, ch, |ch|);
  }

  // ----- what writing does to contents

  /** After a WRITE that did not run out of space, the chain reads as exactly the buffer. */
  lemma ReplaceReads(t: seq<uint32>, cl: seq<seq<byte>>, ch: seq<nat>, cs: nat, data: seq<byte>)
    requires Ready(t, cl, ch, cs) && WriteBacked(t, cl, ch, cs, |data|)
    ensures var r := Replace(t, cl, ch, cs, data);
            r.ok ==>
            && Ready(r.table, r.clusters, r.chain, cs)
            && |r.chain| == Quot(|data|, cs) + 1
            && |data| <= Times(cs, |r.chain|)
            && Flat(r.clusters, r.chain, cs)[..|data|] == data
  {
    var r := Replace(t, cl, ch, cs, data);
    ResizeIsChain(t, ch, Needed(|data|, cs));
    DivSplit(cs, |data|);
    ChainDistinct(r.table, r.chain);
    if r.ok { FillReads(cl, r.chain, cs, data); }
  }

  /** The chain and table parts of a WRITE. */
  lemma ReplaceSound(t: seq<uint32>, fs: Files, s: nat, cl: seq<seq<byte>>, cs: nat, data: seq<byte>)
    requires WellFormed(t, fs) && s in fs && Ready(t, cl, fs[s], cs) && WriteBacked(t, cl, fs[s], cs, |data|)
    ensures var r, z := Replace(t, cl, fs[s], cs, data), Resize(t, fs[s], Needed(|data|, cs));
            && r.table == z.table && r.chain == z.chain && r.ok == z.ok
            && WellFormed(r.table, fs[s := r.chain])
            && (r.ok ==>
                  && Ready(r.table, cl, r.chain, cs) && r.chain[0] == s && |data| < Times(cs, |r.chain|)
                  && r.clusters == Fill(cl, r.chain, cs, data))
            && (!r.ok ==> r.clusters == cl)
  {
    hide Resize, Fill, FreeSet, Times;
    ResizeCorrect(t, fs, s, Needed(|data|, cs));
    ResizeIsChain(t, fs[s], Needed(|data|, cs));
    DivSplit(cs, |data|);
    assert fs[s][0] == s;
  }

  /** A file whose chain shares no cluster with the changed ones reads as before. */
  lemma Untouched(cl: seq<seq<byte>>, dl: seq<seq<byte>>, own: seq<nat>, ch: seq<nat>, cs: nat)
    requires Sized(cl, ch, cs) && |dl| == |cl| && Apart(ch, own)
    requires forall c :: 0 <= c < |cl| && c !in own ==> dl[c] == cl[c]
    ensures Sized(dl, ch, cs) && Flat(dl, ch, cs) == Flat(cl, ch, cs)
  {
    forall c | c in ch ensures dl[c] == cl[c] {
      var i :| 0 <= i < |ch| && ch[i] == c;
      assert ch[i] < |cl|;
    }
    FlatFrame(cl, dl, ch, cs);
  }

  /** WRITE keeps the volume sound and every other file's bytes, whether or not the disk filled up. */
  lemma ReplaceKeeps(t: seq<uint32>, fs: Files, s: nat, cl: seq<seq<byte>>, cs: nat, data: seq<byte>)
    requires WellFormed(t, fs) && s in fs && Ready(t, cl, fs[s], cs) && WriteBacked(t, cl, fs[s], cs, |data|)
    ensures var r := Replace(t, cl, fs[s], cs, data);
            && WellFormed(r.table, fs[s := r.chain])
            && (r.chain <= fs[s] || fs[s] <= r.chain)
            && |FreeSet(r.table)| + |r.chain| == |FreeSet(t)| + |fs[s]|
            && (r.ok <==> Quot(|data|, cs) + 1 <= |fs[s]| + |FreeSet(t)|)
            && (!r.ok ==> r.clusters == cl && fs[s] <= r.chain)
            && forall f :: f in fs && f != s && Sized(cl, fs[f], cs) ==>
                 Sized(r.clusters, fs[f], cs) && Flat(r.clusters, fs[f], cs) == Flat(cl, fs[f], cs)
  {
    hide FreeSet, Flat, RestFree;
    var r := Replace(t, cl, fs[s], cs, data);
    ResizeCorrect(t, fs, s, Needed(|data|, cs));
    ResizeOkIff(t, fs, s, Needed(|data|, cs));
    var gs := fs[s := r.chain];
    forall f | f in fs && f != s && Sized(cl, fs[f], cs)
      ensures Sized(r.clusters, fs[f], cs) && Flat(r.clusters, fs[f], cs) == Flat(cl, fs[f], cs)
    {
      assert gs[f] == fs[f] && gs[s] == r.chain;
      assert Apart(gs[f], gs[s]);
      Untouched(cl, r.clusters, r.chain, fs[f], cs);
    }
  }

  /** Where an append starts writing: in the last cluster, at the size's offset. */
  ghost function AppendBase(ch: seq<nat>, cs: nat, size: nat): nat
    requires cs > 0 && |ch| > 0
  {
    Times(cs, |ch| - 1) + Rem(size, cs)
  }

  lemma TimesAdd(cs: nat, a: nat, b: nat)
    ensures Times(cs, a + b) == Times(cs, a) + Times(cs, b)
  {
    TimesIsProduct(cs, a);
    TimesIsProduct(cs, b);
    TimesIsProduct(cs, a + b);
    assert cs * (a + b) == cs * a + cs * b;
  }

  /** Appending keeps what lies before its base and puts the written part of the buffer there. */
  lemma AppendReads(t: seq<uint32>, cl: seq<seq<byte>>, ch: seq<nat>, cs: nat, size: nat, data: seq<byte>)
    requires Standing(t, cl, ch, cs) && AppendBacked(t, cl, ch, cs, size, |data|)
    ensures var r, b := Append(t, cl, ch, cs, size, data), AppendBase(ch, cs, size);
            && Standing(r.table, r.clusters, r.chain, cs)
            && ch <= r.chain
            && r.written <= |data| && (r.ok ==> r.written == |data|)
            && b <= Times(cs, |ch|) && b + r.written <= Times(cs, |r.chain|)
            && Flat(r.clusters, r.chain, cs)[..b + r.written] == Flat(cl, ch, cs)[..b] + data[..r.written]
  {
    hide Overwrite, Fill, Flat, Grow, Times, Extra, Append;
    var r := Append(t, cl, ch, cs, size, data);
    var k, z, added, rest := AppendParts(t, cl, ch, cs, size, data);
    assert data[k..r.written] == rest;
    AppendFlat(cl, ch, added, cs, Rem(size, cs), data, r.written);
  }

  lemma AppendFlat(cl: seq<seq<byte>>, ch: seq<nat>, added: seq<nat>, cs: nat, e: nat, data: seq<byte>, w: nat)
    requires cs > 0 && cs % SECTOR == 0 && e < cs && |ch| > 0
    requires Sized(cl, ch, cs) && Sized(cl, added, cs) && Distinct(ch + added)
    requires var k := Min(cs - e, |data|); k <= w <= |data| && w - k <= Times(cs, |added|)
    ensures var k, b := Min(cs - e, |data|), Times(cs, |ch| - 1) + e;
            var out := Fill(Topped(cl, ch, e, data[..k]), added, cs, data[k..w]);
            && Sized(out, ch + added, cs)
            && b <= Times(cs, |ch|) && b + w <= Times(cs, |ch + added|)
            && Flat(out, ch + added, cs)[..b + w] == Flat(cl, ch, cs)[..b] + data[..w]
  {
    hide Overwrite, Fill, Flat, Times, Distinct;
    var k, n := Min(cs - e, |data|), |ch| - 1;
    TimesAdd(cs, n, 1);
    var last := ch[n];
    var filled := Topped(cl, ch, e, data[..k]);
    var out := Fill(filled, added, cs, data[k..w]);
    TimesAdd(cs, |ch|, |added|);
    DistinctSuffix(ch, added);
    FillReads(filled, added, cs, data[k..w]);
    AppendPieces(cl, filled, out, ch, added, cs);
    FlatAppend(cl, ch[..n], [last], cs);
    assert ch == ch[..n] + [last];
    FlatOne(cl, last, cs);
    OverwriteRoundTrip(cl[last], e, data[..k]);
    var front := Flat(cl, ch[..n], cs);
    HeadSlice(front, cl[last], e);
    AppendAssembly(front, cl[last], filled[last], Flat(out, added, cs), e, k, data, w);
    assert Flat(cl, ch, cs) == front + cl[last] && |front| == Times(cs, n);
  }

  lemma DistinctSuffix(a: seq<nat>, b: seq<nat>)
    requires Distinct(a + b)
    ensures Distinct(b)
  {
    forall i, j | 0 <= i < j < |b|
      ensures b[i] != b[j]
    {
      assert (a + b)[|a| + i] == b[i] && (a + b)[|a| + j] == b[j];
    }
  }

  lemma FlatOne(cl: seq<seq<byte>>, c: nat, cs: nat)
    requires c < |cl| && |cl[c]| == cs
    ensures Sized(cl, [c], cs) && Flat(cl, [c], cs) == cl[c]
  {
    assert Flat(cl, [c][1..], cs) == [];
  }

  lemma HeadSlice(a: seq<byte>, b: seq<byte>, e: nat)
    requires e <= |b|
    ensures (a + b)[..|a| + e] == a + b[..e]
  {
  }

  lemma AppendPieces(cl: seq<seq<byte>>, filled: seq<seq<byte>>, out: seq<seq<byte>>, ch: seq<nat>, added: seq<nat>, cs: nat)
    requires |ch| > 0 && Sized(cl, ch, cs) && |filled| == |cl| == |out|
    requires Distinct(ch + added) && Sized(out, added, cs)
    requires forall c :: 0 <= c < |cl| && c != ch[|ch| - 1] ==> filled[c] == cl[c]
    requires |filled[ch[|ch| - 1]]| == cs
    requires forall c :: 0 <= c < |cl| && c !in added ==> out[c] == filled[c]
    ensures Sized(cl, ch[..|ch| - 1], cs) && Sized(out, ch + added, cs)
    ensures Flat(out, ch + added, cs) == Flat(cl, ch[..|ch| - 1], cs) + filled[ch[|ch| - 1]] + Flat(out, added, cs)
  {
    var n := |ch| - 1;
    var all := ch + added;
    forall i | 0 <= i <= n
      ensures ch[i] !in added && (i < n ==> ch[i] != ch[n])
    {
      assert all[i] == ch[i] && all[n] == ch[n];
      forall j | 0 <= j < |added| ensures added[j] != ch[i] { assert all[|ch| + j] == added[j]; }
    }
    forall c | c in ch[..n] ensures out[c] == cl[c] {
      var i :| 0 <= i < n && ch[..n][i] == c;
      assert ch[i] == c;
    }
    FlatFrame(cl, out, ch[..n], cs);
    FlatAppend(out, ch[..n], [ch[n]], cs);
    assert ch[..n] + [ch[n]] == ch;
    FlatAppend(out, ch, added, cs);
    FlatOne(out, ch[n], cs);
  }

  lemma AppendAssembly(a: seq<byte>, was: seq<byte>, now: seq<byte>, f: seq<byte>, e: nat, k: nat, data: seq<byte>, w: nat)
    requires |was| == |now| && e + k <= |now| && k <= w <= |data|
    requires now[..e] == was[..e] && now[e..e + k] == data[..k]
    requires w - k <= |f| && f[..w - k] == data[k..w]
    requires w > k ==> e + k == |now|
    ensures (a + now + f)[..|a| + e + w] == a + was[..e] + data[..w]
  {
    assert now[..e + k] == was[..e] + data[..k];
    assert data[..w] == data[..k] + data[k..w];
    if w > k {
      assert (a + now + f)[..|a| + e + w] == a + now[..e + k] + f[..w - k];
    } else {
      assert (a + now + f)[..|a| + e + w] == a + now[..e + k];
    }
  }

  /** The table, the chain and the outcome of an append are those of the growth. */
  lemma AppendShape(t: seq<uint32>, cl: seq<seq<byte>>, ch: seq<nat>, cs: nat, size: nat, data: seq<byte>)
    requires Standing(t, cl, ch, cs) && AppendBacked(t, cl, ch, cs, size, |data|)
    ensures var r, z := Append(t, cl, ch, cs, size, data), Grow(t, ch, |ch| + AppendNeeds(size, |data|, cs));
            r.table == z.table && r.chain == z.chain && r.ok == z.ok && (data != [] ==> r.written > 0)
  {
    hide Overwrite, Fill, Grow, AppendNeeds, Topped, Path, Times, Sized;
    DivSplit(cs, size);
  }

  /** An append touches the handle's cluster and the clusters it takes, no other, and those were free. */
  lemma AppendOutside(t: seq<uint32>, cl: seq<seq<byte>>, ch: seq<nat>, cs: nat, size: nat, data: seq<byte>)
    requires Standing(t, cl, ch, cs) && AppendBacked(t, cl, ch, cs, size, |data|)
    ensures var r := Append(t, cl, ch, cs, size, data);
            && |r.clusters| == |cl| && (forall c :: 0 <= c < |cl| && c !in r.chain ==> r.clusters[c] == cl[c])
            && (forall c :: c in r.chain ==> c in ch || c in FreeSet(t))
            && |r.table| == |t| && (forall c :: 0 <= c < |t| && c !in r.chain ==> r.table[c] == t[c])
  {
    hide Overwrite, Flat, Grow, Extra, Times, Fill, Append, Topped, FreeSet;
    var r := Append(t, cl, ch, cs, size, data);
    var k, z, added, rest := AppendParts(t, cl, ch, cs, size, data);
    GrowTakes(t, ch, |ch| + Extra(|data| - k, cs));
    assert r.chain == ch + added && ch[|ch| - 1] in r.chain;
  }

  /** APPEND on the last cluster keeps the volume sound and every other file's bytes; it takes only free clusters. */
  lemma AppendKeeps(t: seq<uint32>, fs: Files, s: nat, cl: seq<seq<byte>>, cs: nat, size: nat, data: seq<byte>)
    requires WellFormed(t, fs) && s in fs && Standing(t, cl, fs[s], cs) && AppendBacked(t, cl, fs[s], cs, size, |data|)
    ensures var r := Append(t, cl, fs[s], cs, size, data);
            && WellFormed(r.table, fs[s := r.chain])
            && fs[s] <= r.chain
            && (forall c :: c in r.chain[|fs[s]|..] ==> c in FreeSet(t))
            && |FreeSet(r.table)| + |r.chain| == |FreeSet(t)| + |fs[s]|
            && (!r.ok ==> FreeSet(r.table) == {})
            && (r.ok <==> AppendNeeds(size, |data|, cs) <= |FreeSet(t)|)
            && forall f :: f in fs && f != s && Sized(cl, fs[f], cs) ==>
                 Sized(r.clusters, fs[f], cs) && Flat(r.clusters, fs[f], cs) == Flat(cl, fs[f], cs)
  {
    hide Append, AppendNeeds, Flat, Grow, FreeSet, RestFree;
    var ch := fs[s];
    var r := Append(t, cl, ch, cs, size, data);
    var need := |ch| + AppendNeeds(size, |data|, cs);
    AppendShape(t, cl, ch, cs, size, data);
    AppendOutside(t, cl, ch, cs, size, data);
    GrowCorrect(t, fs, s, need);
    ResizeOkIff(t, fs, s, need);
    Conservation(t, fs, s, r.table, r.chain);
    var gs := fs[s := r.chain];
    forall f | f in fs && f != s && Sized(cl, fs[f], cs)
      ensures Sized(r.clusters, fs[f], cs) && Flat(r.clusters, fs[f], cs) == Flat(cl, fs[f], cs)
    {
      assert gs[f] == fs[f] && gs[s] == r.chain;
      assert Apart(gs[f], gs[s]);
      Untouched(cl, r.clusters, r.chain, fs[f], cs);
    }
  }

  lemma ExtraIff(n: nat, cs: nat, m: nat)
    requires cs > 0
    ensures Extra(n, cs) <= m <==> n <= Times(cs, m)
  {
    hide Quot, Rem;
    var q := Quot(n + cs - 1, cs);
    DivSplit(cs, n + cs - 1);
    if q <= m { TimesMono(cs, q, m); } else { TimesMono(cs, m + 1, q); }
  }

  /** How far an append gets: all of the buffer exactly when it fits into the rest of the handle's cluster and the free
      clusters, and otherwise as much as fits. */
  lemma AppendAmount(t: seq<uint32>, cl: seq<seq<byte>>, ch: seq<nat>, cs: nat, size: nat, data: seq<byte>)
    requires Standing(t, cl, ch, cs) && AppendBacked(t, cl, ch, cs, size, |data|)
    ensures var r, room := Append(t, cl, ch, cs, size, data), cs - Rem(size, cs) + Times(cs, |FreeSet(t)|);
            && (r.ok <==> |data| <= room) && r.written == Min(|data|, room)
            && (|r.chain| > |ch| <==> |data| > cs - Rem(size, cs) && FreeSet(t) != {})
            && (|r.chain| > |ch| ==>
                  Times(cs, |r.chain| - 1) < AppendBase(ch, cs, size) + r.written <= Times(cs, |r.chain|))
  {
    hide Append, Fill, Overwrite, Grow, Extra, Times, Topped, Path, Sized, FreeSet, Quot, Rem;
    var e, free := Rem(size, cs), |FreeSet(t)|;
    StandingPath(t, cl, ch, cs);
    var k, z, added, rest := AppendParts(t, cl, ch, cs, size, data);
    var n := |data| - k;
    GrowOkIff(t, ch, |ch| + Extra(n, cs));
    GrowIsChain(t, ch, |ch| + Extra(n, cs));
    GrowsNothingIff(t, ch, Extra(n, cs));
    ExtraIff(n, cs, free);
    ExtraIff(n, cs, 0);
    TimesZero(cs);
    assert |added| == if z.ok then Extra(n, cs) else free;
    if |added| > 0 {
      ExtraIff(n, cs, |added| - 1);
      ExtraIff(n, cs, |added|);
      TimesAdd(cs, |ch|, |added| - 1);
      TimesAdd(cs, |ch|, |added|);
      TimesAdd(cs, |ch| - 1, 1);
      TimesAdd(cs, |added| - 1, 1);
    }
  }

  lemma TimesZero(cs: nat)
    ensures Times(cs, 0) == 0 && Times(cs, 1) == cs
  {
    assert Times(cs, 1) == cs + Times(cs, 0);
  }

  /** The chain has exactly the cluster the next byte goes to as its last one. */
  predicate TailReady(ch: seq<nat>, cs: nat, size: nat)
    requires cs > 0
  {
    |ch| == Quot(size, cs) + 1
  }

  /** An append starts writing at the file's size exactly when the file is tail-ready. */
  lemma AppendBaseIff(ch: seq<nat>, cs: nat, size: nat)
    requires cs > 0 && |ch| > 0
    ensures AppendBase(ch, cs, size) == size <==> TailReady(ch, cs, size)
  {
    DivSplit(cs, size);
    if AppendBase(ch, cs, size) == size { DivUnique(cs, size, |ch| - 1, Rem(size, cs)); }
  }

  /** From the cluster at index `k` of a tail-ready file, an append starts at the file's size exactly when that
      is the last cluster. */
  lemma LandsAtSizeIff(ch: seq<nat>, k: nat, cs: nat, size: nat)
    requires cs > 0 && k < |ch| && TailReady(ch, cs, size)
    ensures AppendBase(ch[..k + 1], cs, size) == size <==> k + 1 == |ch|
  {
    AppendBaseIff(ch[..k + 1], cs, size);
  }

  /** The file's chain after an append from index `k` that left `grown` up to the handle's cluster. */
  function ChainAfter(ch: seq<nat>, k: nat, grown: seq<nat>): (r: seq<nat>)
    ensures |grown| > k + 1 ==> r == grown
  {
    if |grown| == k + 1 then ch else grown
  }

  /** An append has a cluster to link: it needs one, and one is free. */
  ghost predicate Links(t: seq<uint32>, cs: nat, size: nat, n: nat)
    requires cs > 0
  {
    AppendNeeds(size, n, cs) > 0 && FreeSet(t) != {}
  }

  lemma LinkedIff(t: seq<uint32>, cl: seq<seq<byte>>, ch: seq<nat>, cs: nat, size: nat, data: seq<byte>)
    requires Standing(t, cl, ch, cs) && AppendBacked(t, cl, ch, cs, size, |data|)
    ensures |Append(t, cl, ch, cs, size, data).chain| > |ch| <==> Links(t, cs, size, |data|)
  {
    hide Append, AppendBacked, Standing, Grow, FreeSet, Path, AppendNeeds;
    StandingPath(t, cl, ch, cs);
    AppendShape(t, cl, ch, cs, size, data);
    GrowsNothingIff(t, ch, AppendNeeds(size, |data|, cs));
  }

  /** An append keeps the volume sound exactly when the handle stands on the last cluster, or no cluster is needed behind
      the handle's, or none is free. Otherwise the clusters behind the handle's are lost: in use, and in no file. */
  lemma AppendSoundIff(t: seq<uint32>, fs: Files, s: nat, k: nat, cl: seq<seq<byte>>, cs: nat, size: nat, data: seq<byte>)
    requires WellFormed(t, fs) && s in fs && k < |fs[s]| && Standing(t, cl, fs[s][..k + 1], cs)
    requires AppendBacked(t, cl, fs[s][..k + 1], cs, size, |data|)
    ensures var r := Append(t, cl, fs[s][..k + 1], cs, size, data);
            var gs := fs[s := ChainAfter(fs[s], k, r.chain)];
            && |r.table| == |t|
            && (WellFormed(r.table, gs) <==> k + 1 == |fs[s]| || !Links(t, cs, size, |data|))
            && (Links(t, cs, size, |data|) ==> forall c :: c in fs[s][k + 1..] ==> Lost(r.table, gs, c))
  {
    hide Append, AppendBacked, Standing, WellFormed, Grow, FreeSet, Path, AppendNeeds, Links;
    var ch, p := fs[s], fs[s][..k + 1];
    var r := Append(t, cl, p, cs, size, data);
    var gs := fs[s := ChainAfter(ch, k, r.chain)];
    StandingPath(t, cl, p, cs);
    LinkedIff(t, cl, p, cs, size, data);
    AppendShape(t, cl, p, cs, size, data);
    AppendOutside(t, cl, p, cs, size, data);
    if |r.chain| == k + 1 {
      UnchangedTable(t, p, |p| + AppendNeeds(size, |data|, cs));
      assert fs[s := ch] == fs;
    } else if k + 1 == |ch| {
      assert p == ch;
      AppendKeepsTable(t, fs, s, cl, cs, size, data);
    }
    if |r.chain| > k + 1 {
      forall c | c in ch[k + 1..]
        ensures Lost(r.table, gs, c)
      {
        LostCluster(t, fs, s, k, c, r.chain);
      }
      if k + 1 < |ch| {
        assert ch[k + 1..][0] == ch[k + 1];
        LostCluster(t, fs, s, k, ch[k + 1], r.chain);
        Unsound(r.table, gs, ch[k + 1]);
      }
    }
  }

  /** Neither free nor in any file. */
  ghost predicate Lost(t: seq<uint32>, fs: Files, c: nat) {
    2 <= c < |t| && Next(t, c) != 0 && !Owned(fs, c)
  }

  lemma Unsound(t: seq<uint32>, fs: Files, c: nat)
    requires Lost(t, fs, c)
    ensures !WellFormed(t, fs)
  {
  }

  lemma StandingPath(t: seq<uint32>, cl: seq<seq<byte>>, ch: seq<nat>, cs: nat)
    requires Standing(t, cl, ch, cs)
    ensures Path(t, ch) && cs > 0
  {
  }

  lemma AppendKeepsTable(t: seq<uint32>, fs: Files, s: nat, cl: seq<seq<byte>>, cs: nat, size: nat, data: seq<byte>)
    requires WellFormed(t, fs) && s in fs && Standing(t, cl, fs[s], cs) && AppendBacked(t, cl, fs[s], cs, size, |data|)
    ensures var r := Append(t, cl, fs[s], cs, size, data); WellFormed(r.table, fs[s := r.chain])
  {
    hide Append, AppendBacked, Standing, WellFormed, Flat;
    AppendKeeps(t, fs, s, cl, cs, size, data);
  }

  /** Growth that adds nothing changes nothing. */
  lemma UnchangedTable(t: seq<uint32>, ch: seq<nat>, need: nat)
    requires Path(t, ch) && |Grow(t, ch, need).chain| == |ch|
    ensures Grow(t, ch, need).table == t
  {
    if |ch| < need && LowestFree(t) < |t| {
      var c := LowestFree(t);
      GrownChain(t, ch, c);
      ChainIsPath(Grown(t, ch[|ch| - 1], c), ch + [c]);
      GrowIsChain(Grown(t, ch[|ch| - 1], c), ch + [c], need);
    }
  }

  lemma LostCluster(t: seq<uint32>, fs: Files, s: nat, k: nat, c: nat, grown: seq<nat>)
    requires WellFormed(t, fs) && s in fs && k < |fs[s]| && c in fs[s][k + 1..]
    requires forall e :: e in grown ==> e in fs[s][..k + 1] || e in FreeSet(t)
    ensures 2 <= c < |t| && Next(t, c) != 0 && c !in grown && !Owned(fs[s := grown], c)
  {
    var ch, gs := fs[s], fs[s := grown];
    var i :| 0 <= i < |ch[k + 1..]| && ch[k + 1..][i] == c;
    assert ch[k + 1 + i] == c && c in ch;
    UsedNotFree(t, ch, c);
    ChainDistinct(t, ch);
    assert forall j :: 0 <= j <= k ==> ch[..k + 1][j] == ch[j] != c;
    forall g | g in gs
      ensures c !in gs[g]
    {
      if g != s {
        assert gs[g] == fs[g] && Apart(fs[s], fs[g]);
      }
    }
  }

  /** An append through a handle on the first of two full clusters, as after opening the file, overwrites the
      beginning of the file. */
  lemma OpenedAppendOverwrites(t: seq<uint32>, cl: seq<seq<byte>>, ch: seq<nat>, cs: nat, data: seq<byte>)
    requires Ready(t, cl, ch, cs) && |ch| == 2 && 0 < |data| <= cs
    ensures Standing(t, cl, ch[..1], cs) && AppendBacked(t, cl, ch[..1], cs, cs, |data|)
    ensures var r := Append(t, cl, ch[..1], cs, cs, data);
            && TailReady(ch, cs, cs)
            && r.ok && r.table == t && ChainAfter(ch, 0, r.chain) == ch && Ready(t, r.clusters, ch, cs)
            && Times(cs, 1) == cs && |data| <= Times(cs, 2) && Flat(r.clusters, ch, cs)[..|data|] == data
  {
    hide Append, Flat;
    PrefixStanding(t, cl, ch, 0, cs);
    DivUnique(cs, cs, 1, 0);
    var p := ch[..1];
    AppendWithin(t, cl, p, cs, cs, data);
    AppendReads(t, cl, p, cs, cs, data);
    SizesKept(t, cl, p, cs, cs, data);
    var r := Append(t, cl, p, cs, cs, data);
    assert Times(cs, 2) == cs + Times(cs, 1) && Times(cs, 1) == cs + Times(cs, 0);
    assert ch == p + ch[1..];
    FlatAppend(r.clusters, p, ch[1..], cs);
    var front := Flat(r.clusters, p, cs);
    assert front[..|data|] == Flat(cl, p, cs)[..0] + data[..|data|] == data;
    assert (front + Flat(r.clusters, ch[1..], cs))[..|data|] == front[..|data|];
  }

  /** `r` is what an append through a handle on the last cluster of `p` leaves. */
  ghost predicate AppendsAs(t: seq<uint32>, cl: seq<seq<byte>>, p: seq<nat>, cs: nat, size: nat, data: seq<byte>, r: Outcome) {
    Standing(t, cl, p, cs) && AppendBacked(t, cl, p, cs, size, |data|) && r == Append(t, cl, p, cs, size, data)
  }

  /** The chain reads as `data` at its start. */
  ghost predicate StartsWith(cl: seq<seq<byte>>, ch: seq<nat>, cs: nat, data: seq<byte>) {
    Sized(cl, ch, cs) && data <= Flat(cl, ch, cs)
  }

  /** The file of clusters 3 and 4 holds 512 bytes of 65; opened and appended to, it starts with the appended 7. */
  lemma OpenedAppendInput() returns (t: seq<uint32>, cl: seq<seq<byte>>, r: Outcome)
    ensures Ready(t, cl, [3, 4], SECTOR) && TailReady([3, 4], SECTOR, SECTOR) && StartsWith(cl, [3, 4], SECTOR, [65])
    ensures AppendsAs(t, cl, [3], SECTOR, SECTOR, [7], r)
    ensures r.ok && Ready(r.table, r.clusters, [3, 4], SECTOR) && StartsWith(r.clusters, [3, 4], SECTOR, [7])
  {
    hide Append, Flat;
    t := seq(PER_SECTOR, _ => 0)[3 := 4][4 := ALLOCATED];
    cl := seq(PER_SECTOR, _ => seq(SECTOR, _ => 65 as byte));
    assert Next(t, 3) == 4 && IsEnd(Next(t, 4));
    assert forall i :: 0 <= i < 2 ==> 2 <= [3, 4][i] < |t|;
    assert [3, 4][..1] == [3];
    DivUnique(SECTOR, SECTOR, 1, 0);
    OpenedAppendOverwrites(t, cl, [3, 4], SECTOR, [7]);
    r := Append(t, cl, [3], SECTOR, SECTOR, [7]);
    FlatAt(cl, [3, 4], SECTOR, 0, 0);
  }

  // ----- clusters that the disk has

  /** Free clusters with sectors. */
  ghost function FreeOnDisk(t: seq<uint32>, cl: seq<seq<byte>>): set<nat> {
    set c | c in FreeSet(t) && c < |cl| && cl[c] != []
  }

  /** The allocator hands out a cluster with sectors exactly when one is free. */
  lemma AllocationBackedIff(t: seq<uint32>, cl: seq<seq<byte>>)
    requires 2 <= |t| == |cl| && Leading(cl) && LowestFree(t) < |t|
    ensures cl[LowestFree(t)] != [] <==> FreeOnDisk(t, cl) != {}
  {
    var c := LowestFree(t);
    if cl[c] != [] { assert c in FreeOnDisk(t, cl); }
    if FreeOnDisk(t, cl) != {} {
      var e :| e in FreeOnDisk(t, cl);
      assert c <= e;
    }
  }

  /** A chain can be extended to `need` clusters that all have sectors exactly when enough of those are free. */
  lemma {:induction false} GrowBackedIff(t: seq<uint32>, cl: seq<seq<byte>>, ch: seq<nat>, cs: nat, need: nat)
    requires Path(t, ch) && |cl| == |t| && cs > 0 && Held(cl, cs) && Leading(cl) && Sized(cl, ch, cs)
    ensures var r := Grow(t, ch, need);
            r.ok && Sized(cl, r.chain, cs) <==> need <= |ch| + |FreeOnDisk(t, cl)|
    decreases need - |ch|
  {
    if |ch| < need {
      var c := LowestFree(t);
      if c < |t| {
        var u := Grown(t, ch[|ch| - 1], c);
        GrownChain(t, ch, c);
        ChainIsPath(u, ch + [c]);
        AllocationBackedIff(t, cl);
        GrowIsChain(u, ch + [c], need);
        var r := Grow(u, ch + [c], need);
        assert r.chain[|ch|] == (ch + [c])[|ch|] == c;
        if cl[c] != [] {
          GrowBackedIff(u, cl, ch + [c], cs, need);
          TakenOnDisk(t, cl, ch[|ch| - 1], c);
        }
      } else {
        assert FreeOnDisk(t, cl) == {};
      }
    }
  }

  /** Growth that finds enough clusters with sectors takes as many of them as it adds. */
  lemma {:induction false} GrowLeaves(t: seq<uint32>, cl: seq<seq<byte>>, ch: seq<nat>, cs: nat, need: nat)
    requires Path(t, ch) && |cl| == |t| && cs > 0 && Held(cl, cs) && Leading(cl) && Sized(cl, ch, cs)
    requires need <= |ch| + |FreeOnDisk(t, cl)|
    ensures var r := Grow(t, ch, need);
            |r.table| == |t| && |FreeOnDisk(r.table, cl)| + |r.chain| == |FreeOnDisk(t, cl)| + |ch|
    decreases need - |ch|
  {
    if |ch| < need {
      var c := LowestFree(t);
      assert FreeOnDisk(t, cl) != {};
      var e :| e in FreeOnDisk(t, cl);
      AllocationBackedIff(t, cl);
      var u := Grown(t, ch[|ch| - 1], c);
      GrownChain(t, ch, c);
      ChainIsPath(u, ch + [c]);
      TakenOnDisk(t, cl, ch[|ch| - 1], c);
      GrowLeaves(u, cl, ch + [c], cs, need);
    }
  }

  /** Which free clusters have sectors does not depend on what is in them. */
  lemma FreeOnDiskSame(t: seq<uint32>, cl: seq<seq<byte>>, dl: seq<seq<byte>>)
    requires |dl| == |cl| && forall c :: 0 <= c < |cl| ==> |dl[c]| == |cl[c]|
    ensures FreeOnDisk(t, dl) == FreeOnDisk(t, cl)
  {
    assert forall c :: 0 <= c < |cl| ==> (dl[c] == [] <==> cl[c] == []);
  }

  lemma TakenOnDisk(t: seq<uint32>, cl: seq<seq<byte>>, last: nat, c: nat)
    requires |cl| == |t| <= CHAIN_END && last < |t| && Next(t, last) != 0 && c in FreeOnDisk(t, cl)
    ensures |FreeOnDisk(Grown(t, last, c), cl)| == |FreeOnDisk(t, cl)| - 1
  {
    var u := Grown(t, last, c);
    assert FreeOnDisk(u, cl) == FreeOnDisk(t, cl) - {c} by {
      assert u[last] == c && c != 0 && Next(u, last) == c;
    }
  }

  /** On a tail-ready file, appending makes the contents the old ones followed by what was written. */
  lemma AppendExtends(t: seq<uint32>, cl: seq<seq<byte>>, ch: seq<nat>, cs: nat, size: nat, data: seq<byte>)
    requires Standing(t, cl, ch, cs) && AppendBacked(t, cl, ch, cs, size, |data|) && TailReady(ch, cs, size)
    ensures var r := Append(t, cl, ch, cs, size, data);
            && Standing(r.table, r.clusters, r.chain, cs)
            && size <= Times(cs, |ch|) && size + r.written <= Times(cs, |r.chain|)
            && Flat(r.clusters, r.chain, cs)[..size + r.written] == Flat(cl, ch, cs)[..size] + data[..r.written]
  {
    hide Append, Flat, Path, Times;
    AppendReads(t, cl, ch, cs, size, data);
    DivSplit(cs, size);
  }

  /** A complete append leaves the file ready for the next one exactly when it wrote nothing or did
      not end on a cluster boundary. */
  lemma AppendTailIff(t: seq<uint32>, cl: seq<seq<byte>>, ch: seq<nat>, cs: nat, size: nat, data: seq<byte>)
    requires Standing(t, cl, ch, cs) && AppendBacked(t, cl, ch, cs, size, |data|) && TailReady(ch, cs, size)
    requires Append(t, cl, ch, cs, size, data).ok
    ensures TailReady(Append(t, cl, ch, cs, size, data).chain, cs, size + |data|)
       <==> data == [] || Rem(size + |data|, cs) != 0
  {
    hide Append, Path, Sized, Standing, AppendBacked, Extra, Quot, Rem;
    StandingPath(t, cl, ch, cs);
    var e, n, q := Rem(size, cs), |data|, Quot(size, cs);
    AppendedLength(t, cl, ch, cs, size, data);
    ExtraStep(0, cs);
    DivSplit(cs, size);
    if n < cs - e {
      DivUnique(cs, size + n, q, e + n);
    } else {
      BeyondTail(cs, size, n);
    }
  }

  lemma AppendedLength(t: seq<uint32>, cl: seq<seq<byte>>, ch: seq<nat>, cs: nat, size: nat, data: seq<byte>)
    requires Standing(t, cl, ch, cs) && AppendBacked(t, cl, ch, cs, size, |data|) && Append(t, cl, ch, cs, size, data).ok
    ensures |Append(t, cl, ch, cs, size, data).chain| == |ch| + AppendNeeds(size, |data|, cs)
  {
    hide Append, Grow, Path, Sized, AppendNeeds;
    AppendShape(t, cl, ch, cs, size, data);
    GrowIsChain(t, ch, |ch| + AppendNeeds(size, |data|, cs));
  }

  lemma BeyondTail(cs: nat, size: nat, n: nat)
    requires cs > 0 && cs - Rem(size, cs) <= n
    ensures var m := Extra(n - (cs - Rem(size, cs)), cs);
            Quot(size, cs) + 1 + m == Quot(size + n, cs) + 1 <==> Rem(size + n, cs) != 0
  {
    var rest := n - (cs - Rem(size, cs));
    DivSplit(cs, size);
    DivSplit(cs, rest);
    TimesAdd(cs, Quot(size, cs) + 1, Quot(rest, cs));
    DivUnique(cs, size + n, Quot(size, cs) + 1 + Quot(rest, cs), Rem(rest, cs));
    if Rem(rest, cs) == 0 {
      DivUnique(cs, rest + cs - 1, Quot(rest, cs), cs - 1);
    } else {
      DivUnique(cs, rest + cs - 1, Quot(rest, cs) + 1, Rem(rest, cs) - 1);
    }
  }

  lemma WholeClusterAppend(t: seq<uint32>, cl: seq<seq<byte>>, c: nat, cs: nat, a: seq<byte>)
    requires Standing(t, cl, [c], cs) && |a| == cs
    ensures AppendBacked(t, cl, [c], cs, 0, |a|)
    ensures var r := Append(t, cl, [c], cs, 0, a);
            r.ok && r.chain == [c] && r.table == t && Standing(r.table, r.clusters, r.chain, cs)
  {
    hide Append, Flat, Path;
    DivUnique(cs, 0, 0, 0);
    AppendWithin(t, cl, [c], cs, 0, a);
    AppendReads(t, cl, [c], cs, 0, a);
  }

  /** Filling the single cluster of an empty file and appending once more overwrites its beginning. */
  lemma SecondAppendOverwrites(t: seq<uint32>, cl: seq<seq<byte>>, c: nat, cs: nat, a: seq<byte>, b: seq<byte>)
    requires Standing(t, cl, [c], cs) && |a| == cs && b != [] && AppendBacked(t, cl, [c], cs, cs, |b|)
    ensures AppendBacked(t, cl, [c], cs, 0, |a|)
    ensures var r := Append(t, cl, [c], cs, 0, a);
            && r.ok && r.chain == [c] && Standing(r.table, r.clusters, r.chain, cs)
            && AppendBacked(r.table, r.clusters, r.chain, cs, cs, |b|)
            && var z := Append(r.table, r.clusters, r.chain, cs, cs, b);
            && Standing(z.table, z.clusters, z.chain, cs)
            && 0 < z.written <= Times(cs, |z.chain|)
            && Flat(z.clusters, z.chain, cs)[..z.written] == b[..z.written]
  {
    hide Append, Path, Flat, Grow;
    WholeClusterAppend(t, cl, c, cs, a);
    var r := Append(t, cl, [c], cs, 0, a);
    SizesKept(t, cl, [c], cs, 0, a);
    AppendShape(r.table, r.clusters, r.chain, cs, cs, b);
    AppendReads(r.table, r.clusters, r.chain, cs, cs, b);
    DivUnique(cs, cs, 1, 0);
  }

  /** No write changes the size of a cluster. */
  lemma SizesKept(t: seq<uint32>, cl: seq<seq<byte>>, ch: seq<nat>, cs: nat, size: nat, data: seq<byte>)
    requires Standing(t, cl, ch, cs) && AppendBacked(t, cl, ch, cs, size, |data|)
    ensures var r := Append(t, cl, ch, cs, size, data);
            |r.clusters| == |cl| && forall c :: 0 <= c < |cl| ==> |r.clusters[c]| == |cl[c]|
  {
    hide Overwrite, Grow, Append;
    var k, z, added, rest := AppendParts(t, cl, ch, cs, size, data);
  }

  // ----- reading and seeking

  /** A handle's position and the index of the cluster it stands on. */
  datatype Cursor = Cursor(position: nat, index: nat)

  predicate InSync(cs: nat, c: Cursor)
    requires cs > 0
  {
    c.index == Quot(c.position, cs)
  }

  function ReadCount(c: Cursor, size: nat, n: nat): nat {
    if c.position >= size then 0 else Min(n, size - c.position)
  }

  /** Where on the chain a read starts. */
  function ReadBase(cs: nat, c: Cursor): nat
    requires cs > 0
  {
    Times(cs, c.index) + Rem(c.position, cs)
  }

  /** The bytes a read of `n` bytes delivers. */
  function ReadBytes(flat: seq<byte>, cs: nat, c: Cursor, size: nat, n: nat): (r: seq<byte>)
    requires cs > 0 && ReadBase(cs, c) + ReadCount(c, size, n) <= |flat|
    ensures |r| == ReadCount(c, size, n)
  {
    flat[ReadBase(cs, c)..ReadBase(cs, c) + ReadCount(c, size, n)]
  }

  /** The cursor a read of `n` bytes leaves: it stays on the cluster of the last byte it delivered. */
  function AfterRead(cs: nat, c: Cursor, size: nat, n: nat): Cursor
    requires cs > 0
  {
    var k := ReadCount(c, size, n);
    if k == 0 then c else Cursor(c.position + k, Quot(ReadBase(cs, c) + k - 1, cs))
  }

  /** A read in sync returns the file's bytes from the position on. */
  lemma ReadsContents(flat: seq<byte>, cs: nat, c: Cursor, size: nat, n: nat)
    requires cs > 0 && InSync(cs, c) && size <= |flat| && c.position <= |flat|
    ensures ReadBase(cs, c) == c.position
    ensures ReadBytes(flat, cs, c, size, n) == flat[c.position..c.position + ReadCount(c, size, n)]
  {
    DivSplit(cs, c.position);
  }

  /** A read leaves the cursor in sync exactly when it delivered nothing or did not stop on a
      cluster boundary. */
  lemma SyncKeptIff(cs: nat, c: Cursor, size: nat, n: nat)
    requires cs > 0 && InSync(cs, c)
    ensures InSync(cs, AfterRead(cs, c, size, n))
       <==> ReadCount(c, size, n) == 0 || Rem(c.position + ReadCount(c, size, n), cs) != 0
  {
    var k := ReadCount(c, size, n);
    if k > 0 {
      DivSplit(cs, c.position);
      StepBack(cs, c.position + k);
    }
  }

  lemma StepBack(cs: nat, p: nat)
    requires cs > 0 && p > 0
    ensures Rem(p, cs) != 0 ==> Quot(p - 1, cs) == Quot(p, cs)
    ensures Rem(p, cs) == 0 ==> Quot(p, cs) > 0 && Quot(p - 1, cs) == Quot(p, cs) - 1
  {
    DivSplit(cs, p);
    if Rem(p, cs) != 0 {
      DivUnique(cs, p - 1, Quot(p, cs), Rem(p, cs) - 1);
    } else {
      assert Quot(p, cs) > 0;
      DivUnique(cs, p - 1, Quot(p, cs) - 1, cs - 1);
    }
  }

  /** After a read in sync that delivered something, the handle stands on the cluster of the last byte. */
  lemma StandsOnLastByte(cs: nat, c: Cursor, size: nat, n: nat)
    requires cs > 0 && InSync(cs, c) && ReadCount(c, size, n) > 0
    ensures var d := AfterRead(cs, c, size, n);
            d.position == c.position + ReadCount(c, size, n) && d.index == Quot(d.position - 1, cs)
  {
    DivSplit(cs, c.position);
  }

  /** Two reads whose intermediate stop keeps the cursor in sync deliver what one read would. */
  lemma ReadsCompose(flat: seq<byte>, cs: nat, c: Cursor, size: nat, m: nat, n: nat)
    requires cs > 0 && InSync(cs, c) && size <= |flat| && c.position <= |flat|
    requires InSync(cs, AfterRead(cs, c, size, m))
    ensures var d := AfterRead(cs, c, size, m);
            && ReadBase(cs, c) == c.position && ReadBase(cs, d) == d.position <= |flat|
            && ReadBytes(flat, cs, c, size, m) + ReadBytes(flat, cs, d, size, n) == ReadBytes(flat, cs, c, size, m + n)
            && AfterRead(cs, d, size, n) == AfterRead(cs, c, size, m + n)
  {
    var d := AfterRead(cs, c, size, m);
    DivSplit(cs, c.position);
    DivSplit(cs, d.position);
  }

  /** A read that stops on a cluster boundary makes the next one deliver the same cluster again. */
  lemma BoundaryRepeats(flat: seq<byte>, cs: nat, c: Cursor, size: nat, m: nat, n: nat)
    requires cs > 0 && InSync(cs, c) && size <= |flat|
    requires ReadCount(c, size, m) > 0 && Rem(c.position + ReadCount(c, size, m), cs) == 0
    ensures var d := AfterRead(cs, c, size, m);
            && cs <= d.position <= |flat|
            && ReadBase(cs, d) == d.position - cs
            && ReadBytes(flat, cs, d, size, n) == flat[d.position - cs..d.position - cs + ReadCount(d, size, n)]
  {
    hide Quot, Rem;
    var d := AfterRead(cs, c, size, m);
    DivSplit(cs, c.position);
    DivSplit(cs, d.position);
    StepBack(cs, d.position);
  }

  /** The clusters a read of `n` bytes asks for from position `p` on, standing on cluster `c`, up to the first one that the
      table does not have. */
  ghost function Asked(t: seq<uint32>, cs: nat, c: nat, p: nat, n: nat): (r: seq<nat>)
    requires cs > 0
    decreases n
  {
    if n == 0 || c >= READ_END then []
    else
      var k := Min(n, cs - Rem(p, cs));
      [c] + if n == k || c >= |t| then [] else Asked(t, cs, Next(t, c), p + k, n - k)
  }

  /** A read stays on the file's chain exactly when the chain has the bytes asked for or ends in a mark that the reading
      code recognises. */
  lemma ReadStaysIff(t: seq<uint32>, ch: seq<nat>, cs: nat, c: Cursor, n: nat)
    requires Chain(t, ch) && cs > 0 && c.index < |ch|
    ensures (forall x :: x in Asked(t, cs, ch[c.index], c.position, n) ==> x in ch)
       <==> ReadBase(cs, c) + n <= Times(cs, |ch|) || t[ch[|ch| - 1]] % 0x1000_0000 >= 0x0FFF_FFF8
  {
    AskedFrom(t, ch, cs, c.index, c.position, n);
  }

  lemma {:induction false} AskedFrom(t: seq<uint32>, ch: seq<nat>, cs: nat, j: nat, p: nat, n: nat)
    requires Chain(t, ch) && cs > 0 && j < |ch|
    ensures (forall x :: x in Asked(t, cs, ch[j], p, n) ==> x in ch)
       <==> Times(cs, j) + Rem(p, cs) + n <= Times(cs, |ch|) || Next(t, ch[|ch| - 1]) >= READ_END
    decreases n
  {
    hide Asked, Quot, Rem;
    var k := cs - Rem(p, cs);
    TimesMono(cs, j + 1, |ch|);
    if n <= k {
      AskedOne(t, cs, ch[j], p, n);
    } else {
      DivSplit(cs, p);
      DivUnique(cs, p + k, Quot(p, cs) + 1, 0);
      AskedStep(t, cs, ch[j], p, n);
      if j + 1 < |ch| {
        assert Next(t, ch[j]) == ch[j + 1];
        AskedFrom(t, ch, cs, j + 1, p + k, n - k);
        assert ch[j] in ch;
      } else {
        var next := Next(t, ch[j]);
        AskedEnd(t, cs, next, p + k, n - k);
        assert next !in ch && ch[j] in ch;
        assert Asked(t, cs, ch[j], p, n) == if next >= READ_END then [ch[j]] else [ch[j], next];
      }
    }
  }

  lemma AskedOne(t: seq<uint32>, cs: nat, c: nat, p: nat, n: nat)
    requires cs > 0 && c < READ_END && n <= cs - Rem(p, cs)
    ensures Asked(t, cs, c, p, n) == if n == 0 then [] else [c]
  {
  }

  lemma AskedStep(t: seq<uint32>, cs: nat, c: nat, p: nat, n: nat)
    requires cs > 0 && c < |t| <= CHAIN_END && cs - Rem(p, cs) < n
    ensures var k := cs - Rem(p, cs); Asked(t, cs, c, p, n) == [c] + Asked(t, cs, Next(t, c), p + k, n - k)
  {
  }

  lemma AskedEnd(t: seq<uint32>, cs: nat, c: nat, p: nat, n: nat)
    requires cs > 0 && c >= CHAIN_END >= |t| && n > 0
    ensures Asked(t, cs, c, p, n) == if c >= READ_END then [] else [c]
  {
  }

  /** A chain cut by a WRITE ends in a mark that the reading code takes for a cluster: reading `n` bytes from its start
      stays on it exactly when it has that many. */
  lemma CutReadIff(t: seq<uint32>, ch: seq<nat>, keep: nat, cs: nat, n: nat)
    requires Chain(t, ch) && cs > 0 && 0 < keep < |ch|
    ensures (forall x :: x in Asked(Shrink(t, ch, keep), cs, ch[0], 0, n) ==> x in ch[..keep]) <==> n <= Times(cs, keep)
  {
    hide Asked;
    ShrunkChain(t, ch, keep);
    DivUnique(cs, 0, 0, 0);
    ReadStaysIff(Shrink(t, ch, keep), ch[..keep], cs, Cursor(0, 0), n);
    assert ch[..keep][keep - 1] == ch[keep - 1];
  }

  /** The file of clusters 3 and 4, recorded with 600 bytes, after a WRITE of 10: recorded with 610, of one cluster. Read to
      its recorded end, it asks for cluster 0x0FFFFF. */
  lemma CutReadInput() returns (t: seq<uint32>)
    ensures Chain(t, [3, 4]) && Needed(10, 512) == 1
    ensures Asked(Shrink(t, [3, 4], 1), 512, 3, 0, 610) == [3, 0x0F_FFFF]
  {
    hide Asked;
    t := seq(PER_SECTOR, _ => 0)[3 := 4][4 := ALLOCATED];
    assert Next(t, 3) == 4 && IsEnd(Next(t, 4));
    DivUnique(SECTOR, 10, 0, 10);
    DivUnique(SECTOR, 0, 0, 0);
    var u := Shrink(t, [3, 4], 1);
    AskedStep(u, SECTOR, 3, 0, 610);
    AskedEnd(u, SECTOR, CUT, SECTOR, 610 - SECTOR);
  }

  /** The bytes a read delivers when the chain may be too short for what is asked. */
  function Delivered(cs: nat, c: Cursor, size: nat, n: nat, len: nat): nat
    requires cs > 0 && ReadBase(cs, c) <= Times(cs, len)
  {
    Min(ReadCount(c, size, n), Times(cs, len) - ReadBase(cs, c))
  }

  /** A read of `n` bytes from cursor `c` can be told from the file's chain: the chain is long enough, or ends in a mark
      that the reading code recognises; and there is room for what is delivered. */
  ghost predicate Followed(t: seq<uint32>, cl: seq<seq<byte>>, ch: seq<nat>, cs: nat, c: Cursor, size: nat, n: nat, room: nat) {
    && Ready(t, cl, ch, cs) && c.index < |ch| && ReadBase(cs, c) <= Times(cs, |ch|)
    && (ReadBase(cs, c) + ReadCount(c, size, n) <= Times(cs, |ch|) || Next(t, ch[|ch| - 1]) >= READ_END)
    && Delivered(cs, c, size, n, |ch|) <= room
  }

  /** What it leaves: `got` bytes of the file in the buffer, and the handle on the cluster of the last of them, or on the
      end mark when the chain had too few. */
  ghost predicate ReadLeaves(t: seq<uint32>, cl: seq<seq<byte>>, ch: seq<nat>, cs: nat, c: Cursor, size: nat, n: nat,
                             buffer: seq<byte>, got: nat, position: nat, cluster: nat) {
    && Ready(t, cl, ch, cs) && ReadBase(cs, c) <= Times(cs, |ch|)
    && got == Delivered(cs, c, size, n, |ch|) <= |buffer|
    && buffer[..got] == Flat(cl, ch, cs)[ReadBase(cs, c)..ReadBase(cs, c) + got]
    && position == c.position + got
    && if got == ReadCount(c, size, n) then
         var d := AfterRead(cs, c, size, n);
         position == d.position && d.index < |ch| && cluster == ch[d.index]
       else cluster == Next(t, ch[|ch| - 1]) >= READ_END
  }

  lemma FollowedFacts(t: seq<uint32>, cl: seq<seq<byte>>, ch: seq<nat>, cs: nat, c: Cursor, size: nat, n: nat, room: nat)
    requires Followed(t, cl, ch, cs, c, size, n, room)
    ensures cs > 0 && c.index < |ch| && Ready(t, cl, ch, cs) && Sized(cl, ch, cs) && ch[|ch| - 1] < |t|
    ensures ReadBase(cs, c) < Times(cs, |ch|) && Delivered(cs, c, size, n, |ch|) <= room
    ensures ReadBase(cs, c) + ReadCount(c, size, n) <= Times(cs, |ch|) || Next(t, ch[|ch| - 1]) >= READ_END
  {
    TimesMono(cs, c.index + 1, |ch|);
  }

  /** The read is over: all is delivered, or the walk has come to the end mark. */
  lemma ReadIsOver(t: seq<uint32>, cl: seq<seq<byte>>, ch: seq<nat>, cs: nat, c: Cursor, size: nat, n: nat, buffer: seq<byte>,
                   got: nat, position: nat, cluster: nat, j: nat)
    requires Ready(t, cl, ch, cs) && j < |ch| && ReadBase(cs, c) <= Times(cs, |ch|)
    requires got == Delivered(cs, c, size, n, |ch|) <= |buffer| && position == c.position + got
    requires forall i :: 0 <= i < got ==> buffer[i] == Flat(cl, ch, cs)[ReadBase(cs, c) + i]
    requires if got == ReadCount(c, size, n) then AfterRead(cs, c, size, n) == Cursor(position, j) && cluster == ch[j]
             else cluster == Next(t, ch[|ch| - 1]) >= READ_END
    ensures ReadLeaves(t, cl, ch, cs, c, size, n, buffer, got, position, cluster)
  {
    hide Flat, AfterRead, ReadBase;
  }

  lemma WholeFollowed(t: seq<uint32>, cl: seq<seq<byte>>, ch: seq<nat>, cs: nat, c: Cursor, size: nat, n: nat, room: nat)
    requires Ready(t, cl, ch, cs) && c.index < |ch| && ReadBase(cs, c) + ReadCount(c, size, n) <= Times(cs, |ch|) && n <= room
    ensures Followed(t, cl, ch, cs, c, size, n, room)
  {
  }

  /** From a chain that is long enough, what is delivered are the bytes asked for. */
  lemma ReadWhole(t: seq<uint32>, cl: seq<seq<byte>>, ch: seq<nat>, cs: nat, c: Cursor, size: nat, n: nat, buffer: seq<byte>,
                  got: nat, position: nat, cluster: nat)
    requires ReadLeaves(t, cl, ch, cs, c, size, n, buffer, got, position, cluster)
    requires ReadBase(cs, c) + ReadCount(c, size, n) <= Times(cs, |ch|)
    ensures got == ReadCount(c, size, n) <= |buffer| && buffer[..got] == ReadBytes(Flat(cl, ch, cs), cs, c, size, n)
  {
    hide Flat, AfterRead, ReadBase;
  }

  /** Seeking walks position/cs links from the cluster the handle stands on. */
  function AfterSeek(cs: nat, c: Cursor, p: nat): Cursor
    requires cs > 0
  {
    if p == 0 then Cursor(0, 0) else Cursor(p, c.index + Quot(p, cs))
  }

  /** So a seek ends in sync exactly when it goes to 0 or starts on the first cluster. */
  lemma SeekSyncIff(cs: nat, c: Cursor, p: nat)
    requires cs > 0
    ensures InSync(cs, AfterSeek(cs, c, p)) <==> p == 0 || c.index == 0
  {
    DivUnique(cs, 0, 0, 0);
  }

  /** A file of two clusters, read into the second one and then sought to where that one begins: the walk starts on the
      second cluster and asks for a third. */
  lemma SeekBeyond(ch: seq<nat>, cs: nat, size: nat)
    requires |ch| == 2 && cs > 1 && cs < size < cs + cs
    ensures var c := AfterRead(cs, Cursor(0, 0), size, cs + 1);
            TailReady(ch, cs, size) && c == Cursor(cs + 1, 1) && AfterSeek(cs, c, cs) == Cursor(cs, |ch|)
  {
    DivUnique(cs, 0, 0, 0);
    DivUnique(cs, cs, 1, 0);
    DivUnique(cs, size, 1, size - cs);
  }

  /** Seek from the first cluster, then read: the file's bytes from the sought position on. */
  lemma SeekThenRead(flat: seq<byte>, cs: nat, c: Cursor, size: nat, p: nat, n: nat)
    requires cs > 0 && (c.index == 0 || p == 0) && p <= size <= |flat|
    ensures ReadBase(cs, AfterSeek(cs, c, p)) == p
    ensures ReadBytes(flat, cs, AfterSeek(cs, c, p), size, n) == flat[p..Min(p + n, size)]
  {
    SeekSyncIff(cs, c, p);
    ReadsContents(flat, cs, AfterSeek(cs, c, p), size, n);
  }

  /** WRITE a buffer, then read as many bytes from the start: exactly the buffer comes back, whatever
      size the handle showed before. */
  lemma WriteThenRead(t: seq<uint32>, cl: seq<seq<byte>>, ch: seq<nat>, cs: nat, data: seq<byte>, size: nat)
    requires Ready(t, cl, ch, cs) && WriteBacked(t, cl, ch, cs, |data|) && |data| <= size
    ensures var r := Replace(t, cl, ch, cs, data);
            r.ok ==>
            && Ready(r.table, r.clusters, r.chain, cs)
            && ReadBase(cs, Cursor(0, 0)) + |data| <= Times(cs, |r.chain|)
            && ReadBytes(Flat(r.clusters, r.chain, cs), cs, Cursor(0, 0), size, |data|) == data
  {
    ReplaceReads(t, cl, ch, cs, data);
    DivUnique(cs, 0, 0, 0);
  }
}
