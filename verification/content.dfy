/** File contents over cluster arrays: what a partial cluster write leaves behind, how a chain of
    clusters reads as one byte string, and how writing a buffer along a chain changes it. */
module Content {
  import opened Bytes
  import opened Disks
  import opened Layout

  /** The first `k` bytes, or all there are. */
  function UpTo(s: seq<byte>, k: nat): (r: seq<byte>)
    ensures r <= s && |r| == Min(|s|, k) && (|s| <= k ==> r == s)
  {
    s[..Min(|s|, k)]
  }

  // ----- one cluster

  function RoundUp(n: nat): (r: nat)
    ensures n <= r < n + SECTOR && r % SECTOR == 0
  {
    ((n + SECTOR - 1) / SECTOR) * SECTOR
  }

  /** A cluster after `data` was written at `off`: the rest of the last touched sector is zeroed. */
  function Overwrite(was: seq<byte>, off: nat, data: seq<byte>): (r: seq<byte>)
    requires off + |data| <= |was| && |was| % SECTOR == 0
    ensures |r| == |was|
  {
    if data == [] then was
    else
      var end := off + |data|;
      RoundUpWithin(end, |was|);
      was[..off] + data + Zeros(RoundUp(end) - end) + was[RoundUp(end)..]
  }

  lemma RoundUpWithin(n: nat, m: nat)
    requires n <= m && m % SECTOR == 0
    ensures RoundUp(n) <= m
  {
  }

  lemma OverwriteNothing(was: seq<byte>, off: nat)
    requires off <= |was| && |was| % SECTOR == 0
    ensures Overwrite(was, off, []) == was
  {
  }

  /** Byte by byte: before `off` unchanged, then the data, then zeros to the sector end, then unchanged. */
  lemma OverwriteAt(was: seq<byte>, off: nat, data: seq<byte>, k: nat)
    requires off + |data| <= |was| && |was| % SECTOR == 0 && k < |was| && data != []
    ensures Overwrite(was, off, data)[k] ==
            if k < off then was[k]
            else if k < off + |data| then data[k - off]
            else if k < RoundUp(off + |data|) then 0
            else was[k]
  {
    RoundUpWithin(off + |data|, |was|);
  }

  /** What was written is what a read of the same range returns. */
  lemma OverwriteRoundTrip(was: seq<byte>, off: nat, data: seq<byte>)
    requires off + |data| <= |was| && |was| % SECTOR == 0
    ensures Overwrite(was, off, data)[off..off + |data|] == data
    ensures Overwrite(was, off, data)[..off] == was[..off]
  {
    if data != [] { RoundUpWithin(off + |data|, |was|); }
  }

  lemma OverwriteWhole(was: seq<byte>, data: seq<byte>)
    requires |data| == |was| && |was| % SECTOR == 0 && data != []
    ensures Overwrite(was, 0, data) == data
  {
    assert RoundUp(|data|) == |data|;
  }

  /** Two adjacent writes that meet on a sector boundary are one write. */
  lemma OverwriteJoin(was: seq<byte>, off: nat, a: seq<byte>, b: seq<byte>)
    requires off + |a| + |b| <= |was| && |was| % SECTOR == 0
    requires a != [] && b != [] ==> (off + |a|) % SECTOR == 0
    ensures Overwrite(Overwrite(was, off, a), off + |a|, b) == Overwrite(was, off, a + b)
  {
    hide Overwrite;
    if b == [] {
      assert a + b == a;
      OverwriteNothing(Overwrite(was, off, a), off + |a|);
    } else if a == [] {
      assert a + b == b;
      OverwriteNothing(was, off);
    } else {
      var x, y := Overwrite(Overwrite(was, off, a), off + |a|, b), Overwrite(was, off, a + b);
      assert RoundUp(off + |a|) == off + |a|;
      forall k: nat | k < |was|
        ensures x[k] == y[k]
      {
        OverwriteAt(was, off, a, k);
        OverwriteAt(Overwrite(was, off, a), off + |a|, b, k);
        OverwriteAt(was, off, a + b, k);
      }
    }
  }

  /** A write inside one sector is the replacement of that sector by the padded new bytes. */
  lemma OverwriteSector(was: seq<byte>, off: nat, data: seq<byte>)
    requires off + |data| <= |was| && |was| % SECTOR == 0
    requires data != [] && off % SECTOR + |data| <= SECTOR
    ensures var j := off / SECTOR;
            && SECTOR * (j + 1) <= |was|
            && |was[SECTOR * j..off] + data| <= SECTOR
            && Overwrite(was, off, data) == ReplaceSector(was, j, Padded(was[SECTOR * j..off] + data))
  {
    var j := off / SECTOR;
    var s := Padded(was[SECTOR * j..off] + data);
    var x, y := Overwrite(was, off, data), ReplaceSector(was, j, s);
    assert RoundUp(off + |data|) == SECTOR * (j + 1);
    forall k: nat | k < |was|
      ensures x[k] == y[k]
    {
      OverwriteAt(was, off, data, k);
      if SECTOR * j <= k < SECTOR * (j + 1) {
        assert y[k] == s[k - SECTOR * j];
      }
    }
  }

  // ----- a chain of clusters

  /** Every cluster is on the disk with its full size, or not at all. */
  ghost predicate Held(cl: seq<seq<byte>>, cs: nat) {
    forall c :: 2 <= c < |cl| ==> |cl[c]| == cs || cl[c] == []
  }

  /** The clusters on the disk are the first ones. */
  ghost predicate Leading(cl: seq<seq<byte>>) {
    forall c, e :: 2 <= c <= e < |cl| && cl[e] != [] ==> cl[c] != []
  }

  /** Every cluster of the chain exists and has the cluster size. */
  ghost predicate Sized(cl: seq<seq<byte>>, ch: seq<nat>, cs: nat) {
    forall i :: 0 <= i < |ch| ==> ch[i] < |cl| && |cl[ch[i]]| == cs
  }

  /** The bytes of the chain's clusters, in order. */
  ghost function Flat(cl: seq<seq<byte>>, ch: seq<nat>, cs: nat): (r: seq<byte>)
    requires Sized(cl, ch, cs)
    ensures |r| == Times(cs, |ch|)
  {
    if ch == [] then []
    else cl[ch[0]] + Flat(cl, ch[1..], cs)
  }

  lemma {:induction false} FlatAppend(cl: seq<seq<byte>>, a: seq<nat>, b: seq<nat>, cs: nat)
    requires Sized(cl, a, cs) && Sized(cl, b, cs)
    ensures Sized(cl, a + b, cs)
    ensures Flat(cl, a + b, cs) == Flat(cl, a, cs) + Flat(cl, b, cs)
  {
    if a == [] {
      assert a + b == b;
    } else {
      FlatAppend(cl, a[1..], b, cs);
      assert (a + b)[1..] == a[1..] + b;
    }
  }

  lemma {:induction false} FlatFrame(cl: seq<seq<byte>>, dl: seq<seq<byte>>, ch: seq<nat>, cs: nat)
    requires Sized(cl, ch, cs) && |dl| == |cl|
    requires forall c :: c in ch ==> dl[c] == cl[c]
    ensures Sized(dl, ch, cs) && Flat(dl, ch, cs) == Flat(cl, ch, cs)
  {
    assert forall i :: 0 <= i < |ch| ==> ch[i] in ch;
    if ch != [] {
      FlatFrame(cl, dl, ch[1..], cs);
    }
  }

  lemma SlicesJoin(s: seq<byte>, i: nat, n: nat)
    requires i + n <= |s|
    ensures s[..i] + s[i..i + n] == s[..i + n]
  {
  }

  /** One byte of the `j`-th cluster, seen in the whole. */
  lemma {:induction false} FlatAt(cl: seq<seq<byte>>, ch: seq<nat>, cs: nat, j: nat, o: nat)
    requires Sized(cl, ch, cs) && j < |ch| && o < cs
    ensures Times(cs, j) + o < Times(cs, |ch|)
    ensures Flat(cl, ch, cs)[Times(cs, j) + o] == cl[ch[j]][o]
    decreases |ch|
  {
    TimesMono(cs, j + 1, |ch|);
    if j > 0 { FlatAt(cl, ch[1..], cs, j - 1, o); }
  }

  /** The bytes of one cluster, seen in the whole file. */
  lemma FlatRange(cl: seq<seq<byte>>, ch: seq<nat>, cs: nat, j: nat, o: nat, n: nat)
    requires Sized(cl, ch, cs) && j < |ch| && o + n <= cs
    ensures Times(cs, j) + o + n <= Times(cs, |ch|)
    ensures forall i :: Times(cs, j) + o <= i < Times(cs, j) + o + n ==> Flat(cl, ch, cs)[i] == cl[ch[j]][i - Times(cs, j)]
  {
    hide Flat;
    TimesMono(cs, j + 1, |ch|);
    forall i | Times(cs, j) + o <= i < Times(cs, j) + o + n
      ensures Flat(cl, ch, cs)[i] == cl[ch[j]][i - Times(cs, j)]
    {
      FlatAt(cl, ch, cs, j, i - Times(cs, j));
    }
  }

  // ----- writing a buffer along a chain

  function Min(a: nat, b: nat): nat { if a < b then a else b }

  /** Clusters after `data` has been written from the start of `ch`, one cluster at a time. */
  ghost function Fill(cl: seq<seq<byte>>, ch: seq<nat>, cs: nat, data: seq<byte>): (r: seq<seq<byte>>)
    requires cs > 0 && cs % SECTOR == 0 && Sized(cl, ch, cs) && |data| <= Times(cs, |ch|)
    ensures |r| == |cl|
    ensures forall c :: 0 <= c < |cl| ==> |r[c]| == |cl[c]|
    ensures forall c :: 0 <= c < |cl| && c !in ch ==> r[c] == cl[c]
    decreases |ch|
  {
    if data == [] then cl
    else
      var k := Min(cs, |data|);
      Fill(cl[ch[0] := Overwrite(cl[ch[0]], 0, data[..k])], ch[1..], cs, data[k..])
  }

  lemma FillEnds(cl: seq<seq<byte>>, ch: seq<nat>, cs: nat, data: seq<byte>)
    requires cs > 0 && cs % SECTOR == 0 && Sized(cl, ch, cs)
    ensures forall j :: 0 <= j <= |ch| ==> FillRest(cl, ch, cs, data, j, |data|) == cl
    ensures |data| <= Times(cs, |ch|) ==> FillRest(cl, ch, cs, data, 0, 0) == Fill(cl, ch, cs, data)
  {
    assert ch[0..] == ch && data[0..] == data && data[|data|..] == [];
  }

  /** One cluster of the way. */
  lemma FillStep(cl: seq<seq<byte>>, ch: seq<nat>, cs: nat, data: seq<byte>, j: nat, w: nat)
    requires cs > 0 && cs % SECTOR == 0 && Sized(cl, ch, cs) && j < |ch|
    requires w < |data| && |data| - w <= Times(cs, |ch| - j)
    ensures var k := Min(cs, |data| - w);
            var dl := cl[ch[j] := Overwrite(cl[ch[j]], 0, data[w..w + k])];
            && Sized(dl, ch, cs) && |data| - w - k <= Times(cs, |ch| - j - 1)
            && FillRest(cl, ch, cs, data, j, w) == FillRest(dl, ch, cs, data, j + 1, w + k)
  {
    hide Overwrite, Fill;
    var k := Min(cs, |data| - w);
    var c, d := ch[j..], data[w..];
    assert c[1..] == ch[j + 1..] && c[0] == ch[j];
    assert d[..k] == data[w..w + k] && d[k..] == data[w + k..];
    FillOne(cl, c, cs, d);
  }

  lemma FillOne(cl: seq<seq<byte>>, ch: seq<nat>, cs: nat, data: seq<byte>)
    requires cs > 0 && cs % SECTOR == 0 && Sized(cl, ch, cs) && 0 < |data| <= Times(cs, |ch|)
    ensures var k := Min(cs, |data|);
            var dl := cl[ch[0] := Overwrite(cl[ch[0]], 0, data[..k])];
            && Sized(dl, ch[1..], cs) && |data| - k <= Times(cs, |ch| - 1)
            && Fill(cl, ch, cs, data) == Fill(dl, ch[1..], cs, data[k..])
  {
    hide Overwrite;
  }

  /** What is left to fill: `data` from `w` on, along the chain from its `j`-th cluster on. */
  ghost function FillRest(cl: seq<seq<byte>>, ch: seq<nat>, cs: nat, data: seq<byte>, j: nat, w: nat): (r: seq<seq<byte>>)
    requires cs > 0 && cs % SECTOR == 0 && Sized(cl, ch, cs) && j <= |ch|
    requires w <= |data| && |data| - w <= Times(cs, |ch| - j)
  {
    Fill(cl, ch[j..], cs, data[w..])
  }

  lemma PrefixJoin(a: seq<byte>, f: seq<byte>, data: seq<byte>, k: nat)
    requires k <= |a| && k <= |data| && a[..k] == data[..k] && |data| <= |a| + |f|
    requires k == |data| || (k == |a| && f[..|data| - k] == data[k..])
    ensures (a + f)[..|data|] == data
  {
    if k < |data| {
      assert (a + f)[..|data|] == a + f[..|data| - k];
    } else {
      assert (a + f)[..|data|] == a[..k];
    }
  }

  /** After filling, the chain reads as the data. */
  lemma {:induction false} FillReads(cl: seq<seq<byte>>, ch: seq<nat>, cs: nat, data: seq<byte>)
    requires cs > 0 && cs % SECTOR == 0 && Sized(cl, ch, cs) && |data| <= Times(cs, |ch|)
    requires forall i, j :: 0 <= i < j < |ch| ==> ch[i] != ch[j]
    ensures Sized(Fill(cl, ch, cs, data), ch, cs)
    ensures Flat(Fill(cl, ch, cs, data), ch, cs)[..|data|] == data
    decreases |ch|
  {
    hide Overwrite;
    if data != [] {
      var k, c := Min(cs, |data|), ch[0];
      var dl := cl[c := Overwrite(cl[c], 0, data[..k])];
      assert Sized(dl, ch[1..], cs);
      FillReads(dl, ch[1..], cs, data[k..]);
      var r := Fill(cl, ch, cs, data);
      assert r[c] == Overwrite(cl[c], 0, data[..k]) by {
        assert c !in ch[1..];
      }
      OverwriteRoundTrip(cl[c], 0, data[..k]);
      PrefixJoin(r[c], Flat(r, ch[1..], cs), data, k);
    }
  }
}
