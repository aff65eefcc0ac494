/** What write answers and leaves, in every mode, for every handle: said of the result itself, byte by byte. */
module WriteAnswers {
  import opened Bytes
  import opened Disks
  import opened Layout
  import opened Chains
  import opened Content
  import opened Records
  import opened FileSpec
  import opened FileErrors
  import opened Fat32Files

  /** The record at `s` has the number `size` in its bytes 28 to 31, lowest byte first, and is otherwise as it was. */
  ghost predicate Restamped(was: seq<seq<byte>>, now: seq<seq<byte>>, s: Slot, size: nat) {
    && s.cluster < |was| == |now| && |now[s.cluster]| == |was[s.cluster]| && 32 * (s.index + 1) <= |was[s.cluster]|
    && var at, c, d := 32 * s.index, was[s.cluster], now[s.cluster];
       && d[..at + 28] == c[..at + 28]
       && (d[at + 28] as int) + 0x100 * (d[at + 29] as int) + 0x10000 * (d[at + 30] as int) + 0x1000000 * (d[at + 31] as int) == size
  }

  /** The file's record is in use. */
  ghost predicate HasRecord(v: View, start: nat, path: seq<nat>, cs: nat)
    requires Usable(v, start, path, cs)
  {
    var s := SlotOf(v.clusters, path, start);
    Record(v.clusters[s.cluster], s.index)[0] != 0
  }

  lemma UpdatedRestamps(cl: seq<byte>, i: nat, size: uint32)
    requires |cl| % SECTOR == 0 && i < Count(cl)
    ensures Restamped([cl], [Updated(cl, i, size)], Slot(0, i), size)
  {
    hide Updated;
    var d, at := Updated(cl, i, size), 32 * i;
    UpdatedOwn(cl, i, size);
    var rec := Record(cl, i);
    var now := WithSize(rec, size);
    PutThenGet(rec, 28, size, 28);
    assert Record(d, i) == now;
    assert forall k :: 0 <= k < RECORD ==> d[at + k] == Record(d, i)[k];
    forall k | 0 <= k < at + 28
      ensures d[k] == cl[k]
    {
      if k < at {
        UpdatedElsewhere(cl, i, size, k);
      } else {
        assert now[k - at] == rec[k - at] == cl[k];
      }
    }
  }

  lemma RestampedAt(was: seq<seq<byte>>, now: seq<seq<byte>>, s: Slot, size: uint32)
    requires s.cluster < |was| == |now| && |was[s.cluster]| % SECTOR == 0 && s.index < Count(was[s.cluster])
    requires now[s.cluster] == Updated(was[s.cluster], s.index, size)
    ensures Restamped(was, now, s, size)
  {
    hide Updated;
    UpdatedRestamps(was[s.cluster], s.index, size);
  }

  /** A record that begins with an end mark stops every mode. */
  lemma WriteNotFound(v: View, start: nat, path: seq<nat>, cs: nat, mode: WriteMode, data: seq<byte>)
    requires Prepared(v, start, path, cs, mode, |data|) && !HasRecord(v, start, path, cs)
    ensures WriteResult(v, start, path, cs, mode, data) == Result(NOT_FOUND, v)
  {
    hide SlotOf, Written, Appended;
  }

  /** WRITE, whatever size the handle shows. It succeeds exactly when `n / cs + 1` clusters can be had. The file then has
      that many, reads as the buffer, and shows the old size plus the buffer's in its record and in the handle, which
      stands at the start. Otherwise no byte and nothing in the handle has changed. */
  lemma WriteDoes(v: View, start: nat, dir: nat, path: seq<nat>, cs: nat, data: seq<byte>)
    requires InDirectory(v, start, dir, path, cs) && Prepared(v, start, path, cs, WRITE, |data|) && HasRecord(v, start, path, cs)
    ensures cs > 0
    ensures var r := WriteResult(v, start, path, cs, WRITE, data);
            var w, s := r.view, SlotOf(v.clusters, path, start);
            && r.err == (if |data| / cs + 1 <= |v.files[start]| + |FreeSet(v.table)| then SUCCESS else DISK_FULL)
            && WellFormed(w.table, w.files) && OthersKept(v, w, start, dir, cs)
            && (r.err == SUCCESS ==>
                  && start in w.files && Sized(w.clusters, w.files[start], cs) && |w.files[start]| == |data| / cs + 1
                  && |data| <= cs * |w.files[start]| == |Flat(w.clusters, w.files[start], cs)|
                  && Flat(w.clusters, w.files[start], cs)[..|data|] == data
                  && w.size == (v.size + |data|) % 0x1_0000_0000 && w.cluster == start && w.position == 0
                  && Restamped(v.clusters, w.clusters, s, (v.size + |data|) % 0x1_0000_0000))
            && (r.err == DISK_FULL ==>
                  && w.clusters == v.clusters && w.size == v.size && w.cluster == v.cluster && w.position == v.position
                  && start in w.files && v.files[start] <= w.files[start])
  {
    hide Replace, Updated, SlotOf, Flat, WellFormed, Times, Quot, FreeSet, MatchOnPath, OthersKept, Sized, Resize;
    assert cs > 0;
    DivIs(cs, |data|);
    WriteOkIff(v, start, dir, path, cs, WRITE, data);
    WrittenContents(v, start, dir, path, cs, data);
    FailedWrite(v, start, dir, path, cs, data);
    var r := Written(v, start, path, cs, data);
    if r.err == SUCCESS {
      TimesIsProduct(cs, |r.view.files[start]|);
      var s := SlotOf(v.clusters, path, start);
      RestampedAt(v.clusters, r.view.clusters, s, r.view.size);
    }
  }

  /** A read of `n` bytes through the handle delivers `data`. */
  ghost predicate Delivers(w: View, start: nat, cs: nat, n: nat, data: seq<byte>) {
    && cs > 0 && start in w.files && Sized(w.clusters, w.files[start], cs)
    && w.files[start] != [] && w.cluster == w.files[start][0]
    && var c := Cursor(w.position, 0);
       && ReadBase(cs, c) + ReadCount(c, w.size, n) <= Times(cs, |w.files[start]|)
       && ReadBytes(Flat(w.clusters, w.files[start], cs), cs, c, w.size, n) == data
  }

  /** After a WRITE that succeeds, reading as many bytes gives the buffer back, whatever the file held before, as long as
      the sum of the sizes stays below 2^32. */
  lemma WriteReadsBack(v: View, start: nat, dir: nat, path: seq<nat>, cs: nat, data: seq<byte>)
    requires InDirectory(v, start, dir, path, cs) && Prepared(v, start, path, cs, WRITE, |data|) && HasRecord(v, start, path, cs)
    requires v.size + |data| < 0x1_0000_0000
    ensures var r := WriteResult(v, start, path, cs, WRITE, data); r.err == SUCCESS ==> Delivers(r.view, start, cs, |data|, data)
  {
    hide WriteResult, Flat, Times, Sized, WellFormed, InDirectory, Prepared, HasRecord;
    WriteDoes(v, start, dir, path, cs, data);
    var w := WriteResult(v, start, path, cs, WRITE, data).view;
    if WriteResult(v, start, path, cs, WRITE, data).err == SUCCESS {
      FileChain(w.table, w.files, start);
      TimesZero(cs);
      DivUnique(cs, 0, 0, 0);
      TimesIsProduct(cs, |w.files[start]|);
    }
  }

  // ----- APPEND

  /** Where an APPEND through the handle begins in the file. */
  function Base(v: View, start: nat, cs: nat): nat
    requires cs > 0 && start in v.files
  {
    cs * IndexIn(v.files[start], v.cluster) + v.size % cs
  }

  /** How many bytes it can write: the rest of the handle's cluster and all free clusters. */
  ghost function Space(v: View, cs: nat): nat
    requires cs > 0
  {
    cs - v.size % cs + cs * |FreeSet(v.table)|
  }

  /** The file keeps its first `b` bytes, and `data` follows. */
  ghost predicate Appends(v: View, w: View, start: nat, cs: nat, b: nat, data: seq<byte>) {
    && start in v.files && start in w.files && Sized(v.clusters, v.files[start], cs) && Sized(w.clusters, w.files[start], cs)
    && b <= |Flat(v.clusters, v.files[start], cs)| && b + |data| <= |Flat(w.clusters, w.files[start], cs)|
    && Flat(w.clusters, w.files[start], cs)[..b + |data|] == Flat(v.clusters, v.files[start], cs)[..b] + data
  }

  /** The file's contents after an append from the `k`-th cluster of its chain. */
  lemma AppendContent(t: seq<uint32>, cl: seq<seq<byte>>, ch: seq<nat>, k: nat, cs: nat, size: nat, data: seq<byte>)
    requires Ready(t, cl, ch, cs) && k < |ch| && Standing(t, cl, ch[..k + 1], cs)
    requires AppendBacked(t, cl, ch[..k + 1], cs, size, |data|)
    ensures var r := Append(t, cl, ch[..k + 1], cs, size, data);
            var own, b := ChainAfter(ch, k, r.chain), AppendBase(ch[..k + 1], cs, size);
            && Sized(r.clusters, own, cs) && r.written <= |data|
            && b <= |Flat(cl, ch, cs)| && b + r.written <= |Flat(r.clusters, own, cs)|
            && Flat(r.clusters, own, cs)[..b + r.written] == Flat(cl, ch, cs)[..b] + data[..r.written]
  {
    hide Append, AppendBacked, Flat, Times, Path, Chain, Quot, Rem;
    var way := ch[..k + 1];
    var r := Append(t, cl, way, cs, size, data);
    AppendReads(t, cl, way, cs, size, data);
    SizesKept(t, cl, way, cs, size, data);
    var own, b := ChainAfter(ch, k, r.chain), AppendBase(way, cs, size);
    assert way <= ch && r.chain <= own;
    FlatPrefix(cl, way, ch, cs);
    assert Sized(r.clusters, own, cs);
    FlatPrefix(r.clusters, r.chain, own, cs);
    SamePrefix(Flat(cl, way, cs), Flat(cl, ch, cs), b);
    SamePrefix(Flat(r.clusters, r.chain, cs), Flat(r.clusters, own, cs), b + r.written);
  }

  lemma SamePrefix(a: seq<byte>, s: seq<byte>, n: nat)
    requires a <= s && n <= |a|
    ensures s[..n] == a[..n]
  {
  }

  lemma BaseIs(v: View, start: nat, path: seq<nat>, cs: nat)
    requires Usable(v, start, path, cs) && v.cluster in v.files[start]
    ensures cs > 0 && Base(v, start, cs) == AppendBase(Way(v, start), cs, v.size)
    ensures v.size % cs == Rem(v.size, cs) && Space(v, cs) == cs - Rem(v.size, cs) + Times(cs, |FreeSet(v.table)|)
    ensures Way(v, start) == v.files[start][..|Way(v, start)| - 1 + 1] && |Way(v, start)| <= |v.files[start]|
    ensures Ready(v.table, v.clusters, v.files[start], cs)
  {
    DivIs(cs, v.size);
    TimesIsProduct(cs, IndexIn(v.files[start], v.cluster));
    TimesIsProduct(cs, |FreeSet(v.table)|);
  }

  /** Writing the record back leaves the file's clusters alone. */
  lemma AppendFrame(v: View, start: nat, dir: nat, path: seq<nat>, cs: nat, data: seq<byte>)
    requires InDirectory(v, start, dir, path, cs) && Prepared(v, start, path, cs, APPEND, |data|)
    ensures v.cluster in v.files[start] && Standing(v.table, v.clusters, Way(v, start), cs)
    ensures AppendBacked(v.table, v.clusters, Way(v, start), cs, v.size, |data|)
    ensures var r := Append(v.table, v.clusters, Way(v, start), cs, v.size, data);
            var s, own := SlotOf(v.clusters, path, start), ChainAfter(v.files[start], |Way(v, start)| - 1, r.chain);
            && s.cluster < |r.clusters| == |v.clusters| && r.clusters[s.cluster] == v.clusters[s.cluster]
            && s.cluster !in own && |v.clusters[s.cluster]| % SECTOR == 0 && s.index < Count(v.clusters[s.cluster])
            && Appended(v, start, path, cs, data) == AppendLeaves(v, start, |Way(v, start)| - 1, r, s)
  {
    hide Append, AppendBacked, Standing, Way, SlotOf, Updated, AppendLeaves, Appended, MatchOnPath, FreeSet, AppendOutcome;
    WayStanding(v, start, path, cs);
    var way := Way(v, start);
    AppendedIs(v, start, path, cs, data);
    AppendOutside(v.table, v.clusters, way, cs, v.size, data);
    var r := Append(v.table, v.clusters, way, cs, v.size, data);
    TakenApart(v.table, v.files, start, dir, r.chain);
    SlotApart(v, start, dir, path, cs, v.table, v.files, start);
    assert SlotOf(v.clusters, path, start).cluster in v.files[dir];
  }

  /** The result of an append that leaves `r`, taken apart. */
  lemma LeavesView(v: View, start: nat, cs: nat, k: nat, r: Outcome, s: Slot, b: nat, data: seq<byte>)
    requires start in v.files && k < |v.files[start]| && Sized(v.clusters, v.files[start], cs) && |r.chain| > k
    requires s.cluster < |r.clusters| == |v.clusters| && r.clusters[s.cluster] == v.clusters[s.cluster]
    requires |v.clusters[s.cluster]| % SECTOR == 0 && s.index < Count(v.clusters[s.cluster]) && r.written <= |data|
    requires var own := ChainAfter(v.files[start], k, r.chain);
             && s.cluster !in own && Sized(r.clusters, own, cs)
             && b <= |Flat(v.clusters, v.files[start], cs)| && b + r.written <= |Flat(r.clusters, own, cs)|
             && Flat(r.clusters, own, cs)[..b + r.written] == Flat(v.clusters, v.files[start], cs)[..b] + data[..r.written]
    ensures var q := AppendLeaves(v, start, k, r, s);
            var w := q.view;
            && q.err == (if r.ok then SUCCESS else DISK_FULL)
            && Appends(v, w, start, cs, b, data[..r.written])
            && w.size == (v.size + r.written) % 0x1_0000_0000 && w.position == v.position
            && w.cluster == r.chain[|r.chain| - 1] && w.files == v.files[start := ChainAfter(v.files[start], k, r.chain)]
            && (if r.ok then Restamped(v.clusters, w.clusters, s, w.size)
                else s.cluster < |w.clusters| && w.clusters[s.cluster] == v.clusters[s.cluster])
  {
    hide Flat, Updated, ChainAfter, Restamped;
    var q, own := AppendLeaves(v, start, k, r, s), ChainAfter(v.files[start], k, r.chain);
    FlatFrame(r.clusters, q.view.clusters, own, cs);
    if r.ok { RestampedAt(v.clusters, q.view.clusters, s, q.view.size); }
  }

  /** APPEND from any cluster of the file. It succeeds exactly when the buffer fits into the rest of that cluster and the
      free ones; otherwise what fits is written. The bytes go to the base, the sizes grow by their number, and the handle
      ends on the cluster of the last of them. Only on success is the record rewritten. */
  lemma AppendDoes(v: View, start: nat, dir: nat, path: seq<nat>, cs: nat, data: seq<byte>)
    requires InDirectory(v, start, dir, path, cs) && Prepared(v, start, path, cs, APPEND, |data|) && HasRecord(v, start, path, cs)
    ensures cs > 0
    ensures var r := WriteResult(v, start, path, cs, APPEND, data);
            var w, s, k := r.view, SlotOf(v.clusters, path, start), Min(|data|, Space(v, cs));
            && r.err == (if |data| <= Space(v, cs) then SUCCESS else DISK_FULL)
            && Appends(v, w, start, cs, Base(v, start, cs), data[..k])
            && w.size == (v.size + k) % 0x1_0000_0000 && w.position == v.position
            && (if |data| > cs - v.size % cs && FreeSet(v.table) != {} then
                  && w.files[start] != [] && w.cluster == w.files[start][|w.files[start]| - 1]
                  && cs * (|w.files[start]| - 1) < Base(v, start, cs) + k <= cs * |w.files[start]|
                else w.cluster == v.cluster && w.files == v.files)
            && (if r.err == SUCCESS then Restamped(v.clusters, w.clusters, s, w.size)
                else s.cluster < |w.clusters| && w.clusters[s.cluster] == v.clusters[s.cluster])
  {
    hide Append, AppendBacked, Standing, Way, SlotOf, AppendLeaves, Appended, MatchOnPath, FreeSet, Flat, Sized, Times, Rem, Quot;
    hide Restamped, Appends, Base, Space, InDirectory, Ready, AppendBase;
    AppendFrame(v, start, dir, path, cs, data);
    BaseIs(v, start, path, cs);
    var way, ch := Way(v, start), v.files[start];
    var r, s := Append(v.table, v.clusters, way, cs, v.size, data), SlotOf(v.clusters, path, start);
    AppendAmount(v.table, v.clusters, way, cs, v.size, data);
    AppendContent(v.table, v.clusters, ch, |way| - 1, cs, v.size, data);
    ReadySized(v.table, v.clusters, ch, cs);
    LeavesView(v, start, cs, |way| - 1, r, s, Base(v, start, cs), data);
    WayStanding(v, start, path, cs);
    assert v.files[start := ch] == v.files;
    var w := AppendLeaves(v, start, |way| - 1, r, s).view;
    if |r.chain| > |way| {
      TimesIsProduct(cs, |r.chain|);
      TimesIsProduct(cs, |r.chain| - 1);
    }
  }

  // ----- INSERT

  /** INSERT shifts nothing: it writes the record back with the handle's size and says so. */
  lemma InsertDoes(v: View, start: nat, dir: nat, path: seq<nat>, cs: nat, data: seq<byte>)
    requires InDirectory(v, start, dir, path, cs) && Prepared(v, start, path, cs, INSERT, |data|) && HasRecord(v, start, path, cs)
    ensures var r, s := WriteResult(v, start, path, cs, INSERT, data), SlotOf(v.clusters, path, start);
            && r.err == NOT_IMPLEMENTED && r.view == v.(clusters := r.view.clusters)
            && Restamped(v.clusters, r.view.clusters, s, v.size)
            && forall c :: 0 <= c < |v.clusters| && c != s.cluster ==> r.view.clusters[c] == v.clusters[c]
  {
    hide SlotOf, Updated, WellFormed, Restamped;
    RestampedAt(v.clusters, WriteResult(v, start, path, cs, INSERT, data).view.clusters, SlotOf(v.clusters, path, start), v.size);
  }

  // ----- the record, and reading

  /** The record that a write works on: along the path, the first whose bytes 26, 27, 20 and 21 hold the first cluster. */
  lemma RecordFirst(v: View, start: nat, path: seq<nat>, cs: nat, k: nat, i: nat)
    requires Usable(v, start, path, cs)
    ensures var s := SlotOf(v.clusters, path, start);
            && s.cluster in path && s.index < |v.clusters[s.cluster]| / 32 && Names(v.clusters[s.cluster], s.index) == start
            && (i < s.index ==> Names(v.clusters[s.cluster], i) != start)
            && (k < |path| && (forall j :: 0 <= j <= k ==> path[j] != s.cluster) && i < |v.clusters[path[k]]| / 32 ==>
                  Names(v.clusters[path[k]], i) != start)
  {
    hide MatchFrom, FirstCluster, InDirectory;
    var s := SlotOf(v.clusters, path, start);
    NamesIs(v.clusters[s.cluster], s.index);
    if i < s.index { NamesIs(v.clusters[s.cluster], i); }
    if k < |path| && (forall j :: 0 <= j <= k ==> path[j] != s.cluster) && i < |v.clusters[path[k]]| / 32 {
      var m := MatchOnPath(v.clusters, path, start);
      assert k < m;
      assert !HasMatch(v.clusters[path[k]], start);
      NamesIs(v.clusters[path[k]], i);
    }
  }

  /** The cluster number in record `i` of a directory cluster. */
  function Names(cl: seq<byte>, i: nat): nat
    requires i < |cl| / 32
  {
    var at := 32 * i;
    (cl[at + 26] as int) + 0x100 * (cl[at + 27] as int) + 0x10000 * (cl[at + 20] as int) + 0x1000000 * (cl[at + 21] as int)
  }

  lemma NamesIs(cl: seq<byte>, i: nat)
    requires i < |cl| / 32
    ensures Names(cl, i) == FirstCluster(Record(cl, i))
  {
    var rec, at := Record(cl, i), 32 * i;
    assert rec[20] == cl[at + 20] && rec[21] == cl[at + 21] && rec[26] == cl[at + 26] && rec[27] == cl[at + 27];
  }

  /** The buffer begins with `got` bytes of the file from byte `base` on. */
  ghost predicate Got(flat: seq<byte>, base: nat, buffer: seq<byte>, got: nat) {
    base + got <= |flat| && got <= |buffer| && buffer[..got] == flat[base..base + got]
  }

  ghost predicate Stands(ch: seq<nat>, j: int, cluster: nat) { 0 <= j < |ch| && cluster == ch[j] }

  /** What a read leaves, in numbers: from byte `position % cs` of the cluster stood on it delivers what was asked for, up to
      the recorded size and the end of the chain, and stands on the cluster of the last byte or on the end mark. */
  lemma ReadDoes(t: seq<uint32>, cl: seq<seq<byte>>, ch: seq<nat>, cs: nat, k: nat, position: nat, size: nat, n: nat,
                 buffer: seq<byte>, got: nat, now: nat, cluster: nat)
    requires cs > 0 && k < |ch| && position < size
    requires ReadLeaves(t, cl, ch, cs, Cursor(position, k), size, n, buffer, got, now, cluster)
    ensures var base, want, all := cs * k + position % cs, if n <= size - position then n else size - position, cs * |ch|;
            && Sized(cl, ch, cs) && |Flat(cl, ch, cs)| == all && got == (if base + want <= all then want else all - base)
            && Got(Flat(cl, ch, cs), base, buffer, got) && now == position + got
            && (got == want > 0 ==> Stands(ch, (base + got - 1) / cs, cluster))
            && (got == want == 0 ==> cluster == ch[k])
            && (got < want ==> ch[|ch| - 1] < |t| && cluster == t[ch[|ch| - 1]] % 0x1000_0000 >= 0x0FFF_FFF8)
  {
    hide Flat, Times, Chain, Quot, Rem, Sized;
    DivIs(cs, position);
    TimesIsProduct(cs, k);
    TimesIsProduct(cs, |ch|);
    ReadySized(t, cl, ch, cs);
    var base := ReadBase(cs, Cursor(position, k));
    if got > 0 { DivIs(cs, base + got - 1); }
    ChainLast(t, ch);
  }

  /** Where a seek lands: `p / cs` links from the cluster stood on. */
  lemma SeekDoes(cs: nat, k: nat, position: nat, p: nat)
    requires cs > 0
    ensures AfterSeek(cs, Cursor(position, k), p) == if p == 0 then Cursor(0, 0) else Cursor(p, k + p / cs)
  {
    DivIs(cs, p);
  }

  lemma ChainLast(t: seq<uint32>, ch: seq<nat>)
    requires Chain(t, ch)
    ensures ch[|ch| - 1] < |t|
  {
  }
}
