/** The FAT32 file operations: write, read and seek through a file handle. */
module Fat32Files {
  import opened Bytes
  import opened Disks
  import opened Layout
  import opened Chains
  import opened Content
  import opened Records
  import opened FileSpec
  import opened Volumes
  import opened FileErrors

  datatype WriteMode = WRITE | APPEND | INSERT

  const WRAP: nat := 0x1_0000_0000

  class FileHandle {
    var cluster: nat
    var startCluster: nat
    var parentCluster: nat
    var position: nat
    var size: uint32
    var valid: bool

    constructor ()
      ensures !valid && cluster == 0 && position == 0 && size == 0
    {
      cluster, startCluster, parentCluster, position, size, valid := 0, 0, 0, 0, 0, false;
    }
  }

  /** Sizes live in 32 bits. */
  function AddSize(a: uint32, b: nat): uint32 { (a + b) % WRAP }

  lemma AddSizeTwice(a: uint32, b: nat, c: nat)
    ensures AddSize(AddSize(a, b), c) == AddSize(a, b + c)
  {
  }

  lemma AddSizeNothing(a: uint32)
    ensures AddSize(a, 0) == a
  {
  }

  lemma SameSizeIff(was: uint32, n: uint32)
    ensures AddSize(was, n) == n <==> was == 0
  {
  }

  // ----- the appending loop, on values

  /** `ch` has been extended by the first `j` clusters of `added`, and `w` bytes of the buffer are in place.
      `z` is the growth this ends with, `data` the part of the buffer that fits, `goal` the final clusters. */
  ghost predicate Progress(t: seq<uint32>, cl: seq<seq<byte>>, now: seq<nat>, need: nat, z: Resized, added: seq<nat>, cs: nat,
                           buffer: seq<byte>, data: seq<byte>, j: nat, w: nat, goal: seq<seq<byte>>) {
    && Standing(t, cl, now, cs) && Sized(cl, added, cs) && |t| == |z.table|
    && j <= |added| && now + added[j..] == z.chain
    && |data| == Min(|buffer|, Times(cs, |added|)) && data == buffer[..|data|]
    && w <= |data| && |data| - w <= Times(cs, |added| - j)
    && (w < |buffer| ==> w == Times(cs, j))
    && need == |now| + Extra(|buffer| - w, cs) && Grow(t, now, need) == z
    && FillRest(cl, added, cs, data, j, w) == goal
  }

  lemma ProgressStart(t: seq<uint32>, cl: seq<seq<byte>>, ch: seq<nat>, need: nat, z: Resized, added: seq<nat>, cs: nat,
                      buffer: seq<byte>, data: seq<byte>)
    requires Standing(t, cl, ch, cs) && Sized(cl, added, cs) && |t| == |z.table| && ch + added == z.chain
    requires |data| == Min(|buffer|, Times(cs, |added|)) && data == buffer[..|data|]
    requires need == |ch| + Extra(|buffer|, cs) && Grow(t, ch, need) == z
    ensures Progress(t, cl, ch, need, z, added, cs, buffer, data, 0, 0, Fill(cl, added, cs, data))
  {
    hide Fill, Grow, Overwrite;
    assert added[0..] == added;
    FillEnds(cl, added, cs, data);
  }

  lemma ProgressStep(t: seq<uint32>, u: seq<uint32>, cl: seq<seq<byte>>, now: seq<nat>, need: nat, z: Resized, added: seq<nat>,
                     cs: nat, buffer: seq<byte>, data: seq<byte>, j: nat, w: nat, goal: seq<seq<byte>>, c: nat)
    requires Progress(t, cl, now, need, z, added, cs, buffer, data, j, w, goal) && w < |buffer|
    requires Path(u, now + [c]) && Grow(u, now + [c], need) == z && |u| == |t|
    ensures c < |cl| && |cl[c]| == cs && c in z.chain && j + 1 <= |added|
    ensures var k := Min(cs, |buffer| - w);
            Progress(u, cl[c := Overwrite(cl[c], 0, buffer[w..][..k])], now + [c], need, z, added, cs,
                     buffer, data, j + 1, w + k, goal)
  {
    hide Fill, FillRest, Grow, Overwrite, Extra, Times, Path;
    NextAdded(u, now, added, j, c, need, z);
    var k := Min(cs, |buffer| - w);
    NextPiece(buffer, data, cs, j, |added|, w, k);
    FillStep(cl, added, cs, data, j, w);
    StandingStep(t, u, cl, now, cs, c, Overwrite(cl[c], 0, data[w..w + k]));
    assert z.chain[|now|] == c;
  }

  /** A chunk of the buffer at a cluster boundary lies in the part that fits. */
  lemma NextPiece(buffer: seq<byte>, data: seq<byte>, cs: nat, j: nat, n: nat, w: nat, k: nat)
    requires cs > 0 && j < n && w == Times(cs, j) && w < |buffer| && k == Min(cs, |buffer| - w)
    requires |data| == Min(|buffer|, Times(cs, n)) && data == buffer[..|data|]
    ensures w + k <= |data| && k == Min(cs, |data| - w)
    ensures buffer[w..][..k] == data[w..w + k]
    ensures w + k < |buffer| ==> w + k == Times(cs, j + 1)
    ensures Extra(|buffer| - w, cs) == 1 + Extra(|buffer| - (w + k), cs)
  {
    TimesMono(cs, j + 1, n);
    assert Times(cs, j + 1) == cs + Times(cs, j);
    hide Times, Extra;
    ExtraStep(|buffer| - w, cs);
    assert w + k <= |data|;
    PieceSlice(buffer, data, w, k);
  }

  lemma PieceSlice(buffer: seq<byte>, data: seq<byte>, w: nat, k: nat)
    requires data <= buffer && w + k <= |data|
    ensures buffer[w..][..k] == data[w..w + k]
  {
    assert buffer[w..][..k] == buffer[w..w + k];
  }

  lemma StandingStep(t: seq<uint32>, u: seq<uint32>, cl: seq<seq<byte>>, now: seq<nat>, cs: nat, c: nat, x: seq<byte>)
    requires Standing(t, cl, now, cs) && Path(u, now + [c]) && |u| == |t| && c < |t| && |x| == cs
    ensures Standing(u, cl[c := x], now + [c], cs)
  {
  }

  /** The cluster just added is the next one of the chain the growth ends with. */
  lemma NextAdded(u: seq<uint32>, now: seq<nat>, added: seq<nat>, j: nat, c: nat, need: nat, z: Resized)
    requires Path(u, now + [c]) && Grow(u, now + [c], need) == z
    requires j <= |added| && now + added[j..] == z.chain
    ensures j < |added| && added[j] == c && now + [c] + added[j + 1..] == z.chain
  {
    GrowIsChain(u, now + [c], need);
    assert (now + [c])[|now|] == c == z.chain[|now|];
    assert j < |added| && added[j..][0] == c;
    assert [c] + added[j + 1..] == added[j..];
  }

  lemma ProgressNeeds(t: seq<uint32>, cl: seq<seq<byte>>, now: seq<nat>, need: nat, z: Resized, added: seq<nat>, cs: nat,
                      buffer: seq<byte>, data: seq<byte>, j: nat, w: nat, goal: seq<seq<byte>>)
    requires Progress(t, cl, now, need, z, added, cs, buffer, data, j, w, goal) && w < |buffer|
    ensures Path(t, now) && |now| < need && Grow(t, now, need) == z
    ensures now <= z.chain
  {
    hide Fill, FillRest, Grow, Overwrite, Extra;
    ExtraStep(|buffer| - w, cs);
  }

  lemma ProgressFull(t: seq<uint32>, cl: seq<seq<byte>>, now: seq<nat>, need: nat, z: Resized, added: seq<nat>, cs: nat,
                     buffer: seq<byte>, data: seq<byte>, j: nat, w: nat, goal: seq<seq<byte>>)
    requires Progress(t, cl, now, need, z, added, cs, buffer, data, j, w, goal)
    requires z == Resized(t, now, false)
    ensures cl == goal && w == |data|
  {
    hide Fill, FillRest, Grow, Overwrite, Extra;
    assert |now + added[j..]| == |now|;
    FillEnds(cl, added, cs, data);
  }

  lemma ProgressDone(t: seq<uint32>, cl: seq<seq<byte>>, now: seq<nat>, need: nat, z: Resized, added: seq<nat>, cs: nat,
                     buffer: seq<byte>, data: seq<byte>, j: nat, w: nat, goal: seq<seq<byte>>)
    requires Progress(t, cl, now, need, z, added, cs, buffer, data, j, w, goal) && w == |buffer|
    ensures z == Resized(t, now, true) && cl == goal && w == |data|
  {
    hide Fill, FillRest, Grow, Overwrite, Extra;
    ExtraStep(0, cs);
    GrowAlready(t, now, need);
    FillEnds(cl, added, cs, data);
  }

  // ----- what Write does, on values

  /** Everything a write can change: the volume, and the handle's size, cluster and position. */
  datatype View = View(table: seq<uint32>, clusters: seq<seq<byte>>, files: Files, size: uint32, cluster: nat, position: nat)

  datatype Result = Result(err: FSError, view: View)

  /** The file `start` has a sound chain, and the directory path holds a record naming it. */
  ghost predicate Usable(v: View, start: nat, path: seq<nat>, cs: nat) {
    && start in v.files && Ready(v.table, v.clusters, v.files[start], cs)
    && (forall i :: 0 <= i < |path| ==> path[i] < |v.clusters| && |v.clusters[path[i]]| == cs)
    && MatchOnPath(v.clusters, path, start) < |path|
  }

  /** The file's clusters up to the one the handle stands on. */
  ghost function Way(v: View, start: nat): (ch: seq<nat>)
    requires start in v.files && v.cluster in v.files[start]
    ensures |ch| > 0 && ch <= v.files[start]
  {
    v.files[start][..IndexIn(v.files[start], v.cluster) + 1]
  }

  lemma WayStanding(v: View, start: nat, path: seq<nat>, cs: nat)
    requires Usable(v, start, path, cs) && v.cluster in v.files[start]
    ensures Standing(v.table, v.clusters, Way(v, start), cs) && Path(v.table, Way(v, start))
    ensures Way(v, start)[|Way(v, start)| - 1] == v.cluster
  {
    PrefixStanding(v.table, v.clusters, v.files[start], IndexIn(v.files[start], v.cluster), cs);
  }

  /** The clusters a write goes to have sectors; an APPEND starts from a cluster of the file. */
  ghost predicate Backed(v: View, start: nat, path: seq<nat>, cs: nat, mode: WriteMode, n: nat)
    requires Usable(v, start, path, cs)
  {
    match mode
    case WRITE => WriteBacked(v.table, v.clusters, v.files[start], cs, n)
    case APPEND =>
      v.cluster in v.files[start] &&
      (WayStanding(v, start, path, cs);
       AppendBacked(v.table, v.clusters, Way(v, start), cs, v.size, n))
    case INSERT => true
  }

  /** A write of `n` bytes can be told from the state before. */
  ghost predicate Prepared(v: View, start: nat, path: seq<nat>, cs: nat, mode: WriteMode, n: nat) {
    Usable(v, start, path, cs) && Backed(v, start, path, cs, mode, n)
  }

  /** `cl` with the record that `v` holds for the file written back with a new size. */
  ghost function RecordUpdated(cl: seq<seq<byte>>, v: View, start: nat, path: seq<nat>, cs: nat, size: uint32): (r: seq<seq<byte>>)
    requires Usable(v, start, path, cs) && |cl| == |v.clusters|
    ensures |r| == |cl|
  {
    var s := SlotOf(v.clusters, path, start);
    cl[s.cluster := Updated(v.clusters[s.cluster], s.index, size)]
  }

  ghost function Written(v: View, start: nat, path: seq<nat>, cs: nat, data: seq<byte>): Result
    requires Prepared(v, start, path, cs, WRITE, |data|)
  {
    var r := Replace(v.table, v.clusters, v.files[start], cs, data);
    var size := AddSize(v.size, |data|);
    if r.ok then
      Result(SUCCESS, View(r.table, RecordUpdated(r.clusters, v, start, path, cs, size), v.files[start := r.chain], size, start, 0))
    else
      Result(DISK_FULL, v.(table := r.table, files := v.files[start := r.chain]))
  }

  /** The append proper, from the cluster the handle stands on. */
  ghost function AppendOutcome(v: View, start: nat, path: seq<nat>, cs: nat, data: seq<byte>): (r: Outcome)
    requires Prepared(v, start, path, cs, APPEND, |data|)
    ensures Way(v, start) <= r.chain && |r.clusters| == |v.clusters|
  {
    WayStanding(v, start, path, cs);
    Append(v.table, v.clusters, Way(v, start), cs, v.size, data)
  }

  ghost function Appended(v: View, start: nat, path: seq<nat>, cs: nat, data: seq<byte>): Result
    requires Prepared(v, start, path, cs, APPEND, |data|)
  {
    var r := AppendOutcome(v, start, path, cs, data);
    var size := AddSize(v.size, r.written);
    var clusters := if r.ok then RecordUpdated(r.clusters, v, start, path, cs, size) else r.clusters;
    var chain := ChainAfter(v.files[start], |Way(v, start)| - 1, r.chain);
    Result(if r.ok then SUCCESS else DISK_FULL,
           View(r.table, clusters, v.files[start := chain], size, r.chain[|r.chain| - 1], v.position))
  }

  /** The result when the append proper leaves `r`, from index `k` of the chain, with the record at `s`. */
  ghost function AppendLeaves(v: View, start: nat, k: nat, r: Outcome, s: Slot): Result
    requires start in v.files && r.chain != [] && s.cluster < |v.clusters| == |r.clusters|
    requires s.index < Count(v.clusters[s.cluster]) && |v.clusters[s.cluster]| % SECTOR == 0
  {
    var size := AddSize(v.size, r.written);
    var clusters := if r.ok then r.clusters[s.cluster := Updated(v.clusters[s.cluster], s.index, size)] else r.clusters;
    Result(if r.ok then SUCCESS else DISK_FULL,
           View(r.table, clusters, v.files[start := ChainAfter(v.files[start], k, r.chain)], size, r.chain[|r.chain| - 1], v.position))
  }

  lemma AppendedIs(v: View, start: nat, path: seq<nat>, cs: nat, data: seq<byte>)
    requires Prepared(v, start, path, cs, APPEND, |data|)
    ensures var r, s := AppendOutcome(v, start, path, cs, data), SlotOf(v.clusters, path, start);
            && Standing(v.table, v.clusters, Way(v, start), cs) && AppendBacked(v.table, v.clusters, Way(v, start), cs, v.size, |data|)
            && r == Append(v.table, v.clusters, Way(v, start), cs, v.size, data)
            && |v.clusters[s.cluster]| % SECTOR == 0
            && Appended(v, start, path, cs, data) == AppendLeaves(v, start, |Way(v, start)| - 1, r, s)
  {
    hide Append, Updated, SlotOf, Way;
    WayStanding(v, start, path, cs);
  }

  /** Write by mode; a record whose first byte marks the end of the directory counts as not found. */
  ghost function WriteResult(v: View, start: nat, path: seq<nat>, cs: nat, mode: WriteMode, data: seq<byte>): Result
    requires Prepared(v, start, path, cs, mode, |data|)
  {
    var s := SlotOf(v.clusters, path, start);
    if Record(v.clusters[s.cluster], s.index)[0] == 0 then Result(NOT_FOUND, v)
    else match mode
      case WRITE => Written(v, start, path, cs, data)
      case APPEND => Appended(v, start, path, cs, data)
      case INSERT => Result(NOT_IMPLEMENTED, v.(clusters := RecordUpdated(v.clusters, v, start, path, cs, v.size)))
  }

  // ----- what a write leaves on the volume

  /** The volume is sound and the directory path lies in another chain than the file's. */
  ghost predicate InDirectory(v: View, start: nat, dir: nat, path: seq<nat>, cs: nat) {
    && Usable(v, start, path, cs) && WellFormed(v.table, v.files)
    && dir in v.files && dir != start && forall c :: c in path ==> c in v.files[dir]
  }

  /** The handle stands on the file's last cluster. */
  ghost predicate AtTail(v: View, start: nat) {
    start in v.files && v.files[start] != [] && v.cluster == v.files[start][|v.files[start]| - 1]
  }

  lemma TailWay(v: View, start: nat, path: seq<nat>, cs: nat)
    requires Usable(v, start, path, cs) && AtTail(v, start)
    ensures v.cluster in v.files[start] && Way(v, start) == v.files[start]
    ensures Standing(v.table, v.clusters, v.files[start], cs) && Path(v.table, v.files[start])
  {
    var ch := v.files[start];
    ChainDistinct(v.table, ch);
    IndexInIs(ch, |ch| - 1);
    WayStanding(v, start, path, cs);
  }

  /** Standing on the last cluster means standing at the last index. */
  lemma AtTailLast(v: View, start: nat)
    requires start in v.files && v.cluster in v.files[start] && Chain(v.table, v.files[start])
    ensures AtTail(v, start) <==> |Way(v, start)| == |v.files[start]|
  {
    var ch := v.files[start];
    ChainDistinct(v.table, ch);
    IndexInIs(ch, |ch| - 1);
  }

  /** An APPEND keeps a sound volume sound exactly when the handle stands on the file's last cluster, or no cluster is
      needed behind the handle's, or none is free. In the last two cases the chains stay as they are. */
  lemma AppendedSoundIff(v: View, start: nat, path: seq<nat>, cs: nat, data: seq<byte>)
    requires Prepared(v, start, path, cs, APPEND, |data|) && WellFormed(v.table, v.files)
    ensures var w := Appended(v, start, path, cs, data).view;
            && (WellFormed(w.table, w.files) <==> AtTail(v, start) || !Links(v.table, cs, v.size, |data|))
            && (!Links(v.table, cs, v.size, |data|) ==> w.files == v.files && w.table == v.table)
  {
    hide Append, Updated, SlotOf, AddSize, WellFormed, Standing, AppendBacked, AppendOutcome, Links, Lost, AtTail, Appended;
    WayStanding(v, start, path, cs);
    AppendedIs(v, start, path, cs, data);
    var ch, way := v.files[start], Way(v, start);
    var r := Append(v.table, v.clusters, way, cs, v.size, data);
    assert way == ch[..|way| - 1 + 1];
    AppendSoundIff(v.table, v.files, start, |way| - 1, v.clusters, cs, v.size, data);
    AtTailLast(v, start);
    if !Links(v.table, cs, v.size, |data|) {
      NothingLinked(v.table, v.clusters, way, cs, v.size, data);
      assert v.files[start := ch] == v.files;
    }
  }

  lemma NothingLinked(t: seq<uint32>, cl: seq<seq<byte>>, ch: seq<nat>, cs: nat, size: nat, data: seq<byte>)
    requires Standing(t, cl, ch, cs) && AppendBacked(t, cl, ch, cs, size, |data|) && !Links(t, cs, size, |data|)
    ensures var r := Append(t, cl, ch, cs, size, data); |r.chain| == |ch| && r.table == t
  {
    hide Append, AppendBacked, Standing, Links, Grow, Path, AppendNeeds;
    StandingPath(t, cl, ch, cs);
    LinkedIff(t, cl, ch, cs, size, data);
    AppendShape(t, cl, ch, cs, size, data);
    UnchangedTable(t, ch, |ch| + AppendNeeds(size, |data|, cs));
  }

  /** The record's cluster belongs to the directory, so to no other chain. */
  lemma SlotApart(v: View, start: nat, dir: nat, path: seq<nat>, cs: nat, t: seq<uint32>, fs: Files, f: nat)
    requires InDirectory(v, start, dir, path, cs) && WellFormed(t, fs)
    requires dir in fs && fs[dir] == v.files[dir] && f in fs && f != dir
    ensures SlotOf(v.clusters, path, start).cluster !in fs[f]
  {
    hide Sound, RestFree, SlotOf;
    var c := SlotOf(v.clusters, path, start).cluster;
    assert c in path && c in fs[dir];
    assert Apart(fs[dir], fs[f]);
  }

  /** WRITE succeeds exactly when enough clusters are free, and so does APPEND from the last cluster. */
  lemma WriteOkIff(v: View, start: nat, dir: nat, path: seq<nat>, cs: nat, mode: WriteMode, data: seq<byte>)
    requires InDirectory(v, start, dir, path, cs) && Prepared(v, start, path, cs, mode, |data|)
    ensures mode == WRITE ==>
              (Written(v, start, path, cs, data).err == SUCCESS <==> Needed(|data|, cs) <= |v.files[start]| + |FreeSet(v.table)|)
    ensures mode == APPEND && AtTail(v, start) ==>
              (Appended(v, start, path, cs, data).err == SUCCESS <==> AppendNeeds(v.size, |data|, cs) <= |FreeSet(v.table)|)
  {
    hide Replace, Append, Updated, SlotOf, AddSize, WellFormed, AppendNeeds, Way, Flat;
    if mode == WRITE {
      ReplaceKeeps(v.table, v.files, start, v.clusters, cs, data);
    } else if mode == APPEND && AtTail(v, start) {
      TailWay(v, start, path, cs);
      AppendKeeps(v.table, v.files, start, v.clusters, cs, v.size, data);
    }
  }

  /** Every file but `start` and the directory reads as before. */
  ghost predicate OthersKept(v: View, w: View, start: nat, dir: nat, cs: nat) {
    forall f {:trigger v.files[f]} :: f in v.files && f != start && f != dir ==>
      && f in w.files && w.files[f] == v.files[f]
      && (Sized(v.clusters, v.files[f], cs) ==>
            Sized(w.clusters, v.files[f], cs) && Flat(w.clusters, v.files[f], cs) == Flat(v.clusters, v.files[f], cs))
  }

  /** A complete WRITE on a sound volume: the volume stays sound, the file reads as the buffer, and
      every file and directory but the written one and its directory reads as before. */
  lemma WrittenContents(v: View, start: nat, dir: nat, path: seq<nat>, cs: nat, data: seq<byte>)
    requires InDirectory(v, start, dir, path, cs) && Prepared(v, start, path, cs, WRITE, |data|)
    ensures Written(v, start, path, cs, data).err == SUCCESS ==>
            var w := Written(v, start, path, cs, data).view;
            && WellFormed(w.table, w.files) && Ready(w.table, w.clusters, w.files[start], cs)
            && |w.files[start]| == Quot(|data|, cs) + 1 && |data| <= Times(cs, |w.files[start]|)
            && Flat(w.clusters, w.files[start], cs)[..|data|] == data
            && OthersKept(v, w, start, dir, cs)
  {
    hide Replace, Updated, SlotOf, AddSize, Flat, WellFormed;
    var r, w := Replace(v.table, v.clusters, v.files[start], cs, data), Written(v, start, path, cs, data).view;
    ReplaceKeeps(v.table, v.files, start, v.clusters, cs, data);
    if !r.ok { return; }
    ReplaceReads(v.table, v.clusters, v.files[start], cs, data);
    SlotApart(v, start, dir, path, cs, w.table, w.files, start);
    FlatFrame(r.clusters, w.clusters, r.chain, cs);
    forall f | f in v.files && f != start && f != dir && Sized(v.clusters, v.files[f], cs)
      ensures Sized(w.clusters, v.files[f], cs) && Flat(w.clusters, v.files[f], cs) == Flat(v.clusters, v.files[f], cs)
    {
      SlotApart(v, start, dir, path, cs, w.table, w.files, f);
      FlatFrame(r.clusters, w.clusters, v.files[f], cs);
    }
  }

  /** A complete APPEND from the last cluster of a tail-ready file: the old contents followed by the buffer, all
      else as before. */
  lemma AppendedContents(v: View, start: nat, dir: nat, path: seq<nat>, cs: nat, data: seq<byte>)
    requires InDirectory(v, start, dir, path, cs) && Prepared(v, start, path, cs, APPEND, |data|)
    requires AtTail(v, start) && TailReady(v.files[start], cs, v.size)
    ensures Appended(v, start, path, cs, data).err == SUCCESS ==>
            var w := Appended(v, start, path, cs, data).view;
            && WellFormed(w.table, w.files) && Ready(w.table, w.clusters, w.files[start], cs)
            && v.size <= Times(cs, |v.files[start]|) && v.size + |data| <= Times(cs, |w.files[start]|)
            && Flat(w.clusters, w.files[start], cs)[..v.size + |data|] == Flat(v.clusters, v.files[start], cs)[..v.size] + data
            && OthersKept(v, w, start, dir, cs)
  {
    hide Append, Updated, SlotOf, AddSize, Flat, WellFormed, Way, TailReady;
    TailWay(v, start, path, cs);
    var r, w := Append(v.table, v.clusters, v.files[start], cs, v.size, data), Appended(v, start, path, cs, data).view;
    AppendKeeps(v.table, v.files, start, v.clusters, cs, v.size, data);
    if !r.ok { return; }
    AppendReads(v.table, v.clusters, v.files[start], cs, v.size, data);
    AppendExtends(v.table, v.clusters, v.files[start], cs, v.size, data);
    assert data[..|data|] == data;
    SameChain(v.files[start], r.chain);
    FileChain(w.table, w.files, start);
    SlotApart(v, start, dir, path, cs, w.table, w.files, start);
    FlatFrame(r.clusters, w.clusters, r.chain, cs);
    forall f | f in v.files && f != start && f != dir && Sized(v.clusters, v.files[f], cs)
      ensures Sized(w.clusters, v.files[f], cs) && Flat(w.clusters, v.files[f], cs) == Flat(v.clusters, v.files[f], cs)
    {
      SlotApart(v, start, dir, path, cs, w.table, w.files, f);
      FlatFrame(r.clusters, w.clusters, v.files[f], cs);
    }
  }

  /** A WRITE that runs out of space changes no byte, so neither the file nor its record; the clusters it took stay
      linked behind the file's. */
  lemma FailedWrite(v: View, start: nat, dir: nat, path: seq<nat>, cs: nat, data: seq<byte>)
    requires InDirectory(v, start, dir, path, cs) && Prepared(v, start, path, cs, WRITE, |data|)
    ensures Written(v, start, path, cs, data).err == DISK_FULL ==>
            var w := Written(v, start, path, cs, data).view;
            && WellFormed(w.table, w.files) && FreeSet(w.table) == {} && |w.table| == |v.table|
            && w.clusters == v.clusters && w.size == v.size && w.cluster == v.cluster && w.position == v.position
            && v.files[start] <= w.files[start] && |v.files[start]| + |FreeSet(v.table)| == |w.files[start]|
            && (Sized(v.clusters, w.files[start], cs) ==>
                  Flat(v.clusters, v.files[start], cs) <= Flat(v.clusters, w.files[start], cs))
            && OthersKept(v, w, start, dir, cs)
            && forall c :: c in v.files[dir] && c < |v.table| ==> w.table[c] == v.table[c]
  {
    hide Updated, SlotOf, Flat, WellFormed, Resize, RestFree;
    var ch, z := v.files[start], Resize(v.table, v.files[start], Needed(|data|, cs));
    if z.ok { return; }
    ResizeCorrect(v.table, v.files, start, Needed(|data|, cs));
    DirectoryApart(v, start, dir, path, cs, z.table, z.chain, data);
    assert z.chain == ch + z.chain[|ch|..];
    if Sized(v.clusters, z.chain, cs) {
      FlatPrefix(v.clusters, ch, z.chain, cs);
    }
  }

  lemma FlatPrefix(cl: seq<seq<byte>>, a: seq<nat>, b: seq<nat>, cs: nat)
    requires Sized(cl, b, cs) && a <= b
    ensures Sized(cl, a, cs) && Flat(cl, a, cs) <= Flat(cl, b, cs)
  {
    assert b == a + b[|a|..];
    FlatAppend(cl, a, b[|a|..], cs);
  }

  /** An APPEND that runs out of space keeps the file's old bytes and its record with the old size, although the
      handle's size has grown by what was written. */
  lemma FailedAppend(v: View, start: nat, dir: nat, path: seq<nat>, cs: nat, data: seq<byte>)
    requires InDirectory(v, start, dir, path, cs) && Prepared(v, start, path, cs, APPEND, |data|)
    requires AtTail(v, start) && TailReady(v.files[start], cs, v.size)
    ensures Appended(v, start, path, cs, data).err == DISK_FULL ==>
            var w, s := Appended(v, start, path, cs, data).view, SlotOf(v.clusters, path, start);
            && WellFormed(w.table, w.files) && FreeSet(w.table) == {} && |w.table| == |v.table|
            && Ready(w.table, w.clusters, w.files[start], cs)
            && v.size <= Times(cs, |v.files[start]|) <= Times(cs, |w.files[start]|)
            && Flat(w.clusters, w.files[start], cs)[..v.size] == Flat(v.clusters, v.files[start], cs)[..v.size]
            && w.clusters[s.cluster] == v.clusters[s.cluster]
            && (v.size + |data| < WRAP ==> w.size > v.size)
            && OthersKept(v, w, start, dir, cs) && dir in w.files && w.files[dir] == v.files[dir]
            && (forall c :: 0 <= c < |v.clusters| ==> |w.clusters[c]| == |v.clusters[c]|)
            && forall c :: c in v.files[dir] && c < |v.table| ==> w.table[c] == v.table[c] && w.clusters[c] == v.clusters[c]
  {
    hide Append, Updated, SlotOf, AddSize, Flat, WellFormed, Way, TailReady, FreeSet, Times;
    TailWay(v, start, path, cs);
    var ch := v.files[start];
    var r, w := Append(v.table, v.clusters, ch, cs, v.size, data), Appended(v, start, path, cs, data).view;
    if r.ok { return; }
    SameChain(ch, r.chain);
    assert w.clusters == r.clusters && w.files == v.files[start := r.chain] && w.table == r.table;
    AppendKeeps(v.table, v.files, start, v.clusters, cs, v.size, data);
    KeptOf(v, w, start, dir, cs);
    AppendOutside(v.table, v.clusters, ch, cs, v.size, data);
    SizesKept(v.table, v.clusters, ch, cs, v.size, data);
    TakenApart(v.table, v.files, start, dir, r.chain);
    hide OthersKept, Sized;
    FailedContents(v.table, v.clusters, ch, cs, v.size, data);
    SlotOnDirectory(v, start, dir, path, cs);
    FileChain(w.table, w.files, start);
    FileChain(v.table, v.files, dir);
    assert w.size == AddSize(v.size, r.written);
    PartAdded(v.size, r.written, |data|);
  }

  lemma KeptOf(v: View, w: View, start: nat, dir: nat, cs: nat)
    requires start in v.files && dir in v.files && start in w.files && w.files == v.files[start := w.files[start]]
    requires forall f :: f in v.files && f != start && Sized(v.clusters, v.files[f], cs) ==>
               Sized(w.clusters, v.files[f], cs) && Flat(w.clusters, v.files[f], cs) == Flat(v.clusters, v.files[f], cs)
    ensures OthersKept(v, w, start, dir, cs)
  {
    hide Flat, Sized;
  }

  lemma PartAdded(size: uint32, written: nat, n: nat)
    requires written <= n
    ensures size + n < WRAP ==> AddSize(size, written) == size + written
  {
  }

  lemma SlotOnDirectory(v: View, start: nat, dir: nat, path: seq<nat>, cs: nat)
    requires InDirectory(v, start, dir, path, cs)
    ensures var c := SlotOf(v.clusters, path, start).cluster; c in v.files[dir] && c < |v.clusters|
  {
    hide SlotOf;
  }

  /** What an append from the last cluster keeps when it was cut short. */
  lemma FailedContents(t: seq<uint32>, cl: seq<seq<byte>>, ch: seq<nat>, cs: nat, size: nat, data: seq<byte>)
    requires Standing(t, cl, ch, cs) && Chain(t, ch) && AppendBacked(t, cl, ch, cs, size, |data|) && TailReady(ch, cs, size)
    ensures var r := Append(t, cl, ch, cs, size, data);
            && Ready(r.table, r.clusters, r.chain, cs) && r.written <= |data| && (data != [] ==> r.written > 0)
            && (!r.ok ==> data != [])
            && size <= Times(cs, |ch|) <= Times(cs, |r.chain|)
            && Flat(r.clusters, r.chain, cs)[..size] == Flat(cl, ch, cs)[..size]
  {
    hide Append, Flat, Path, Times, Grow, AppendNeeds;
    var r := Append(t, cl, ch, cs, size, data);
    AppendExtends(t, cl, ch, cs, size, data);
    AppendReads(t, cl, ch, cs, size, data);
    AppendShape(t, cl, ch, cs, size, data);
    ChainIsPath(t, ch);
    GrowIsChain(t, ch, |ch| + AppendNeeds(size, |data|, cs));
    TimesMono(cs, |ch|, |r.chain|);
    if data == [] { AppendWithin(t, cl, ch, cs, size, data); }
    PrefixOfSum(Flat(r.clusters, r.chain, cs), Flat(cl, ch, cs)[..size], data[..r.written], size);
  }

  lemma PrefixOfSum(s: seq<byte>, a: seq<byte>, b: seq<byte>, n: nat)
    requires n + |b| <= |s| && |a| == n && s[..n + |b|] == a + b
    ensures s[..n] == a
  {
    assert s[..n] == s[..n + |b|][..n];
  }

  /** From the last cluster, the file's chain is the grown one. */
  lemma SameChain(ch: seq<nat>, grown: seq<nat>)
    requires ch != [] && ch <= grown
    ensures ChainAfter(ch, |ch| - 1, grown) == grown
  {
  }

  lemma FileChain(t: seq<uint32>, fs: Files, s: nat)
    requires WellFormed(t, fs) && s in fs
    ensures Chain(t, fs[s]) && fs[s][0] == s
  {
  }

  /** In the directory, only the file's record was written back, with the new size. */
  ghost predicate DirectoryLeft(v: View, w: View, start: nat, dir: nat, path: seq<nat>, cs: nat) {
    && InDirectory(v, start, dir, path, cs)
    && |w.table| == |v.table| && |w.clusters| == |v.clusters| && dir in w.files && w.files[dir] == v.files[dir]
    && (forall c :: 0 <= c < |v.clusters| ==> |w.clusters[c]| == |v.clusters[c]|)
    && (forall c :: c in v.files[dir] ==> c < |v.table| && c < |v.clusters| && w.table[c] == v.table[c])
    && var s := SlotOf(v.clusters, path, start);
       forall c :: c in v.files[dir] ==>
         w.clusters[c] == if c == s.cluster then Updated(v.clusters[c], s.index, w.size) else v.clusters[c]
  }

  /** What leaves the directory's clusters and entries alone and then writes the record back. */
  lemma RecordWritten(v: View, start: nat, dir: nat, path: seq<nat>, cs: nat, t: seq<uint32>, cl: seq<seq<byte>>, fs: Files,
                      w: View)
    requires InDirectory(v, start, dir, path, cs)
    requires |t| == |v.table| && |cl| == |v.clusters| && forall c :: 0 <= c < |cl| ==> |cl[c]| == |v.clusters[c]|
    requires forall c :: c in v.files[dir] && c < |v.table| && c < |cl| ==> t[c] == v.table[c] && cl[c] == v.clusters[c]
    requires dir in fs && fs[dir] == v.files[dir]
    requires var s := SlotOf(v.clusters, path, start);
             w.table == t && w.files == fs && w.clusters == cl[s.cluster := Updated(v.clusters[s.cluster], s.index, w.size)]
    ensures DirectoryLeft(v, w, start, dir, path, cs)
  {
    hide Updated, SlotOf;
    assert Chain(v.table, v.files[dir]);
  }

  lemma WrittenDirectory(v: View, start: nat, dir: nat, path: seq<nat>, cs: nat, data: seq<byte>)
    requires InDirectory(v, start, dir, path, cs) && Prepared(v, start, path, cs, WRITE, |data|)
    ensures Written(v, start, path, cs, data).err == SUCCESS ==>
              DirectoryLeft(v, Written(v, start, path, cs, data).view, start, dir, path, cs)
  {
    hide Updated, SlotOf, AddSize, Resize, InDirectory;
    var r := Replace(v.table, v.clusters, v.files[start], cs, data);
    if r.ok {
      DirectoryApart(v, start, dir, path, cs, r.table, r.chain, data);
      RecordWritten(v, start, dir, path, cs, r.table, r.clusters, v.files[start := r.chain], Written(v, start, path, cs, data).view);
    }
  }

  lemma DirectoryApart(v: View, start: nat, dir: nat, path: seq<nat>, cs: nat, t: seq<uint32>, ch: seq<nat>, data: seq<byte>)
    requires InDirectory(v, start, dir, path, cs)
    requires var z := Resize(v.table, v.files[start], Needed(|data|, cs)); t == z.table && ch == z.chain
    ensures |t| == |v.table| && dir in v.files && dir != start
    ensures forall c :: c in v.files[dir] ==> c !in ch && (c < |t| ==> t[c] == v.table[c])
  {
    hide Resize, FreeSet;
    ResizeCorrect(v.table, v.files, start, Needed(|data|, cs));
    var gs := v.files[start := ch];
    assert Apart(gs[dir], gs[start]) && Apart(v.files[dir], v.files[start]);
  }

  lemma TakenApart(t: seq<uint32>, fs: Files, s: nat, dir: nat, ch: seq<nat>)
    requires WellFormed(t, fs) && s in fs && dir in fs && dir != s
    requires forall c :: c in ch ==> c in fs[s] || c in FreeSet(t)
    ensures Apart(fs[dir], ch)
  {
    assert Apart(fs[dir], fs[s]);
    forall c | c in fs[dir]
      ensures c !in FreeSet(t)
    {
      UsedNotFree(t, fs[dir], c);
    }
  }

  lemma AppendedDirectory(v: View, start: nat, dir: nat, path: seq<nat>, cs: nat, data: seq<byte>)
    requires InDirectory(v, start, dir, path, cs) && Prepared(v, start, path, cs, APPEND, |data|)
    ensures Appended(v, start, path, cs, data).err == SUCCESS ==>
              DirectoryLeft(v, Appended(v, start, path, cs, data).view, start, dir, path, cs)
  {
    hide Updated, SlotOf, AddSize, Append, AppendBacked, Standing, Way, FreeSet, Appended, AppendOutcome;
    var ch := Way(v, start);
    AppendedIs(v, start, path, cs, data);
    var r := Append(v.table, v.clusters, ch, cs, v.size, data);
    AppendOutside(v.table, v.clusters, ch, cs, v.size, data);
    SizesKept(v.table, v.clusters, ch, cs, v.size, data);
    TakenApart(v.table, v.files, start, dir, r.chain);
    if r.ok {
      RecordWritten(v, start, dir, path, cs, r.table, r.clusters,
                    v.files[start := ChainAfter(v.files[start], |ch| - 1, r.chain)], Appended(v, start, path, cs, data).view);
    }
  }

  /** The directory after a complete WRITE: the file's record carries the new size and still names the
      file; the other records of that cluster survive exactly when the rest of the sector was clear. */
  lemma WrittenRecord(v: View, start: nat, dir: nat, path: seq<nat>, cs: nat, data: seq<byte>)
    requires InDirectory(v, start, dir, path, cs) && Prepared(v, start, path, cs, WRITE, |data|)
    ensures Written(v, start, path, cs, data).err == SUCCESS ==>
            var s, w := SlotOf(v.clusters, path, start), Written(v, start, path, cs, data).view;
            var was, now := v.clusters[s.cluster], w.clusters[s.cluster];
            && |now| == |was| == cs
            && FileSize(Record(now, s.index)) == w.size && FirstCluster(Record(now, s.index)) == start
            && ((forall j :: 0 <= j < Count(was) && j != s.index ==> Record(now, j) == Record(was, j)) <==> TailClear(was, s.index))
  {
    hide Replace, AddSize, Updated, TailClear, WellFormed;
    if Written(v, start, path, cs, data).err != SUCCESS { return; }
    var s, w := SlotOf(v.clusters, path, start), Written(v, start, path, cs, data).view;
    UpdatedOwn(v.clusters[s.cluster], s.index, w.size);
    NeighboursKeptIff(v.clusters[s.cluster], s.index, w.size);
    SameCluster(Record(v.clusters[s.cluster], s.index), w.size);
  }

  /** WRITE adds to the size the handle had, so the size it records is the number of bytes in the file exactly when the
      handle showed 0. */
  lemma SizeRightIff(v: View, start: nat, dir: nat, path: seq<nat>, cs: nat, data: seq<byte>)
    requires InDirectory(v, start, dir, path, cs) && Prepared(v, start, path, cs, WRITE, |data|) && |data| < WRAP
    ensures Written(v, start, path, cs, data).err == SUCCESS ==>
            var s, w := SlotOf(v.clusters, path, start), Written(v, start, path, cs, data).view;
            FileSize(Record(w.clusters[s.cluster], s.index)) == |data| <==> v.size == 0
  {
    hide Replace, Updated, SlotOf, AddSize, WellFormed, FileSize;
    WrittenRecord(v, start, dir, path, cs, data);
    SameSizeIff(v.size, |data|);
  }

  /** Writing the 51 bytes of a file of 51 bytes back to it records 102. */
  lemma SizeDoubled(v: View, start: nat, dir: nat, path: seq<nat>, cs: nat, data: seq<byte>)
    requires InDirectory(v, start, dir, path, cs) && Prepared(v, start, path, cs, WRITE, |data|)
    requires v.size == 51 && |data| == 51 && Quot(51, cs) + 1 <= |v.files[start]| + |FreeSet(v.table)|
    ensures var s, r := SlotOf(v.clusters, path, start), Written(v, start, path, cs, data);
            r.err == SUCCESS && FileSize(Record(r.view.clusters[s.cluster], s.index)) == 102
  {
    hide Replace, Updated, SlotOf, WellFormed, FileSize;
    WriteOkIff(v, start, dir, path, cs, WRITE, data);
    WrittenRecord(v, start, dir, path, cs, data);
  }

  /** After a complete WRITE that cut the chain, reading the file from the start to its recorded size asks only for the
      file's clusters exactly when these have as many bytes. */
  lemma CutFileReadIff(v: View, start: nat, path: seq<nat>, cs: nat, data: seq<byte>)
    requires Prepared(v, start, path, cs, WRITE, |data|) && Needed(|data|, cs) < |v.files[start]| && v.files[start][0] == start
    ensures var r := Written(v, start, path, cs, data);
            && r.err == SUCCESS && r.view.files[start] == v.files[start][..Needed(|data|, cs)]
            && ((forall x :: x in Asked(r.view.table, cs, start, 0, r.view.size) ==> x in r.view.files[start])
                <==> r.view.size <= Times(cs, Needed(|data|, cs)))
  {
    hide Asked, SlotOf, Updated, AddSize, Shrink, MatchOnPath, Fill;
    CutReadIff(v.table, v.files[start], Needed(|data|, cs), cs, AddSize(v.size, |data|));
  }

  lemma SameCluster(rec: seq<byte>, size: uint32)
    requires |rec| == RECORD
    ensures FirstCluster(WithSize(rec, size)) == FirstCluster(rec)
  {
  }

  // ----- the reading loop, on values

  /** `n` bytes are delivered and the read stands at byte `b + n` of the chain, in its `j`-th cluster:
      at the right offset while more is wanted, on the cluster of the last byte once done. */
  ghost predicate Reading(cs: nat, len: nat, c: Cursor, total: nat, b: nat, j: nat, p: nat, n: nat)
    requires cs > 0
  {
    && j < len && p == c.position + n && n <= total && b + total <= Times(cs, len)
    && (n < total ==> b + n == Times(cs, j) + Rem(p, cs))
    && (n == total && total > 0 ==> Times(cs, j) < b + total <= Times(cs, j) + cs)
  }

  lemma ReadingStep(cs: nat, len: nat, c: Cursor, total: nat, b: nat, j: nat, p: nat, n: nat, k: nat)
    requires cs > 0 && Reading(cs, len, c, total, b, j, p, n) && n < total
    requires k == Min(total - n, cs - Rem(p, cs))
    ensures 0 < k && Rem(p, cs) + k <= cs
    ensures if Rem(p + k, cs) == 0 && n + k < total then
              j + 1 < len && Reading(cs, len, c, total, b, j + 1, p + k, n + k)
            else Reading(cs, len, c, total, b, j, p + k, n + k)
  {
    DivSplit(cs, p);
    if k == cs - Rem(p, cs) {
      DivUnique(cs, p + k, Quot(p, cs) + 1, 0);
      if len <= j + 1 { TimesMono(cs, len, j + 1); }
    } else {
      DivUnique(cs, p + k, Quot(p, cs), Rem(p, cs) + k);
    }
  }

  lemma ReadingStart(cs: nat, len: nat, c: Cursor, total: nat)
    requires cs > 0 && c.index < len && ReadBase(cs, c) + total <= Times(cs, len)
    ensures total > 0 ==> Reading(cs, len, c, total, ReadBase(cs, c), c.index, c.position, 0)
  {
  }

  lemma ReadingAt(cs: nat, len: nat, c: Cursor, total: nat, b: nat, j: nat, p: nat, n: nat)
    requires cs > 0 && Reading(cs, len, c, total, b, j, p, n)
    ensures n < total ==> b + n == Times(cs, j) + Rem(p, cs)
    ensures p == c.position + n
  {
  }

  lemma ReadingDone(cs: nat, len: nat, c: Cursor, total: nat, j: nat, p: nat, size: nat, n: nat)
    requires cs > 0 && total == ReadCount(c, size, n) && j < len
    requires if total > 0 then Reading(cs, len, c, total, ReadBase(cs, c), j, p, total) else j == c.index && p == c.position
    ensures AfterRead(cs, c, size, n) == Cursor(p, j)
  {
    if total > 0 {
      var b := ReadBase(cs, c);
      DivUnique(cs, b + total - 1, j, b + total - 1 - Times(cs, j));
    }
  }

  /** What a read wants of a cluster, when `total` of the `want` bytes are on the chain: a chain that is too short is read
      to its very end. */
  lemma ReadingPiece(cs: nat, len: nat, c: Cursor, total: nat, want: nat, b: nat, j: nat, p: nat, n: nat)
    requires cs > 0 && Reading(cs, len, c, total, b, j, p, n) && n < total <= want
    requires total < want ==> b + total == Times(cs, len)
    ensures var k := Min(want - n, cs - Rem(p, cs));
            && k == Min(total - n, cs - Rem(p, cs))
            && (n + k == total < want ==> Rem(p + k, cs) == 0 && j + 1 == len)
  {
    TimesMono(cs, j + 1, len);
    DivSplit(cs, p);
    var k := Min(want - n, cs - Rem(p, cs));
    if k == cs - Rem(p, cs) { DivUnique(cs, p + k, Quot(p, cs) + 1, 0); }
    if j + 1 < len { TimesMono(cs, j + 2, len); }
  }

  /** A read that wants `want` bytes, of which `total` are on the chain, has delivered `got` and stands on `cluster`. */
  ghost predicate Underway(t: seq<uint32>, ch: seq<nat>, cs: nat, c: Cursor, total: nat, want: nat, j: nat, p: nat, got: nat,
                           cluster: nat)
    requires cs > 0
  {
    && Chain(t, ch) && j < |ch| && got <= total <= want
    && (total < want ==> ReadBase(cs, c) + total == Times(cs, |ch|) && Next(t, ch[|ch| - 1]) >= READ_END)
    && (if total > 0 then Reading(cs, |ch|, c, total, ReadBase(cs, c), j, p, got) else want == 0 && j == c.index && p == c.position)
    && cluster == if got == total < want then Next(t, ch[|ch| - 1]) else ch[j]
  }

  lemma UnderwayStart(t: seq<uint32>, cl: seq<seq<byte>>, ch: seq<nat>, cs: nat, c: Cursor, size: nat, n: nat, room: nat)
    requires Followed(t, cl, ch, cs, c, size, n, room)
    ensures cs > 0 && c.index < |ch| && Sized(cl, ch, cs) && ReadBase(cs, c) <= Times(cs, |ch|)
    ensures var total := Delivered(cs, c, size, n, |ch|);
            total <= room && Underway(t, ch, cs, c, total, ReadCount(c, size, n), c.index, c.position, 0, ch[c.index])
  {
    hide Times;
    FollowedFacts(t, cl, ch, cs, c, size, n, room);
    ReadingStart(cs, |ch|, c, Delivered(cs, c, size, n, |ch|));
  }

  /** One round of the reading loop. */
  lemma UnderwayStep(t: seq<uint32>, ch: seq<nat>, cs: nat, c: Cursor, total: nat, want: nat, j: nat, p: nat, got: nat,
                     cluster: nat, k: nat)
    requires cs > 0 && Underway(t, ch, cs, c, total, want, j, p, got, cluster) && got < want && cluster < READ_END
    requires k == Min(want - got, cs - Rem(p, cs))
    ensures j < |ch| && cluster == ch[j] < |t| && got + k <= total
    ensures Rem(p, cs) + k <= cs && ReadBase(cs, c) + got == Times(cs, j) + Rem(p, cs)
    ensures var on := Rem(p + k, cs) == 0 && got + k < want;
            Underway(t, ch, cs, c, total, want, if on && j + 1 < |ch| then j + 1 else j, p + k, got + k,
                     if on then Next(t, cluster) else cluster)
  {
    hide Reading, ReadBase, Quot, Rem, Times;
    ReadingPiece(cs, |ch|, c, total, want, ReadBase(cs, c), j, p, got);
    ReadingAt(cs, |ch|, c, total, ReadBase(cs, c), j, p, got);
    ReadingStep(cs, |ch|, c, total, ReadBase(cs, c), j, p, got, k);
  }

  lemma UnderwayOver(t: seq<uint32>, cl: seq<seq<byte>>, ch: seq<nat>, cs: nat, c: Cursor, size: nat, n: nat, j: nat, p: nat,
                     got: nat, cluster: nat, buffer: seq<byte>)
    requires Ready(t, cl, ch, cs) && ReadBase(cs, c) <= Times(cs, |ch|)
    requires var total := Delivered(cs, c, size, n, |ch|);
             Underway(t, ch, cs, c, total, ReadCount(c, size, n), j, p, got, cluster) && got <= total <= |buffer|
    requires got == ReadCount(c, size, n) || cluster >= READ_END
    requires forall i :: 0 <= i < got ==> buffer[i] == Flat(cl, ch, cs)[ReadBase(cs, c) + i]
    ensures ReadLeaves(t, cl, ch, cs, c, size, n, buffer, got, p, cluster)
  {
    hide Reading, ReadBase, Quot, Rem, Times, Flat, AfterRead, ReadLeaves;
    var total := Delivered(cs, c, size, n, |ch|);
    ReadyNext(t, cl, ch, cs, j);
    if total > 0 { ReadingAt(cs, |ch|, c, total, ReadBase(cs, c), j, p, got); }
    if total == ReadCount(c, size, n) { ReadingDone(cs, |ch|, c, total, j, p, size, n); }
    ReadIsOver(t, cl, ch, cs, c, size, n, buffer, got, p, cluster, j);
  }

  class FileStore {
    const vol: Volume
    /** Chains of all files and directories. */
    ghost var files: Files

    ghost predicate Valid()
      reads this, vol, vol.disk
    {
      vol.Valid() && WellFormed(vol.table, files)
    }

    constructor (vol: Volume, ghost files: Files)
      requires vol.Valid() && WellFormed(vol.table, files)
      ensures Valid() && this.vol == vol && this.files == files
    {
      this.vol, this.files := vol, files;
    }

    ghost function CS(): nat { vol.g.ClusterSize() }

    // ----- the walks over the chain

    /** Counts the chain's clusters; reports its last cluster and the last one still needed. */
    method CountClusters(start: nat, needed: nat, ghost ch: seq<nat>) returns (count: nat, lastNeeded: nat, lastValid: nat)
      requires vol.Valid() && Chain(vol.table, ch) && ch[0] == start && needed > 0
      modifies vol`sectorBuf
      ensures vol.Valid() && count == |ch| && lastValid == ch[|ch| - 1]
      ensures needed <= |ch| ==> lastNeeded == ch[needed - 1]
    {
      hide Volume.Valid;
      var curr := start;
      count, lastNeeded, lastValid := 0, 0, 0;
      while !IsEnd(curr)
        invariant vol.Valid() && count <= |ch|
        invariant count < |ch| ==> curr == ch[count]
        invariant count == |ch| ==> IsEnd(curr) && lastValid == ch[|ch| - 1]
        invariant needed <= count ==> lastNeeded == ch[needed - 1]
        decreases |ch| - count
      {
        count := count + 1;
        if count == needed {
          lastNeeded := curr;
        }
        if !IsEnd(curr) {
          lastValid := curr;
        }
        curr := vol.GetNextCluster(curr);
      }
    }

    /** Cuts the chain after `lastNeeded` and frees what follows. */
    method CutChain(lastNeeded: nat, ghost ch: seq<nat>, ghost k: nat)
      requires vol.Valid() && Chain(vol.table, ch) && 0 < k < |ch| && lastNeeded == ch[k - 1]
      modifies vol`sectorBuf, vol`table, vol.disk
      ensures vol.Valid() && vol.table == Shrink(old(vol.table), ch, k)
    {
      hide Volume.Valid;
      ghost var t := vol.table;
      ChainDistinct(t, ch);
      assert Next(t, ch[k - 1]) == ch[k];
      var lastUnneeded := vol.GetNextCluster(lastNeeded);
      vol.UnlinkCluster(lastNeeded, lastUnneeded);
      var del := lastUnneeded;
      ghost var j := k;
      while !IsEnd(del)
        invariant vol.Valid() && k <= j <= |ch| && |vol.table| == |t|
        invariant j < |ch| ==> del == ch[j]
        invariant j == |ch| ==> IsEnd(del)
        invariant forall c :: 0 <= c < |t| ==>
                    vol.table[c] == if c == ch[k - 1] then CUT else if c in ch[k..j] then 0 else t[c]
        decreases |ch| - j
      {
        assert ch[j] !in ch[k..j] && ch[j] != ch[k - 1];
        assert vol.table[ch[j]] == t[ch[j]];
        var next := vol.GetNextCluster(del);
        assert j + 1 < |ch| ==> Next(t, ch[j]) == ch[j + 1];
        vol.DeallocateCluster(del);
        assert ch[k..j + 1] == ch[k..j] + [ch[j]];
        del, j := next, j + 1;
      }
      assert ch[k..j] == ch[k..];
    }

    /** Allocates one cluster and links it behind `curr`; 0 when the disk is full. */
    method AddCluster(curr: nat, ghost now: seq<nat>, ghost need: nat) returns (c: nat)
      requires vol.Valid() && Path(vol.table, now) && curr == now[|now| - 1] && |now| < need
      requires vol.past % ENTRY_MASK != 0 || Grow(vol.table, now, need).ok
      modifies vol`sectorBuf, vol`table, vol`clusters, vol`past, vol.disk
      ensures vol.Valid() && vol.clusters == old(vol.clusters) && vol.past == old(vol.past) && |vol.table| == |old(vol.table)|
      ensures c == 0 ==> vol.table == old(vol.table) && Grow(vol.table, now, need) == Resized(vol.table, now, false)
      ensures c != 0 ==> Chain(vol.table, now + [c]) && Grow(vol.table, now + [c], need) == Grow(old(vol.table), now, need)
    {
      hide Volume.Valid, LowestFree;
      ghost var t := vol.table;
      c := vol.AllocateCluster();
      if c != 0 {
        GrownChain(t, now, c);
        vol.LinkNextCluster(curr, c);
        assert vol.table == Grown(t, curr, c);
      }
    }

    /** Allocates and links `count` clusters behind `last`; stops when the disk is full. */
    method ExtendChain(last: nat, count: nat, ghost ch: seq<nat>) returns (ok: bool)
      requires vol.Valid() && Chain(vol.table, ch) && last == ch[|ch| - 1]
      requires vol.past % ENTRY_MASK != 0 || Grow(vol.table, ch, |ch| + count).ok
      modifies vol`sectorBuf, vol`table, vol`clusters, vol`past, vol.disk
      ensures vol.Valid() && vol.clusters == old(vol.clusters) && vol.past == old(vol.past)
      ensures vol.table == Grow(old(vol.table), ch, |ch| + count).table
      ensures ok == Grow(old(vol.table), ch, |ch| + count).ok
    {
      hide Volume.Valid, LowestFree;
      ghost var need := |ch| + count;
      ghost var now := ch;
      var curr := last;
      ChainIsPath(vol.table, ch);
      for i := 0 to count
        invariant vol.Valid() && vol.clusters == old(vol.clusters) && vol.past == old(vol.past)
        invariant Path(vol.table, now) && curr == now[|now| - 1] && |now| == |ch| + i
        invariant Grow(vol.table, now, need) == Grow(old(vol.table), ch, need)
      {
        var newCluster := AddCluster(curr, now, need);
        if newCluster == 0 {
          return false;
        }
        curr, now := newCluster, now + [newCluster];
        ChainIsPath(vol.table, now);
      }
      ok := true;
    }

    /** Copies the buffer along the chain, one cluster at a time. */
    method CopyOut(h: FileHandle, buffer: seq<byte>, size: nat, ghost ch: seq<nat>)
      requires vol.Valid() && Ready(vol.table, vol.clusters, ch, CS())
      requires h.startCluster == ch[0] && size <= |buffer| && size < Times(CS(), |ch|)
      modifies vol`sectorBuf, vol`clusters, vol`past, vol.disk, h`size
      ensures vol.Valid()
      ensures vol.clusters == Fill(old(vol.clusters), ch, CS(), buffer[..size])
      ensures h.size == AddSize(old(h.size), size)
      ensures vol.g.fatCopies >= 2 || 2 !in ch ==> vol.past == old(vol.past)
    {
      hide Fill, FillRest, Overwrite, AddSize, Volume.Valid;
      var bytesPerCluster := vol.g.ClusterSize();
      var written: nat, rest: nat := 0, size;
      var curr := h.startCluster;
      ghost var j, data := 0, buffer[..size];
      FillEnds(vol.clusters, ch, CS(), data);
      AddSizeNothing(h.size);
      while rest > 0
        invariant written + rest == size && j <= |ch|
        invariant vol.Valid() && Ready(vol.table, vol.clusters, ch, CS())
        invariant rest <= Times(CS(), |ch| - j) && (rest > 0 ==> j < |ch| && curr == ch[j])
        invariant FillRest(vol.clusters, ch, CS(), data, j, written) == Fill(old(vol.clusters), ch, CS(), data)
        invariant h.size == AddSize(old(h.size), written)
        invariant vol.g.fatCopies >= 2 || 2 !in ch ==> vol.past == old(vol.past)
      {
        if IsEnd(curr) {
          // Allocating behind the end of the chain: the chain was sized for the buffer, so never here.
          assert false;
        }
        var bytesToWrite := if bytesPerCluster < rest then bytesPerCluster else rest;
        FillStep(vol.clusters, ch, CS(), data, j, written);
        assert buffer[written..][..bytesToWrite] == data[written..written + bytesToWrite];
        vol.WriteCluster(curr, buffer[written..], 0, bytesToWrite);
        AddSizeTwice(old(h.size), written, bytesToWrite);
        written, rest := written + bytesToWrite, rest - bytesToWrite;
        h.size := AddSize(h.size, bytesToWrite);
        assert j + 1 < |ch| ==> Next(vol.table, ch[j]) == ch[j + 1];
        curr := vol.GetNextCluster(curr);
        j := j + 1;
      }
      FillEnds(vol.clusters, ch, CS(), data);
    }

    /** Cuts or extends the chain of `start` to `needed` clusters. */
    method SizeChain(start: nat, needed: nat, ghost ch: seq<nat>) returns (ok: bool)
      requires vol.Valid() && Chain(vol.table, ch) && ch[0] == start && needed > 0
      requires vol.past % ENTRY_MASK != 0 || Resize(vol.table, ch, needed).ok
      modifies vol`sectorBuf, vol`table, vol`clusters, vol`past, vol.disk
      ensures vol.Valid() && vol.clusters == old(vol.clusters) && vol.past == old(vol.past)
      ensures vol.table == Resize(old(vol.table), ch, needed).table && ok == Resize(old(vol.table), ch, needed).ok
    {
      hide Grow, Shrink, Volume.Valid;
      ChainIsPath(vol.table, ch);
      GrowAlready(vol.table, ch, needed);
      var count, lastNeeded, lastValid := CountClusters(start, needed, ch);
      ok := true;
      if count > needed {
        CutChain(lastNeeded, ch, needed);
      }
      if count < needed {
        ok := ExtendChain(lastValid, needed - count, ch);
      }
    }

    // ----- WRITE and APPEND, without the directory record

    /** WRITE: sizes the chain for the buffer, then copies the buffer along it. */
    method ReplaceContents(h: FileHandle, buffer: seq<byte>, size: uint32) returns (err: FSError)
      requires Valid() && h.startCluster in files && size <= |buffer|
      requires Ready(vol.table, vol.clusters, files[h.startCluster], CS())
      requires WriteBacked(vol.table, vol.clusters, files[h.startCluster], CS(), size)
      requires vol.past % ENTRY_MASK != 0 || Resize(vol.table, files[h.startCluster], Needed(size, CS())).ok
      modifies this`files, vol`sectorBuf, vol`table, vol`clusters, vol`past, vol.disk, h`size, h`cluster, h`position
      ensures Valid()
      ensures var r := Replace(old(vol.table), old(vol.clusters), old(files[h.startCluster]), CS(), buffer[..size]);
              && vol.table == r.table && vol.clusters == r.clusters && files == old(files)[h.startCluster := r.chain]
              && (vol.g.fatCopies >= 2 || 2 !in r.chain ==> vol.past == old(vol.past))
              && if r.ok then err == SUCCESS && h.size == AddSize(old(h.size), size) && h.cluster == h.startCluster && h.position == 0
                 else err == DISK_FULL && h.size == old(h.size) && h.cluster == old(h.cluster) && h.position == old(h.position)
    {
      hide Fill, Resize, Replace, Overwrite, Volume.Valid, AddSize, Times;
      ghost var ch := files[h.startCluster];
      ghost var r := Replace(vol.table, vol.clusters, ch, CS(), buffer[..size]);
      ReplaceSound(vol.table, files, h.startCluster, vol.clusters, CS(), buffer[..size]);
      assert ch[0] == h.startCluster;
      DivIs(CS(), size);
      var ok := SizeChain(h.startCluster, size / vol.g.ClusterSize() + 1, ch);
      files := files[h.startCluster := r.chain];
      if !ok {
        return DISK_FULL;
      }
      CopyOut(h, buffer, size, r.chain);
      h.cluster, h.position := h.startCluster, 0;
      err := SUCCESS;
    }

    /** Extends the chain cluster by cluster and fills each new cluster, until the data or the disk is
        used up; `z` is the growth this ends with and `data` the part of the buffer that fits. */
    method AppendClusters(h: FileHandle, buffer: seq<byte>, size: nat, ghost ch: seq<nat>, ghost added: seq<nat>,
                          ghost z: Resized, ghost data: seq<byte>)
      returns (ok: bool)
      requires vol.Valid() && Standing(vol.table, vol.clusters, ch, CS()) && h.cluster == ch[|ch| - 1]
      requires size == |buffer| && z == Grow(vol.table, ch, |ch| + Extra(size, CS()))
      requires z.ok || (vol.past % ENTRY_MASK != 0 && (vol.g.fatCopies >= 2 || 2 !in z.chain))
      requires Path(z.table, z.chain) && z.chain == ch + added && |z.table| == |vol.table|
      requires Sized(vol.clusters, added, CS()) && |data| <= Times(CS(), |added|)
      requires |data| == Min(size, Times(CS(), |added|)) && data == buffer[..|data|]
      modifies vol`sectorBuf, vol`table, vol`clusters, vol`past, vol.disk, h`size, h`cluster
      ensures vol.Valid() && vol.table == z.table && ok == z.ok
      ensures vol.clusters == Fill(old(vol.clusters), added, CS(), data)
      ensures h.size == AddSize(old(h.size), |data|) && h.cluster == z.chain[|z.chain| - 1]
      ensures vol.g.fatCopies >= 2 || 2 !in z.chain ==> vol.past == old(vol.past)
    {
      hide Fill, Overwrite, AddSize, Volume.Valid, Extra, Grow, Progress;
      var bytesPerCluster := vol.g.ClusterSize();
      var written: nat, rest: nat := 0, size;
      ghost var now, need, j := ch, |ch| + Extra(size, CS()), 0;
      ghost var goal := Fill(vol.clusters, added, CS(), data);
      ProgressStart(vol.table, vol.clusters, ch, need, z, added, CS(), buffer, data);
      AddSizeNothing(h.size);
      while rest > 0
        invariant written + rest == size && j <= |added|
        invariant vol.Valid() && Path(vol.table, now) && h.cluster == now[|now| - 1]
        invariant Progress(vol.table, vol.clusters, now, need, z, added, CS(), buffer, data, j, written, goal)
        invariant h.size == AddSize(old(h.size), written)
        invariant vol.g.fatCopies >= 2 || 2 !in z.chain ==> vol.past == old(vol.past)
      {
        ghost var t := vol.table;
        ProgressNeeds(t, vol.clusters, now, need, z, added, CS(), buffer, data, j, written, goal);
        var newCluster := AddCluster(h.cluster, now, need);
        if newCluster == 0 {
          ProgressFull(vol.table, vol.clusters, now, need, z, added, CS(), buffer, data, j, written, goal);
          return false;
        }
        ChainIsPath(vol.table, now + [newCluster]);
        ProgressStep(t, vol.table, vol.clusters, now, need, z, added, CS(), buffer, data, j, written, goal, newCluster);
        h.cluster, now, j := newCluster, now + [newCluster], j + 1;
        var bytesToWrite := if bytesPerCluster < rest then bytesPerCluster else rest;
        vol.WriteCluster(h.cluster, buffer[written..], 0, bytesToWrite);
        AddSizeTwice(old(h.size), written, bytesToWrite);
        written, rest := written + bytesToWrite, rest - bytesToWrite;
        h.size := AddSize(h.size, bytesToWrite);
      }
      ProgressDone(vol.table, vol.clusters, now, need, z, added, CS(), buffer, data, j, written, goal);
      ok := true;
    }

    /** APPEND: fills up the cluster the handle stands on, then links further clusters behind it. `ch` lists the
        file's clusters up to that one. */
    method AppendContents(h: FileHandle, buffer: seq<byte>, size: uint32, ghost ch: seq<nat>) returns (err: FSError)
      requires vol.Valid() && size <= |buffer|
      requires Standing(vol.table, vol.clusters, ch, CS()) && h.cluster == ch[|ch| - 1]
      requires AppendBacked(vol.table, vol.clusters, ch, CS(), h.size, size)
      requires var r := Append(vol.table, vol.clusters, ch, CS(), h.size, buffer[..size]);
               r.ok || (vol.past % ENTRY_MASK != 0 && (vol.g.fatCopies >= 2 || 2 !in r.chain))
      modifies vol`sectorBuf, vol`table, vol`clusters, vol`past, vol.disk, h`size, h`cluster
      ensures vol.Valid()
      ensures var r := Append(old(vol.table), old(vol.clusters), ch, CS(), old(h.size), buffer[..size]);
              && vol.table == r.table && vol.clusters == r.clusters
              && (vol.g.fatCopies >= 2 || 2 !in r.chain ==> vol.past == old(vol.past))
              && err == (if r.ok then SUCCESS else DISK_FULL)
              && h.size == AddSize(old(h.size), r.written) && h.cluster == r.chain[|r.chain| - 1]
    {
      hide Fill, Overwrite, AddSize, Volume.Valid, Extra, Grow, Append, Times;
      ghost var data := buffer[..size];
      ghost var k, z, added, rest := AppendParts(vol.table, vol.clusters, ch, CS(), h.size, data);
      var endPos, bytesPerCluster := h.size, vol.g.ClusterSize();
      DivIs(CS(), endPos);
      var spaceLeft := bytesPerCluster - endPos % bytesPerCluster;
      var bytesToWrite := if spaceLeft < size then spaceLeft else size;
      assert buffer[..bytesToWrite] == data[..k];
      vol.WriteCluster(h.cluster, buffer, endPos % bytesPerCluster, bytesToWrite);
      h.size := AddSize(h.size, bytesToWrite);
      var ok := true;
      if spaceLeft < size {
        assert buffer[bytesToWrite..size] == data[k..];
        ok := AppendClusters(h, buffer[bytesToWrite..size], size - bytesToWrite, ch, added, z, rest);
        AddSizeTwice(old(h.size), k, |rest|);
      } else {
        AppendWithin(old(vol.table), old(vol.clusters), ch, CS(), old(h.size), data);
      }
      err := if ok then SUCCESS else DISK_FULL;
    }

    // ----- the directory record of an open file

    /** Scans the directory from the handle's parent cluster for the first record naming the file's
        first cluster. `path` lists the directory's clusters from there on. */
    method FindDirectoryEntry(h: FileHandle, ghost path: seq<nat>) returns (cluster: nat, index: nat, entry: seq<byte>, ghost k: nat)
      requires vol.Valid() && Chain(vol.table, path) && path[0] == h.parentCluster
      requires Sized(vol.clusters, path, CS()) && MatchOnPath(vol.clusters, path, h.startCluster) < |path|
      modifies vol`sectorBuf
      ensures vol.Valid() && k == MatchOnPath(vol.clusters, path, h.startCluster) && cluster == path[k]
      ensures 2 <= cluster < |vol.clusters| && index < Count(vol.clusters[cluster])
      ensures index == MatchFrom(vol.clusters[cluster], h.startCluster, 0)
      ensures entry == Record(vol.clusters[cluster], index)
    {
      hide Volume.Valid, MatchOnPath, MatchFrom;
      var clusterSize := vol.g.ClusterSize();
      var buf := new byte[clusterSize];
      cluster, k := h.parentCluster, 0;
      while true
        invariant vol.Valid() && k <= MatchOnPath(vol.clusters, path, h.startCluster) && cluster == path[k]
        invariant fresh(buf)
        decreases |path| - k
      {
        vol.ReadCluster(cluster, buf, 0, 0, clusterSize);
        assert buf[..] == vol.clusters[cluster];
        var found;
        found, index := FindInCluster(buf, h.startCluster);
        if found {
          entry := buf[RECORD * index..RECORD * (index + 1)];
          return;
        }
        assert Next(vol.table, path[k]) == path[k + 1];
        cluster := vol.GetNextCluster(cluster);
        k := k + 1;
      }
    }

    /** First record of the buffer whose cluster fields name `start`. */
    method FindInCluster(buf: array<byte>, start: nat) returns (found: bool, index: nat)
      ensures index == MatchFrom(buf[..], start, 0) && found == (index < Count(buf[..]))
    {
      ghost var cl := buf[..];
      for i := 0 to buf.Length / RECORD
        invariant MatchFrom(cl, start, 0) == MatchFrom(cl, start, i) && buf[..] == cl
      {
        var rec := buf[RECORD * i..RECORD * (i + 1)];
        assert rec == Record(cl, i);
        if FirstCluster(rec) == start {
          return true, i;
        }
      }
      return false, buf.Length / RECORD;
    }

    /** Writes a record back with a new size; the rest of its sector is zeroed by the short write. */
    method UpdateEntry(cluster: nat, index: nat, entry: seq<byte>, size: uint32)
      requires vol.Valid() && 2 <= cluster < |vol.clusters| && index < Count(vol.clusters[cluster])
      requires entry == Record(vol.clusters[cluster], index)
      modifies vol`clusters, vol`past, vol.disk
      ensures vol.Valid()
      ensures vol.clusters == old(vol.clusters)[cluster := Updated(old(vol.clusters)[cluster], index, size)]
      ensures vol.g.fatCopies >= 2 || cluster != 2 ==> vol.past == old(vol.past)
    {
      hide Volume.Valid, Overwrite, WithSize;
      var changed := WithSize(entry, size);
      vol.WriteCluster(cluster, changed, index * RECORD, RECORD);
      assert changed[..RECORD] == changed;
    }

    // ----- the public operations

    /** The handle's file and the directory its record lives in are two different sound chains. */
    ghost predicate Opened(h: FileHandle, dir: nat, path: seq<nat>)
      reads this, vol, vol.disk, h
    {
      && Valid()
      && h.startCluster in files && dir in files && dir != h.startCluster
      && (forall c :: c in path ==> c in files[dir])
      && Chain(vol.table, path) && path[0] == h.parentCluster
      && MatchOnPath(vol.clusters, path, h.startCluster) < |path|
    }

    ghost function ViewOf(h: FileHandle): View
      reads this, vol, h
    {
      View(vol.table, vol.clusters, files, h.size, h.cluster, h.position)
    }

    /** Data that goes to clusters outside the directory leaves the file's record where it was found. */
    lemma RecordStays(h: FileHandle, dir: nat, path: seq<nat>, cl: seq<seq<byte>>, ch: seq<nat>)
      requires Opened(h, dir, path) && Apart(files[dir], ch)
      requires |cl| == |vol.clusters| && forall c :: 0 <= c < |cl| && c !in ch ==> cl[c] == vol.clusters[c]
      ensures var s := SlotOf(vol.clusters, path, h.startCluster);
              s.cluster !in ch && cl[s.cluster] == vol.clusters[s.cluster]
    {
      hide Volume.Valid, SlotOf, WellFormed;
    }

    lemma SlotInRange(h: FileHandle, dir: nat, path: seq<nat>)
      requires Opened(h, dir, path)
      ensures var s := SlotOf(vol.clusters, path, h.startCluster);
              2 <= s.cluster < |vol.clusters| && s.index < Count(vol.clusters[s.cluster])
    {
      hide Volume.Valid, SlotOf;
    }

    /** The clusters of a rewritten chain are none of the directory's. */
    lemma ChainApart(t: seq<uint32>, fs: Files, s: nat, dir: nat, ch: seq<nat>)
      requires WellFormed(t, fs[s := ch]) && dir in fs && dir != s
      ensures Apart(fs[dir], ch)
    {
      var gs := fs[s := ch];
      assert Apart(gs[dir], gs[s]);
    }

    /** WRITE, followed by the update of the directory record found before. */
    method WriteFound(h: FileHandle, buffer: seq<byte>, size: uint32, ghost dir: nat, ghost path: seq<nat>,
                      cluster: nat, index: nat, entry: seq<byte>) returns (err: FSError)
      requires size <= |buffer| && Opened(h, dir, path) && Prepared(ViewOf(h), h.startCluster, path, CS(), WRITE, |buffer[..size]|)
      requires SlotOf(vol.clusters, path, h.startCluster) == Slot(cluster, index) && entry == Record(vol.clusters[cluster], index)
      requires vol.past % ENTRY_MASK != 0 || Resize(vol.table, files[h.startCluster], Needed(size, CS())).ok
      modifies this`files, vol`sectorBuf, vol`table, vol`clusters, vol`past, vol.disk, h`size, h`cluster, h`position
      ensures Valid()
      ensures Result(err, ViewOf(h)) == Written(old(ViewOf(h)), old(h.startCluster), path, CS(), buffer[..size])
    {
      hide Replace, Resize, Updated, SlotOf, AddSize, Volume.Valid, WellFormed;
      ghost var r := Replace(vol.table, vol.clusters, files[h.startCluster], CS(), buffer[..size]);
      ReplaceSound(vol.table, files, h.startCluster, vol.clusters, CS(), buffer[..size]);
      ChainApart(r.table, files, h.startCluster, dir, r.chain);
      RecordStays(h, dir, path, r.clusters, r.chain);
      err := ReplaceContents(h, buffer, size);
      if err == SUCCESS {
        UpdateEntry(cluster, index, entry, h.size);
      }
    }

    /** APPEND, followed by the update of the directory record found before. */
    method AppendFound(h: FileHandle, buffer: seq<byte>, size: uint32, ghost dir: nat, ghost path: seq<nat>,
                       cluster: nat, index: nat, entry: seq<byte>) returns (err: FSError)
      requires size <= |buffer| && Opened(h, dir, path) && Prepared(ViewOf(h), h.startCluster, path, CS(), APPEND, |buffer[..size]|)
      requires SlotOf(vol.clusters, path, h.startCluster) == Slot(cluster, index) && entry == Record(vol.clusters[cluster], index)
      requires AppendAllowed(h, path, buffer[..size])
      modifies this`files, vol`sectorBuf, vol`table, vol`clusters, vol`past, vol.disk, h`size, h`cluster
      ensures vol.Valid()
      ensures AtTail(old(ViewOf(h)), old(h.startCluster)) || !Links(old(vol.table), CS(), old(h.size), size) ==> Valid()
      ensures Result(err, ViewOf(h)) == Appended(old(ViewOf(h)), old(h.startCluster), path, CS(), buffer[..size])
    {
      hide *;
      ghost var v, s, data := ViewOf(h), h.startCluster, buffer[..size];
      ghost var ch, r := AppendPlan(h, dir, path, data, cluster, index);
      ViewFields(h);
      OpenedSound(h, dir, path);
      LeavesIs(v, s, |ch| - 1, r, Slot(cluster, index));
      err := AppendContents(h, buffer, size, ch);
      files := files[s := ChainAfter(files[s], |ch| - 1, r.chain)];
      if err == SUCCESS {
        UpdateEntry(cluster, index, entry, h.size);
      }
      ViewFields(h);
      ValidIs();
      AppendedSoundIff(v, s, path, CS(), data);
    }

    lemma ViewFields(h: FileHandle)
      ensures ViewOf(h) == View(vol.table, vol.clusters, files, h.size, h.cluster, h.position)
    {
    }

    lemma LeavesIs(v: View, start: nat, k: nat, r: Outcome, s: Slot)
      requires start in v.files && r.chain != [] && s.cluster < |v.clusters| == |r.clusters|
      requires s.index < Count(v.clusters[s.cluster]) && |v.clusters[s.cluster]| % SECTOR == 0
      ensures var size := AddSize(v.size, r.written);
              AppendLeaves(v, start, k, r, s)
              == Result(if r.ok then SUCCESS else DISK_FULL,
                        View(r.table,
                             if r.ok then r.clusters[s.cluster := Updated(v.clusters[s.cluster], s.index, size)] else r.clusters,
                             v.files[start := ChainAfter(v.files[start], k, r.chain)], size, r.chain[|r.chain| - 1], v.position))
    {
    }

    lemma OpenedSound(h: FileHandle, dir: nat, path: seq<nat>)
      requires Opened(h, dir, path)
      ensures WellFormed(vol.table, files)
    {
    }

    lemma ValidIs()
      ensures Valid() <==> vol.Valid() && WellFormed(vol.table, files)
    {
    }

    /** What the append will find and leave, told beforehand. */
    lemma AppendPlan(h: FileHandle, dir: nat, path: seq<nat>, data: seq<byte>, cluster: nat, index: nat)
      returns (ch: seq<nat>, r: Outcome)
      requires Opened(h, dir, path) && Prepared(ViewOf(h), h.startCluster, path, CS(), APPEND, |data|)
      requires SlotOf(vol.clusters, path, h.startCluster) == Slot(cluster, index) && AppendAllowed(h, path, data)
      ensures vol.Valid() && h.startCluster in files && ch != []
      ensures Standing(vol.table, vol.clusters, ch, CS()) && h.cluster == ch[|ch| - 1]
      ensures AppendBacked(vol.table, vol.clusters, ch, CS(), h.size, |data|)
      ensures r == Append(vol.table, vol.clusters, ch, CS(), h.size, data)
      ensures r.ok || (vol.past % ENTRY_MASK != 0 && (vol.g.fatCopies >= 2 || 2 !in r.chain))
      ensures 2 <= cluster < |r.clusters| == |vol.clusters| && r.clusters[cluster] == vol.clusters[cluster]
      ensures index < Count(vol.clusters[cluster]) && |vol.clusters[cluster]| % SECTOR == 0
      ensures Appended(ViewOf(h), h.startCluster, path, CS(), data)
              == AppendLeaves(ViewOf(h), h.startCluster, |ch| - 1, r, Slot(cluster, index))
    {
      hide Append, Updated, SlotOf, AddSize, Volume.Valid, WellFormed, Standing, AppendBacked, Appended, AppendOutcome, AppendLeaves;
      var v, s := ViewOf(h), h.startCluster;
      WayStanding(v, s, path, CS());
      ch := Way(v, s);
      AppendedIs(v, s, path, CS(), data);
      r := Append(vol.table, vol.clusters, ch, CS(), h.size, data);
      AppendOutside(vol.table, vol.clusters, ch, CS(), h.size, data);
      TakenApart(vol.table, files, s, dir, r.chain);
      RecordStays(h, dir, path, r.clusters, r.chain);
      SlotInRange(h, dir, path);
    }

    /** The allocator cannot run past the table: either there is room, or the word there is taken and stays so. */
    ghost predicate AppendAllowed(h: FileHandle, path: seq<nat>, data: seq<byte>)
      requires Prepared(ViewOf(h), h.startCluster, path, CS(), APPEND, |data|)
      reads this, vol, h
    {
      var r := AppendOutcome(ViewOf(h), h.startCluster, path, CS(), data);
      r.ok || (vol.past % ENTRY_MASK != 0 && (vol.g.fatCopies >= 2 || 2 !in r.chain))
    }

    /** `dir` and `path` say which directory chain the handle's record is in, from its parent cluster on. The volume
        stays sound unless an APPEND has a cluster to link behind one that is not the file's last. */
    method Write(h: FileHandle, buffer: seq<byte>, size: uint32, mode: WriteMode, ghost dir: nat, ghost path: seq<nat>)
      returns (err: FSError)
      requires Valid() && size <= |buffer|
      requires h.valid ==> Opened(h, dir, path) && Prepared(ViewOf(h), h.startCluster, path, CS(), mode, |buffer[..size]|)
      requires h.valid && mode == WRITE ==>
                 vol.past % ENTRY_MASK != 0 || Needed(size, CS()) <= |files[h.startCluster]| + |FreeSet(vol.table)|
      requires h.valid && mode == APPEND ==> AppendAllowed(h, path, buffer[..size])
      modifies this`files, vol`sectorBuf, vol`table, vol`clusters, vol`past, vol.disk, h`size, h`cluster, h`position
      ensures vol.Valid()
      ensures (!h.valid || mode != APPEND || AtTail(old(ViewOf(h)), old(h.startCluster))
               || !Links(old(vol.table), CS(), old(h.size), size)) ==> Valid()
      ensures !h.valid ==> err == INVALID_PATH && ViewOf(h) == old(ViewOf(h))
      ensures h.valid ==>
                Result(err, ViewOf(h)) == WriteResult(old(ViewOf(h)), old(h.startCluster), path, CS(), mode, buffer[..size])
    {
      hide Append, Replace, Written, Appended, Updated, AddSize, Volume.Valid, WellFormed, Resize, FreeSet, Chain;
      hide MatchOnPath, MatchFrom, Way, AppendBacked, WriteBacked, AppendOutcome;
      if !h.valid {
        return INVALID_PATH;
      }
      var cluster, index, entry, _ := FindDirectoryEntry(h, path);
      if entry[0] == 0 {
        return NOT_FOUND;
      }
      match mode
      case APPEND =>
        err := AppendFound(h, buffer, size, dir, path, cluster, index, entry);
      case WRITE =>
        ResizeOkIff(vol.table, files, h.startCluster, Needed(size, CS()));
        err := WriteFound(h, buffer, size, dir, path, cluster, index, entry);
      case INSERT =>
        UpdateEntry(cluster, index, entry, h.size);
        err := NOT_IMPLEMENTED;
    }

    // ----- reading

    /** Follows position / cluster-size links from the cluster the handle stands on. */
    method Seek(h: FileHandle, position: uint32, ghost ch: seq<nat>, ghost k: nat) returns (err: FSError)
      requires vol.Valid()
      requires h.valid && 0 < position <= h.size ==> Chain(vol.table, ch) && k < |ch| && h.cluster == ch[k]
      modifies vol`sectorBuf, h`cluster, h`position
      ensures vol.Valid()
      ensures !h.valid || position > h.size ==> err == INVALID_PATH
      ensures h.valid && position == 0 ==> err == SUCCESS && h.cluster == h.startCluster && h.position == 0
      ensures h.valid && 0 < position <= h.size ==>
                var c := AfterSeek(CS(), Cursor(old(h.position), k), position);
                && (err == SUCCESS <==> c.index < |ch|)
                && (err == SUCCESS ==> h.cluster == ch[c.index] && h.position == c.position)
                && (err != SUCCESS ==> err == END_OF_CHAIN)
      ensures err != SUCCESS ==> h.cluster == old(h.cluster) && h.position == old(h.position)
    {
      hide Volume.Valid;
      if !h.valid { return INVALID_PATH; }
      if position > h.size { return INVALID_PATH; }
      if position == 0 {
        h.cluster, h.position := h.startCluster, 0;
      } else {
        DivIs(CS(), position);
        var steps := position / vol.g.ClusterSize();
        var newCluster := h.cluster;
        for i := 0 to steps
          invariant vol.Valid() && k + i < |ch| && newCluster == ch[k + i]
          invariant h.cluster == old(h.cluster) && h.position == old(h.position)
        {
          assert k + i + 1 < |ch| ==> Next(vol.table, ch[k + i]) == ch[k + i + 1];
          newCluster := vol.GetNextCluster(newCluster);
          if IsEnd(newCluster) {
            return END_OF_CHAIN;
          }
        }
        h.cluster, h.position := newCluster, position;
      }
      err := SUCCESS;
    }

    /** One cluster's share of a read that starts at byte `b` of the chain. */
    method ReadPiece(cluster: nat, buffer: array<byte>, at: nat, offset: nat, n: nat, ghost ch: seq<nat>, ghost j: nat, ghost b: nat)
      requires vol.Valid() && Ready(vol.table, vol.clusters, ch, CS()) && j < |ch| && cluster == ch[j]
      requires offset + n <= CS() && at + n <= buffer.Length && b + at == Times(CS(), j) + offset
      modifies buffer
      ensures Times(CS(), j) + offset + n <= Times(CS(), |ch|)
      ensures forall i :: at <= i < at + n ==> buffer[i] == Flat(vol.clusters, ch, CS())[b + i]
      ensures forall i :: 0 <= i < buffer.Length && !(at <= i < at + n) ==> buffer[i] == old(buffer[i])
    {
      hide Volume.Valid, Flat, Times;
      FlatRange(vol.clusters, ch, CS(), j, offset, n);
      vol.ReadCluster(cluster, buffer, at, offset, n);
      ghost var flat := Flat(vol.clusters, ch, CS());
      forall i | at <= i < at + n
        ensures buffer[i] == flat[b + i]
      {
        assert flat[b + i] == vol.clusters[cluster][b + i - Times(CS(), j)];
      }
    }

    /** Copies up to `size` bytes from the handle's position on into the buffer, or what the file's chain `ch` has of them;
        `k` is the index of the cluster the handle stands on. On a chain that is too short the handle ends up on its end
        mark. */
    method Read(h: FileHandle, buffer: array<byte>, size: uint32, ghost ch: seq<nat>, ghost k: nat)
      returns (err: FSError, bytesRead: nat)
      requires vol.Valid()
      requires h.valid && h.position < h.size ==>
                 && Followed(vol.table, vol.clusters, ch, CS(), Cursor(h.position, k), h.size, size, buffer.Length)
                 && h.cluster == ch[k]
      modifies buffer, vol`sectorBuf, h`cluster, h`position
      ensures vol.Valid()
      ensures !h.valid ==> err == INVALID_PATH && h.cluster == old(h.cluster) && h.position == old(h.position)
      ensures !h.valid ==> buffer[..] == old(buffer[..])
      ensures h.valid && old(h.position) >= h.size ==>
                && err == SUCCESS && bytesRead == 0 && buffer[..] == old(buffer[..])
                && h.cluster == old(h.cluster) && h.position == old(h.position)
      ensures h.valid && old(h.position) < h.size ==>
                && err == SUCCESS
                && ReadLeaves(vol.table, vol.clusters, ch, CS(), Cursor(old(h.position), k), h.size, size, buffer[..], bytesRead,
                              h.position, h.cluster)
                && (forall i :: bytesRead <= i < buffer.Length ==> buffer[i] == old(buffer[i]))
    {
      hide Volume.Valid, Flat, Times, Ready, Sized, Quot, Rem, ReadBase, Followed, ReadLeaves, Underway;
      bytesRead := 0;
      if !h.valid { return INVALID_PATH, bytesRead; }
      if h.position >= h.size { return SUCCESS, bytesRead; }
      ghost var t, cl, cs, c := vol.table, vol.clusters, CS(), Cursor(h.position, k);
      UnderwayStart(t, cl, ch, cs, c, h.size, size, buffer.Length);
      FollowedFacts(t, cl, ch, cs, c, h.size, size, buffer.Length);
      var rest: nat := Min(size, h.size - h.position);
      var clusterSize := vol.g.ClusterSize();
      ghost var flat, b, want, total := Flat(cl, ch, cs), ReadBase(cs, c), rest, Delivered(cs, c, h.size, size, |ch|);
      ghost var j: nat := k;
      while rest > 0 && h.cluster < READ_END
        invariant bytesRead + rest == want && bytesRead <= total && vol.Valid()
        invariant Underway(t, ch, cs, c, total, want, j, h.position, bytesRead, h.cluster)
        invariant forall i :: 0 <= i < bytesRead ==> buffer[i] == flat[b + i]
        invariant forall i :: bytesRead <= i < buffer.Length ==> buffer[i] == old(buffer[i])
        decreases rest
      {
        DivIs(cs, h.position);
        var clusterOffset := h.position % clusterSize;
        var clusterBytes := clusterSize - clusterOffset;
        var toRead := if rest < clusterBytes then rest else clusterBytes;
        UnderwayStep(t, ch, cs, c, total, want, j, h.position, bytesRead, h.cluster, toRead);
        ReadPiece(h.cluster, buffer, bytesRead, clusterOffset, toRead, ch, j, b);
        bytesRead, rest := bytesRead + toRead, rest - toRead;
        h.position := h.position + toRead;
        DivIs(cs, h.position);
        if h.position % clusterSize == 0 && rest > 0 {
          h.cluster := vol.GetNextCluster(h.cluster);
          j := if j + 1 < |ch| then j + 1 else j;
        }
      }
      UnderwayOver(t, cl, ch, cs, c, h.size, size, j, h.position, bytesRead, h.cluster, buffer[..]);
      err := SUCCESS;
    }

    method Close(h: FileHandle)
      modifies h`valid
      ensures !h.valid
    {
      h.valid := false;
    }
  }
}
