/** Whole runs of file operations by name: the root directory of a volume is a map from names to byte strings. */
module Fat32Runs {
  import opened Bytes
  import opened Disks
  import opened Layout
  import opened Chains
  import opened Content
  import opened Records
  import opened FileSpec
  import opened FileErrors
  import opened Paths
  import opened Names
  import opened Fat32Files
  import opened Directories
  import opened Slots
  import opened Lookups
  import opened Entries

  /** Table and clusters of a volume, with the chains of its files and directories. */
  datatype Store = Store(table: seq<uint32>, clusters: seq<seq<byte>>, files: Files)

  /** make_file in the root; open and WRITE; open, seek to the end and APPEND. */
  datatype Op = Make(name: seq<byte>) | WriteTo(name: seq<byte>, data: seq<byte>) | AppendTo(name: seq<byte>, data: seq<byte>)

  /** What a user believes to have in the files of the root directory. */
  type Contents = map<seq<byte>, seq<byte>>

  /** A failed operation means nothing; a new file gets the normal form of its name. */
  function Meant(m: Contents, op: Op, err: FSError): Contents {
    if err != SUCCESS then m
    else match op
      case Make(n) => m[Normal(n) := []]
      case WriteTo(n, data) => m[n := data]
      case AppendTo(n, data) => m[n := (if n in m then m[n] else []) + data]
  }

  // ----- volumes

  ghost predicate SoundStore(st: Store, dir: nat, cs: nat) {
    && WellFormed(st.table, st.files) && |st.clusters| == |st.table| && 2 <= |st.table| <= CHAIN_END
    && cs > 0 && cs % SECTOR == 0 && Held(st.clusters, cs) && Leading(st.clusters)
    && dir in st.files && DirChain(st.table, st.files[dir]) && InRange(st.clusters, st.files[dir])
  }

  /** No chain is named by two records, and every record names a chain or no cluster of the table. */
  ghost predicate Tidy(rs: seq<Placed>, fs: Files, n: nat)
    requires forall j :: 0 <= j < |rs| ==> |rs[j].rec| == RECORD
  {
    NamedOnce(rs, fs) && forall j :: 0 <= j < |rs| ==> FirstCluster(rs[j].rec) in fs || !(2 <= FirstCluster(rs[j].rec) < n)
  }

  ghost predicate Proper(st: Store, dir: nat, cs: nat) {
    SoundStore(st, dir, cs) && Tidy(AllRecords(st.clusters, st.files[dir]), st.files, |st.table|)
  }

  /** What a name in the directory stands for. */
  ghost function Find(st: Store, dir: nat, n: seq<byte>): (r: StatResult)
    requires dir in st.files && InRange(st.clusters, st.files[dir])
  {
    Named(Listing(st.clusters, st.files[dir]), n)
  }

  predicate IsFile(r: StatResult) { r.err == SUCCESS && !r.file.IsDirectory() }

  /** The entry's chain starts with the bytes `data`, and the entry shows their number. */
  ghost predicate Filed(st: Store, e: FileEntry, data: seq<byte>, dir: nat, cs: nat) {
    && e.firstCluster in st.files && e.firstCluster != dir && e.size == |data|
    && Sized(st.clusters, st.files[e.firstCluster], cs) && |data| <= Times(cs, |st.files[e.firstCluster]|)
    && Flat(st.clusters, st.files[e.firstCluster], cs)[..|data|] == data
  }

  /** The volume is sound, and the files found in its directory are exactly those of `m`, with these contents. */
  ghost predicate Refines(st: Store, m: Contents, dir: nat, cs: nat) {
    && Proper(st, dir, cs)
    && forall n :: (n in m <==> IsFile(Find(st, dir, n)) && Find(st, dir, n).file.firstCluster in st.files)
                && (n in m ==> Filed(st, Find(st, dir, n).file, m[n], dir, cs))
  }

  // ----- operations

  /** The handle after open; after open and seek to the end for an APPEND. */
  ghost function Handle(st: Store, e: FileEntry, mode: WriteMode, cs: nat): View
    requires cs > 0 && e.firstCluster in st.files
    requires mode == APPEND ==> TailReady(st.files[e.firstCluster], cs, e.size)
  {
    var c := if mode == APPEND then AfterSeek(cs, Cursor(0, 0), e.size) else Cursor(0, 0);
    DivUnique(cs, 0, 0, 0);
    View(st.table, st.clusters, st.files, e.size,
         if mode == APPEND then st.files[e.firstCluster][c.index] else e.firstCluster, c.position)
  }

  /** The directory's clusters from the one that holds the entry's record on. */
  ghost function PathTo(st: Store, e: FileEntry, dir: nat): (path: seq<nat>)
    requires dir in st.files
  {
    if e.parentCluster in st.files[dir] then ChainFrom(st.files[dir], e.parentCluster) else []
  }

  /** Enough free clusters have sectors, or all of them do. */
  ghost predicate Room(st: Store, have: nat, need: nat) {
    need <= have + |FreeOnDisk(st.table, st.clusters)| || FreeOnDisk(st.table, st.clusters) == FreeSet(st.table)
  }

  /** Nothing but zeros follows the record of `start` in its sector of cluster `c`. */
  ghost predicate ClearBehind(cl: seq<seq<byte>>, c: nat, start: nat) {
    && c < |cl| && |cl[c]| % SECTOR == 0
    && var i := MatchFrom(cl[c], start, 0); i < Count(cl[c]) ==> TailClear(cl[c], i)
  }

  /** The entry is that of a file a write in this mode can be made to: WRITE to one recorded as empty, APPEND to one
      whose last cluster is the one the next byte goes to. */
  ghost predicate Writable(st: Store, e: FileEntry, mode: WriteMode, n: nat, dir: nat, cs: nat)
    requires cs > 0
  {
    && e.firstCluster in st.files && e.firstCluster != dir
    && var ch := st.files[e.firstCluster];
       && Sized(st.clusters, ch, cs) && ClearBehind(st.clusters, e.parentCluster, e.firstCluster) && e.size + n < WRAP
       && match mode
          case WRITE => e.size == 0 && Room(st, |ch|, Needed(n, cs))
          case APPEND => TailReady(ch, cs, e.size) && Room(st, |ch|, |ch| + AppendNeeds(e.size, n, cs))
          case INSERT => false
  }

  ghost predicate Supported(st: Store, op: Op, dir: nat, cs: nat)
    requires Proper(st, dir, cs)
  {
    match op
    case Make(n) =>
      && IsName(n) && NUL !in n && |n| <= MAX_COMPONENT
      && (Find(st, dir, n).err != SUCCESS ==> Fresh(st, n, dir))
    case WriteTo(n, data) => IsFile(Find(st, dir, n)) ==> Writable(st, Find(st, dir, n).file, WRITE, |data|, dir, cs)
    case AppendTo(n, data) => IsFile(Find(st, dir, n)) ==> Writable(st, Find(st, dir, n).file, APPEND, |data|, dir, cs)
  }

  /** The name's normal form is free as well and visible, there is a clean record for it, and the cluster it gets is on
      the disk. */
  ghost predicate Fresh(st: Store, n: seq<byte>, dir: nat)
    requires dir in st.files && InRange(st.clusters, st.files[dir])
  {
    && Find(st, dir, Normal(n)).err != SUCCESS && Encoded(n)[0] != ENTRY_DELETED
    && SlotCluster(st.clusters, st.files[dir]) < |st.files[dir]| && SlotClean(st.clusters, st.files[dir])
    && Room(st, 0, 1)
  }

  /** The volume after a file was made. */
  ghost function MadeStore(st: Store, n: seq<byte>, dir: nat): (now: Store)
    requires 2 <= |st.table| && LowestFree(st.table) < |st.table| < WRAP
    requires dir in st.files && InRange(st.clusters, st.files[dir]) && SlotCluster(st.clusters, st.files[dir]) < |st.files[dir]|
  {
    var f := LowestFree(st.table);
    Store(st.table[f := ALLOCATED], Created(st.clusters, st.files[dir], n, f), st.files[f := [f]])
  }

  datatype Step = Step(store: Store, err: FSError)

  ghost function Through(st: Store, n: seq<byte>, mode: WriteMode, data: seq<byte>, dir: nat, cs: nat): Step
    requires Proper(st, dir, cs) && (IsFile(Find(st, dir, n)) ==> Writable(st, Find(st, dir, n).file, mode, |data|, dir, cs))
  {
    var r := Find(st, dir, n);
    if r.err != SUCCESS then Step(st, r.err)
    else if r.file.IsDirectory() then Step(st, NOT_A_FILE)
    else
      CanWrite(st, n, mode, |data|, dir, cs);
      var w := WriteResult(Handle(st, r.file, mode, cs), r.file.firstCluster, PathTo(st, r.file, dir), cs, mode, data);
      Step(Store(w.view.table, w.view.clusters, w.view.files), w.err)
  }

  /** What an operation does to the volume, and what it answers. */
  ghost function Apply(st: Store, op: Op, dir: nat, cs: nat): Step
    requires Proper(st, dir, cs) && Supported(st, op, dir, cs)
  {
    match op
    case Make(n) =>
      if Find(st, dir, n).err == SUCCESS then Step(st, ALREADY_EXISTS)
      else if LowestFree(st.table) == |st.table| then Step(st, DISK_FULL)
      else Step(MadeStore(st, n, dir), SUCCESS)
    case WriteTo(n, data) => Through(st, n, WRITE, data, dir, cs)
    case AppendTo(n, data) => Through(st, n, APPEND, data, dir, cs)
  }

  // ----- why a supported write can be made

  lemma RoomGrow(st: Store, ch: seq<nat>, need: nat, cs: nat)
    requires Path(st.table, ch) && |st.clusters| == |st.table| && cs > 0 && Held(st.clusters, cs) && Leading(st.clusters)
    requires Sized(st.clusters, ch, cs) && Room(st, |ch|, need)
    ensures Sized(st.clusters, Grow(st.table, ch, need).chain, cs)
  {
    hide Grow;
    GrowBackedIff(st.table, st.clusters, ch, cs, need);
    GrowTakes(st.table, ch, need);
    var r := Grow(st.table, ch, need).chain;
    if FreeOnDisk(st.table, st.clusters) == FreeSet(st.table) {
      forall i | 0 <= i < |r|
        ensures r[i] < |st.clusters| && |st.clusters[r[i]]| == cs
      {
        assert r[i] in r;
      }
    }
  }

  lemma RoomResize(st: Store, ch: seq<nat>, need: nat, cs: nat)
    requires Chain(st.table, ch) && |st.clusters| == |st.table| && cs > 0 && Held(st.clusters, cs) && Leading(st.clusters)
    requires Sized(st.clusters, ch, cs) && Room(st, |ch|, need) && need > 0
    ensures Sized(st.clusters, Resize(st.table, ch, need).chain, cs)
  {
    hide Grow;
    ChainIsPath(st.table, ch);
    RoomGrow(st, ch, need, cs);
  }

  /** The record an entry was listed from is the one its file's first cluster leads back to, and nothing but zeros
      follows it in its sector. */
  ghost predicate OnRecord(st: Store, e: FileEntry, dir: nat)
    requires dir in st.files
  {
    && e.parentCluster in st.files[dir] && Chain(st.table, PathTo(st, e, dir))
    && (forall i :: 0 <= i < |PathTo(st, e, dir)| ==> PathTo(st, e, dir)[i] < |st.clusters|)
    && MatchOnPath(st.clusters, PathTo(st, e, dir), e.firstCluster) < |PathTo(st, e, dir)|
    && ClearRecord(st.clusters, SlotOf(st.clusters, PathTo(st, e, dir), e.firstCluster), e.size)
  }

  ghost predicate ClearRecord(cl: seq<seq<byte>>, s: Slot, size: uint32)
    requires s.cluster < |cl| && s.index < Count(cl[s.cluster])
  {
    && Record(cl[s.cluster], s.index)[0] != ENTRY_END && FileSize(Record(cl[s.cluster], s.index)) == size
    && |cl[s.cluster]| % SECTOR == 0 && TailClear(cl[s.cluster], s.index)
  }

  lemma CanFind(st: Store, n: seq<byte>, dir: nat, cs: nat)
    requires Proper(st, dir, cs) && Find(st, dir, n).err == SUCCESS
    requires var e := Find(st, dir, n).file; e.firstCluster in st.files && ClearBehind(st.clusters, e.parentCluster, e.firstCluster)
    ensures OnRecord(st, Find(st, dir, n).file, dir)
  {
    hide Listing, AllRecords, Named, FirstCluster, FileSize, TailClear, SlotOf, MatchFrom, RestFree, AllApart, Listed;
    var e, ch := Find(st, dir, n).file, st.files[dir];
    ChainDistinct(st.table, ch);
    SlotFound(st.clusters, ch, st.files, n);
    ChainFromIsChain(st.table, ch, e.parentCluster);
  }

  /** A supported write finds everything the code relies on: the record, the chain, the handle's place in it, and
      sectors for what it takes. */
  lemma CanWrite(st: Store, n: seq<byte>, mode: WriteMode, k: nat, dir: nat, cs: nat)
    requires Proper(st, dir, cs) && IsFile(Find(st, dir, n)) && Writable(st, Find(st, dir, n).file, mode, k, dir, cs)
    ensures var e := Find(st, dir, n).file;
            var v := Handle(st, e, mode, cs);
            && OnRecord(st, e, dir) && InDirectory(v, e.firstCluster, dir, PathTo(st, e, dir), cs)
            && Prepared(v, e.firstCluster, PathTo(st, e, dir), cs, mode, k)
            && (mode == APPEND ==> AtTail(v, e.firstCluster))
  {
    hide Find, ClearRecord, Grow, Resize, AppendNeeds, RestFree, AllApart, Tidy, Room, ClearBehind, Times, MatchOnPath;
    CanFind(st, n, dir, cs);
    var e := Find(st, dir, n).file;
    var start, own := e.firstCluster, st.files[e.firstCluster];
    var v, path := Handle(st, e, mode, cs), PathTo(st, e, dir);
    DirectorySized(st, e, dir, cs);
    assert Usable(v, start, path, cs);
    match mode {
      case WRITE => RoomResize(st, own, Needed(k, cs), cs);
      case APPEND =>
        assert AtTail(v, start);
        TailWay(v, start, path, cs);
        RoomGrow(st, own, |own| + AppendNeeds(e.size, k, cs), cs);
    }
  }

  lemma DirectorySized(st: Store, e: FileEntry, dir: nat, cs: nat)
    requires SoundStore(st, dir, cs) && OnRecord(st, e, dir)
    ensures Sized(st.clusters, PathTo(st, e, dir), cs) && forall c :: c in PathTo(st, e, dir) ==> c in st.files[dir]
  {
    hide ClearRecord, MatchOnPath, SlotOf;
    var path, ch := PathTo(st, e, dir), st.files[dir];
    forall i | 0 <= i < |path|
      ensures path[i] < |st.clusters| && |st.clusters[path[i]]| == cs
    {
      assert path[i] in ch;
    }
  }

  // ----- what a step leaves

  function Sizing(r: StatResult, start: nat, size: uint32): StatResult {
    if r.err == SUCCESS && r.file.firstCluster == start then StatResult(SUCCESS, r.file.(size := size)) else r
  }

  ghost predicate OtherFilesKept(st: Store, now: Store, start: nat, dir: nat, cs: nat) {
    forall f {:trigger st.files[f]} :: f in st.files && f != start && f != dir ==>
      && f in now.files && now.files[f] == st.files[f]
      && (Sized(st.clusters, st.files[f], cs) ==>
            Sized(now.clusters, st.files[f], cs) && Flat(now.clusters, st.files[f], cs) == Flat(st.clusters, st.files[f], cs))
  }

  /** Only the file `start` changed, and its entry shows the size `size`. */
  ghost predicate Rewritten(st: Store, now: Store, start: nat, size: uint32, dir: nat, cs: nat) {
    && Proper(st, dir, cs) && Proper(now, dir, cs) && now.files.Keys == st.files.Keys
    && (forall n :: Find(now, dir, n) == Sizing(Find(st, dir, n), start, size))
    && OtherFilesKept(st, now, start, dir, cs)
  }

  lemma RewrittenRefines(st: Store, now: Store, m: Contents, n: seq<byte>, data: seq<byte>, dir: nat, cs: nat)
    requires Refines(st, m, dir, cs) && n in m && |data| < WRAP
    requires var e := Find(st, dir, n).file;
             Rewritten(st, now, e.firstCluster, |data|, dir, cs) && Filed(now, e.(size := |data|), data, dir, cs)
    ensures Refines(now, m[n := data], dir, cs)
  {
    hide Find, Flat, Sized, SoundStore, Tidy;
    SoundDirectory(st, dir, cs);
    SoundDirectory(now, dir, cs);
    var e, out := Find(st, dir, n).file, m[n := data];
    forall x
      ensures x in out <==> IsFile(Find(now, dir, x)) && Find(now, dir, x).file.firstCluster in now.files
      ensures x in out ==> Filed(now, Find(now, dir, x).file, out[x], dir, cs)
    {
      assert Find(now, dir, x) == Sizing(Find(st, dir, x), e.firstCluster, |data|);
      if x in m && x != n {
        Elsewhere(st, n, x, dir, cs);
        assert Filed(st, Find(st, dir, x).file, m[x], dir, cs);
      }
    }
  }

  lemma Elsewhere(st: Store, a: seq<byte>, b: seq<byte>, dir: nat, cs: nat)
    requires Proper(st, dir, cs) && a != b && Find(st, dir, a).err == SUCCESS && Find(st, dir, b).err == SUCCESS
    requires Find(st, dir, a).file.firstCluster in st.files
    ensures Find(st, dir, b).file.firstCluster != Find(st, dir, a).file.firstCluster
  {
    hide Named, Listed, AllRecords;
    NamesApart(AllRecords(st.clusters, st.files[dir]), st.files, a, b);
  }

  lemma SoundAfter(st: Store, now: Store, dir: nat, cs: nat)
    requires SoundStore(st, dir, cs) && WellFormed(now.table, now.files) && |now.table| == |st.table|
    requires |now.clusters| == |st.clusters| && forall c :: 0 <= c < |st.clusters| ==> |now.clusters[c]| == |st.clusters[c]|
    requires dir in now.files && now.files[dir] == st.files[dir]
    requires forall c :: c in st.files[dir] && c < |st.table| ==> now.table[c] == st.table[c]
    ensures SoundStore(now, dir, cs)
  {
    hide WellFormed;
    var ch := st.files[dir];
    ChainFrame(st.table, now.table, ch);
    assert ch[|ch| - 1] in ch;
    forall c, e | 2 <= c <= e < |now.clusters| && now.clusters[e] != []
      ensures now.clusters[c] != []
    {
      assert |st.clusters[e]| > 0;
    }
  }

  /** New sizes in the records of one file are all that a reader of the directory sees. */
  lemma FindResized(st: Store, now: Store, start: nat, size: uint32, dir: nat, cs: nat)
    requires Proper(st, dir, cs) && SoundStore(now, dir, cs) && now.files.Keys == st.files.Keys && |now.table| == |st.table|
    requires now.files[dir] == st.files[dir]
    requires AllRecords(now.clusters, st.files[dir]) == RecordsResized(AllRecords(st.clusters, st.files[dir]), start, size)
    ensures Proper(now, dir, cs) && forall n :: Find(now, dir, n) == Sizing(Find(st, dir, n), start, size)
  {
    hide SoundStore, Named, Listed, WithSize, FirstCluster, AllRecords;
    SoundDirectory(st, dir, cs);
    SoundDirectory(now, dir, cs);
    var was, rs := AllRecords(st.clusters, st.files[dir]), AllRecords(now.clusters, st.files[dir]);
    forall j | 0 <= j < |rs|
      ensures FirstCluster(rs[j].rec) == FirstCluster(was[j].rec)
    {
      SizeOnly(was[j].rec, was[j].cluster, size);
    }
    ListedResized(was, start, size);
    forall n
      ensures Find(now, dir, n) == Sizing(Find(st, dir, n), start, size)
    {
      NamedResized(Listed(was), start, size, n);
    }
  }

  lemma SoundDirectory(st: Store, dir: nat, cs: nat)
    requires SoundStore(st, dir, cs)
    ensures dir in st.files && InRange(st.clusters, st.files[dir])
  {
  }

  /** The directory after the write-back of a clear record. */
  lemma DirectoryResized(st: Store, v: View, w: View, e: FileEntry, dir: nat, cs: nat)
    requires Proper(st, dir, cs) && v.table == st.table && v.clusters == st.clusters && v.files == st.files
    requires e.firstCluster in st.files && OnRecord(st, e, dir)
    requires DirectoryLeft(v, w, e.firstCluster, dir, PathTo(st, e, dir), cs)
    ensures InRange(w.clusters, st.files[dir])
    ensures AllRecords(w.clusters, st.files[dir]) == RecordsResized(AllRecords(st.clusters, st.files[dir]), e.firstCluster, w.size)
  {
    hide *;
    DirectoryFacts(st, dir, cs);
    LeftFacts(st, v, w, e, dir, cs);
    var ch, s := st.files[dir], SlotOf(st.clusters, PathTo(st, e, dir), e.firstCluster);
    var k :| 0 <= k < |ch| && ch[k] == s.cluster;
    RewrittenRecords(st.clusters, ch, st.files, k, s.index, w.size);
    var dl := st.clusters[ch[k] := Updated(st.clusters[ch[k]], s.index, w.size)];
    AllRecordsFrame(dl, w.clusters, ch);
    RangeFrame(dl, w.clusters, ch);
  }

  lemma RangeFrame(cl: seq<seq<byte>>, dl: seq<seq<byte>>, ch: seq<nat>)
    requires InRange(cl, ch) && |dl| == |cl| && forall i :: 0 <= i < |ch| ==> dl[ch[i]] == cl[ch[i]]
    ensures InRange(dl, ch)
  {
  }

  lemma DirectoryFacts(st: Store, dir: nat, cs: nat)
    requires Proper(st, dir, cs)
    ensures dir in st.files && Distinct(st.files[dir]) && InRange(st.clusters, st.files[dir])
    ensures forall i :: 0 <= i < |st.files[dir]| ==> st.files[dir][i] < |st.clusters|
    ensures NamedOnce(AllRecords(st.clusters, st.files[dir]), st.files)
  {
    hide AllRecords, NamedOnce, RestFree, AllApart;
    ChainDistinct(st.table, st.files[dir]);
  }

  lemma LeftFacts(st: Store, v: View, w: View, e: FileEntry, dir: nat, cs: nat)
    requires dir in st.files && v.table == st.table && v.clusters == st.clusters && v.files == st.files && OnRecord(st, e, dir)
    requires DirectoryLeft(v, w, e.firstCluster, dir, PathTo(st, e, dir), cs)
    ensures forall i :: 0 <= i < |PathTo(st, e, dir)| ==> PathTo(st, e, dir)[i] < |st.clusters|
    ensures MatchOnPath(st.clusters, PathTo(st, e, dir), e.firstCluster) < |PathTo(st, e, dir)|
    ensures var ch, s := st.files[dir], SlotOf(st.clusters, PathTo(st, e, dir), e.firstCluster);
            && s.cluster in ch && s.cluster < |st.clusters| && s.index < Count(st.clusters[s.cluster])
            && |st.clusters[s.cluster]| % SECTOR == 0 && TailClear(st.clusters[s.cluster], s.index)
            && FirstCluster(Record(st.clusters[s.cluster], s.index)) == e.firstCluster
            && |w.clusters| == |st.clusters|
            && forall i :: 0 <= i < |ch| ==>
                 && ch[i] < |st.clusters|
                 && w.clusters[ch[i]]
                    == st.clusters[s.cluster := Updated(st.clusters[s.cluster], s.index, w.size)][ch[i]]
  {
    hide Updated, TailClear, SlotOf, FirstCluster, WellFormed, Usable, FileSize, MatchOnPath;
    var ch, s := st.files[dir], SlotOf(st.clusters, PathTo(st, e, dir), e.firstCluster);
    forall i | 0 <= i < |ch|
      ensures ch[i] < |st.clusters|
      ensures w.clusters[ch[i]] == st.clusters[s.cluster := Updated(st.clusters[s.cluster], s.index, w.size)][ch[i]]
    {
      assert ch[i] in ch;
    }
  }

  ghost function StoreOf(v: View): Store { Store(v.table, v.clusters, v.files) }

  /** A write that came to its end rewrote one file and its record. */
  lemma RecordRewritten(st: Store, v: View, w: View, e: FileEntry, dir: nat, cs: nat)
    requires Proper(st, dir, cs) && StoreOf(v) == st && e.firstCluster in st.files && OnRecord(st, e, dir)
    requires DirectoryLeft(v, w, e.firstCluster, dir, PathTo(st, e, dir), cs)
    requires WellFormed(w.table, w.files) && w.files.Keys == st.files.Keys && OthersKept(v, w, e.firstCluster, dir, cs)
    ensures Rewritten(st, StoreOf(w), e.firstCluster, w.size, dir, cs)
  {
    hide OnRecord, AllRecords, Tidy, WellFormed, Find, Flat, Sized, OthersKept, InDirectory, Updated, SlotOf;
    DirectoryResized(st, v, w, e, dir, cs);
    SoundAfter(st, StoreOf(w), dir, cs);
    FindResized(st, StoreOf(w), e.firstCluster, w.size, dir, cs);
    OthersOf(st, v, w, e.firstCluster, dir, cs);
  }

  lemma OthersOf(st: Store, v: View, w: View, start: nat, dir: nat, cs: nat)
    requires StoreOf(v) == st && OthersKept(v, w, start, dir, cs)
    ensures OtherFilesKept(st, StoreOf(w), start, dir, cs)
  {
    hide Flat, Sized;
    forall f | f in st.files && f != start && f != dir
      ensures f in w.files && w.files[f] == st.files[f]
      ensures Sized(st.clusters, st.files[f], cs) ==>
                Sized(w.clusters, st.files[f], cs) && Flat(w.clusters, st.files[f], cs) == Flat(st.clusters, st.files[f], cs)
    {
      assert v.files[f] == st.files[f];
    }
  }

  /** A write that stopped early left the directory, and with it the file's size, alone. */
  lemma RecordLeft(st: Store, v: View, w: View, n: seq<byte>, dir: nat, cs: nat)
    requires Proper(st, dir, cs) && StoreOf(v) == st
    requires Find(st, dir, n).err == SUCCESS && Find(st, dir, n).file.firstCluster in st.files
    requires WellFormed(w.table, w.files) && w.files.Keys == st.files.Keys && |w.table| == |st.table|
    requires OthersKept(v, w, Find(st, dir, n).file.firstCluster, dir, cs) && w.files[dir] == st.files[dir]
    requires |w.clusters| == |st.clusters| && forall c :: 0 <= c < |st.clusters| ==> |w.clusters[c]| == |st.clusters[c]|
    requires forall c :: c in st.files[dir] && c < |st.table| ==> w.table[c] == st.table[c] && w.clusters[c] == st.clusters[c]
    ensures Rewritten(st, StoreOf(w), Find(st, dir, n).file.firstCluster, Find(st, dir, n).file.size, dir, cs)
  {
    hide AllRecords, Tidy, WellFormed, Listed, Named, Flat, Sized, OthersKept;
    var ch, e := st.files[dir], Find(st, dir, n).file;
    SoundAfter(st, StoreOf(w), dir, cs);
    forall i | 0 <= i < |ch|
      ensures w.clusters[ch[i]] == st.clusters[ch[i]]
    {
      assert ch[i] in ch;
    }
    AllRecordsFrame(st.clusters, w.clusters, ch);
    SameKeys(AllRecords(st.clusters, ch), st.files, w.files, |st.table|);
    forall x
      ensures Find(StoreOf(w), dir, x) == Sizing(Find(st, dir, x), e.firstCluster, e.size)
    {
      if x != n && Find(st, dir, x).err == SUCCESS { Elsewhere(st, n, x, dir, cs); }
    }
    OthersOf(st, v, w, e.firstCluster, dir, cs);
  }

  lemma SameKeys(rs: seq<Placed>, fs: Files, gs: Files, n: nat)
    requires (forall j :: 0 <= j < |rs| ==> |rs[j].rec| == RECORD) && Tidy(rs, fs, n) && gs.Keys == fs.Keys
    ensures Tidy(rs, gs, n)
  {
    hide FirstCluster;
    assert forall c :: c in gs <==> c in gs.Keys;
    assert forall c :: c in fs <==> c in fs.Keys;
  }

  // ----- writing through a handle

  /** What is meant to be in the file after a write to it. */
  function Outcome(was: seq<byte>, mode: WriteMode, data: seq<byte>, err: FSError): seq<byte> {
    if err != SUCCESS then was else if mode == APPEND then was + data else data
  }

  lemma Outcomes(was: seq<byte>, data: seq<byte>)
    ensures forall mode :: Outcome(was, mode, data, DISK_FULL) == was
    ensures Outcome(was, WRITE, data, SUCCESS) == data && Outcome(was, APPEND, data, SUCCESS) == was + data
  {
  }

  ghost predicate FileStep(st: Store, now: Store, e: FileEntry, out: seq<byte>, dir: nat, cs: nat) {
    && |out| < WRAP && Rewritten(st, now, e.firstCluster, |out|, dir, cs)
    && Filed(now, e.(size := |out|), out, dir, cs)
  }

  lemma WrittenFields(v: View, start: nat, path: seq<nat>, cs: nat, data: seq<byte>)
    requires Prepared(v, start, path, cs, WRITE, |data|)
    ensures var r := Written(v, start, path, cs, data);
            && (r.err == SUCCESS || r.err == DISK_FULL) && r.view.files.Keys == v.files.Keys
            && (r.err == SUCCESS ==> r.view.size == AddSize(v.size, |data|))
            && (r.err == DISK_FULL ==> r.view.size == v.size)
  {
    hide Replace, SlotOf, Updated;
  }

  /** The code answers with the write proper: the record it finds is no end marker. */
  lemma ThroughIs(st: Store, n: seq<byte>, mode: WriteMode, data: seq<byte>, dir: nat, cs: nat)
    requires Proper(st, dir, cs) && IsFile(Find(st, dir, n)) && Writable(st, Find(st, dir, n).file, mode, |data|, dir, cs)
    ensures var e := Find(st, dir, n).file;
            var v, path := Handle(st, e, mode, cs), PathTo(st, e, dir);
            && mode != INSERT && OnRecord(st, e, dir) && Prepared(v, e.firstCluster, path, cs, mode, |data|)
            && InDirectory(v, e.firstCluster, dir, path, cs) && StoreOf(v) == st && v.size == e.size
            && e.firstCluster in st.files && (mode == APPEND ==> AtTail(v, e.firstCluster))
            && var r := if mode == WRITE then Written(v, e.firstCluster, path, cs, data)
                        else Appended(v, e.firstCluster, path, cs, data);
               Through(st, n, mode, data, dir, cs) == Step(StoreOf(r.view), r.err)
  {
    hide Find, Written, Appended, Prepared, SlotOf, InDirectory, Room, ClearBehind, FileSize, TailClear, Proper, AtTail, Record;
    CanWrite(st, n, mode, |data|, dir, cs);
  }

  lemma ProperDirectory(st: Store, dir: nat, cs: nat)
    requires Proper(st, dir, cs)
    ensures SoundStore(st, dir, cs) && dir in st.files && InRange(st.clusters, st.files[dir])
    ensures cs > 0 && |st.clusters| == |st.table| <= CHAIN_END
    ensures forall c :: c in st.files[dir] ==> c < |st.table|
  {
  }

  lemma FiledIn(st: Store, e: FileEntry, out: seq<byte>, dir: nat, cs: nat)
    requires e.firstCluster in st.files && e.firstCluster != dir && |out| < WRAP
    requires Sized(st.clusters, st.files[e.firstCluster], cs) && |out| <= Times(cs, |st.files[e.firstCluster]|)
    requires Flat(st.clusters, st.files[e.firstCluster], cs)[..|out|] == out
    ensures Filed(st, e.(size := |out|), out, dir, cs)
  {
  }

  lemma WritableFile(st: Store, e: FileEntry, mode: WriteMode, n: nat, dir: nat, cs: nat)
    requires cs > 0 && Writable(st, e, mode, n, dir, cs)
    ensures e.firstCluster in st.files && e.firstCluster != dir && Sized(st.clusters, st.files[e.firstCluster], cs)
    ensures e.size + n < WRAP
    ensures mode == WRITE ==> e.size == 0 && Room(st, |st.files[e.firstCluster]|, Needed(n, cs))
    ensures mode == APPEND ==> TailReady(st.files[e.firstCluster], cs, e.size)
  {
  }

  lemma WriteStep(st: Store, n: seq<byte>, data: seq<byte>, dir: nat, cs: nat)
    requires Proper(st, dir, cs) && IsFile(Find(st, dir, n)) && Writable(st, Find(st, dir, n).file, WRITE, |data|, dir, cs)
    ensures var e, p := Find(st, dir, n).file, Through(st, n, WRITE, data, dir, cs);
            && (p.err == SUCCESS || p.err == DISK_FULL)
            && FileStep(st, p.store, e, Outcome([], WRITE, data, p.err), dir, cs)
  {
    hide *;
    ProperDirectory(st, dir, cs);
    ThroughIs(st, n, WRITE, data, dir, cs);
    var e := Find(st, dir, n).file;
    var v, path := Handle(st, e, WRITE, cs), PathTo(st, e, dir);
    WrittenFields(v, e.firstCluster, path, cs, data);
    if Written(v, e.firstCluster, path, cs, data).err == SUCCESS {
      WriteDone(st, v, n, data, dir, cs);
    } else {
      WriteFull(st, v, n, data, dir, cs);
    }
    Outcomes([], data);
  }

  lemma WriteDone(st: Store, v: View, n: seq<byte>, data: seq<byte>, dir: nat, cs: nat)
    requires Proper(st, dir, cs) && IsFile(Find(st, dir, n)) && Writable(st, Find(st, dir, n).file, WRITE, |data|, dir, cs)
    requires v == Handle(st, Find(st, dir, n).file, WRITE, cs)
    requires var e := Find(st, dir, n).file;
             && Prepared(v, e.firstCluster, PathTo(st, e, dir), cs, WRITE, |data|)
             && Written(v, e.firstCluster, PathTo(st, e, dir), cs, data).err == SUCCESS
    ensures var e := Find(st, dir, n).file;
            FileStep(st, StoreOf(Written(v, e.firstCluster, PathTo(st, e, dir), cs, data).view), e, data, dir, cs)
  {
    hide *;
    ProperDirectory(st, dir, cs);
    ThroughIs(st, n, WRITE, data, dir, cs);
    var e := Find(st, dir, n).file;
    var path := PathTo(st, e, dir);
    var w := Written(v, e.firstCluster, path, cs, data).view;
    WritableFile(st, e, WRITE, |data|, dir, cs);
    WrittenFields(v, e.firstCluster, path, cs, data);
    WrittenContents(v, e.firstCluster, dir, path, cs, data);
    WrittenDirectory(v, e.firstCluster, dir, path, cs, data);
    StoreFields(st, v);
    StoreFields(StoreOf(w), w);
    RecordRewritten(st, v, w, e, dir, cs);
    FromEmpty(v.size, |data|);
    ReadySized(w.table, w.clusters, w.files[e.firstCluster], cs);
    FiledIn(StoreOf(w), e, data, dir, cs);
    StepOf(st, StoreOf(w), e, data, dir, cs);
  }

  lemma StoreFields(st: Store, v: View)
    requires StoreOf(v) == st
    ensures st.table == v.table && st.clusters == v.clusters && st.files == v.files
  {
  }

  lemma FromEmpty(was: uint32, n: nat)
    requires was == 0 && n < WRAP
    ensures AddSize(was, n) == n
  {
  }

  lemma StepOf(st: Store, now: Store, e: FileEntry, out: seq<byte>, dir: nat, cs: nat)
    requires |out| < WRAP && Rewritten(st, now, e.firstCluster, |out|, dir, cs) && Filed(now, e.(size := |out|), out, dir, cs)
    ensures FileStep(st, now, e, out, dir, cs)
  {
  }

  lemma WriteFull(st: Store, v: View, n: seq<byte>, data: seq<byte>, dir: nat, cs: nat)
    requires Proper(st, dir, cs) && IsFile(Find(st, dir, n)) && Writable(st, Find(st, dir, n).file, WRITE, |data|, dir, cs)
    requires v == Handle(st, Find(st, dir, n).file, WRITE, cs)
    requires var e := Find(st, dir, n).file;
             && Prepared(v, e.firstCluster, PathTo(st, e, dir), cs, WRITE, |data|)
             && Written(v, e.firstCluster, PathTo(st, e, dir), cs, data).err == DISK_FULL
    ensures var e := Find(st, dir, n).file;
            FileStep(st, StoreOf(Written(v, e.firstCluster, PathTo(st, e, dir), cs, data).view), e, [], dir, cs)
  {
    hide *;
    ProperDirectory(st, dir, cs);
    ThroughIs(st, n, WRITE, data, dir, cs);
    var e := Find(st, dir, n).file;
    var path := PathTo(st, e, dir);
    var w := Written(v, e.firstCluster, path, cs, data).view;
    WritableFile(st, e, WRITE, |data|, dir, cs);
    WrittenFields(v, e.firstCluster, path, cs, data);
    FailedWrite(v, e.firstCluster, dir, path, cs, data);
    StoreFields(st, v);
    StoreFields(StoreOf(w), w);
    FileOk(st, n, dir);
    DirectoryStays(v, w, e.firstCluster, dir, cs, path, data);
    RecordLeft(st, v, w, n, dir, cs);
    FullSized(st, v, e.firstCluster, path, cs, data, dir);
    FiledIn(StoreOf(w), e, [], dir, cs);
    StepOf(st, StoreOf(w), e, [], dir, cs);
  }

  lemma FileOk(st: Store, n: seq<byte>, dir: nat)
    requires dir in st.files && InRange(st.clusters, st.files[dir]) && IsFile(Find(st, dir, n))
    ensures Find(st, dir, n).err == SUCCESS
  {
  }

  lemma DirectoryStays(v: View, w: View, start: nat, dir: nat, cs: nat, path: seq<nat>, data: seq<byte>)
    requires InDirectory(v, start, dir, path, cs) && Prepared(v, start, path, cs, WRITE, |data|)
    requires w == Written(v, start, path, cs, data).view
    ensures w.files.Keys == v.files.Keys && dir in w.files && w.files[dir] == v.files[dir] && |w.table| == |v.table|
  {
    hide Resize, SlotOf, Updated, WellFormed, MatchOnPath;
    ResizedLength(v, start, dir, path, cs, data);
  }

  lemma ResizedLength(v: View, start: nat, dir: nat, path: seq<nat>, cs: nat, data: seq<byte>)
    requires InDirectory(v, start, dir, path, cs)
    ensures Chain(v.table, v.files[start]) && |Resize(v.table, v.files[start], Needed(|data|, cs)).table| == |v.table|
  {
    hide Resize;
    ResizeIsChain(v.table, v.files[start], Needed(|data|, cs));
  }

  /** The clusters a WRITE takes before it runs out of space are all on the disk. */
  lemma FullSized(st: Store, v: View, start: nat, path: seq<nat>, cs: nat, data: seq<byte>, dir: nat)
    requires SoundStore(st, dir, cs) && StoreOf(v) == st && Prepared(v, start, path, cs, WRITE, |data|)
    requires start in st.files && Room(st, |st.files[start]|, Needed(|data|, cs))
    ensures var w := Written(v, start, path, cs, data).view;
            start in w.files && Sized(v.clusters, w.files[start], cs)
  {
    hide Resize, SlotOf, Updated, WellFormed, Room;
    RoomResize(st, st.files[start], Needed(|data|, cs), cs);
  }

  lemma AppendedFields(v: View, start: nat, path: seq<nat>, cs: nat, data: seq<byte>)
    requires Prepared(v, start, path, cs, APPEND, |data|)
    ensures var r := Appended(v, start, path, cs, data);
            && (r.err == SUCCESS || r.err == DISK_FULL) && r.view.files.Keys == v.files.Keys
            && (r.err == SUCCESS ==> r.view.size == AddSize(v.size, |data|))
  {
    hide Append, SlotOf, Updated, AddSize, Flat, Way, Standing, AppendBacked;
    AppendedIs(v, start, path, cs, data);
    AppendReads(v.table, v.clusters, Way(v, start), cs, v.size, data);
  }

  lemma AppendStep(st: Store, n: seq<byte>, was: seq<byte>, data: seq<byte>, dir: nat, cs: nat)
    requires Proper(st, dir, cs) && IsFile(Find(st, dir, n)) && Writable(st, Find(st, dir, n).file, APPEND, |data|, dir, cs)
    requires Filed(st, Find(st, dir, n).file, was, dir, cs)
    ensures var e, p := Find(st, dir, n).file, Through(st, n, APPEND, data, dir, cs);
            && (p.err == SUCCESS || p.err == DISK_FULL)
            && FileStep(st, p.store, e, Outcome(was, APPEND, data, p.err), dir, cs)
  {
    hide *;
    ProperDirectory(st, dir, cs);
    ThroughIs(st, n, APPEND, data, dir, cs);
    var e := Find(st, dir, n).file;
    WritableFile(st, e, APPEND, |data|, dir, cs);
    var v, path := Handle(st, e, APPEND, cs), PathTo(st, e, dir);
    AppendedFields(v, e.firstCluster, path, cs, data);
    if Appended(v, e.firstCluster, path, cs, data).err == SUCCESS {
      AppendDone(st, v, n, was, data, dir, cs);
    } else {
      AppendFull(st, v, n, was, data, dir, cs);
    }
    Outcomes(was, data);
  }

  lemma FiledFacts(st: Store, e: FileEntry, data: seq<byte>, dir: nat, cs: nat)
    requires Filed(st, e, data, dir, cs)
    ensures e.firstCluster in st.files && e.size == |data| && Sized(st.clusters, st.files[e.firstCluster], cs)
    ensures |data| <= Times(cs, |st.files[e.firstCluster]|) && Flat(st.clusters, st.files[e.firstCluster], cs)[..|data|] == data
  {
  }

  lemma AppendDone(st: Store, v: View, n: seq<byte>, was: seq<byte>, data: seq<byte>, dir: nat, cs: nat)
    requires Proper(st, dir, cs) && IsFile(Find(st, dir, n)) && Writable(st, Find(st, dir, n).file, APPEND, |data|, dir, cs)
    requires v == Handle(st, Find(st, dir, n).file, APPEND, cs) && Filed(st, Find(st, dir, n).file, was, dir, cs)
    requires var e := Find(st, dir, n).file;
             && Prepared(v, e.firstCluster, PathTo(st, e, dir), cs, APPEND, |data|)
             && Appended(v, e.firstCluster, PathTo(st, e, dir), cs, data).err == SUCCESS
    ensures var e := Find(st, dir, n).file;
            FileStep(st, StoreOf(Appended(v, e.firstCluster, PathTo(st, e, dir), cs, data).view), e, was + data, dir, cs)
  {
    hide *;
    ProperDirectory(st, dir, cs);
    ThroughIs(st, n, APPEND, data, dir, cs);
    var e := Find(st, dir, n).file;
    var path := PathTo(st, e, dir);
    var w := Appended(v, e.firstCluster, path, cs, data).view;
    WritableFile(st, e, APPEND, |data|, dir, cs);
    FiledFacts(st, e, was, dir, cs);
    StoreFields(st, v);
    StoreFields(StoreOf(w), w);
    AppendedFields(v, e.firstCluster, path, cs, data);
    AppendedContents(v, e.firstCluster, dir, path, cs, data);
    AppendedDirectory(v, e.firstCluster, dir, path, cs, data);
    RecordRewritten(st, v, w, e, dir, cs);
    Added(v.size, |data|);
    ReadySized(w.table, w.clusters, w.files[e.firstCluster], cs);
    FiledIn(StoreOf(w), e, was + data, dir, cs);
    StepOf(st, StoreOf(w), e, was + data, dir, cs);
  }

  lemma Added(was: uint32, n: nat)
    requires was + n < WRAP
    ensures AddSize(was, n) == was + n
  {
  }

  lemma AppendFull(st: Store, v: View, n: seq<byte>, was: seq<byte>, data: seq<byte>, dir: nat, cs: nat)
    requires Proper(st, dir, cs) && IsFile(Find(st, dir, n)) && Writable(st, Find(st, dir, n).file, APPEND, |data|, dir, cs)
    requires v == Handle(st, Find(st, dir, n).file, APPEND, cs) && Filed(st, Find(st, dir, n).file, was, dir, cs)
    requires var e := Find(st, dir, n).file;
             && Prepared(v, e.firstCluster, PathTo(st, e, dir), cs, APPEND, |data|)
             && Appended(v, e.firstCluster, PathTo(st, e, dir), cs, data).err == DISK_FULL
    ensures var e := Find(st, dir, n).file;
            FileStep(st, StoreOf(Appended(v, e.firstCluster, PathTo(st, e, dir), cs, data).view), e, was, dir, cs)
  {
    hide *;
    ProperDirectory(st, dir, cs);
    ThroughIs(st, n, APPEND, data, dir, cs);
    var e := Find(st, dir, n).file;
    var path := PathTo(st, e, dir);
    var w := Appended(v, e.firstCluster, path, cs, data).view;
    WritableFile(st, e, APPEND, |data|, dir, cs);
    FiledFacts(st, e, was, dir, cs);
    StoreFields(st, v);
    StoreFields(StoreOf(w), w);
    AppendedFields(v, e.firstCluster, path, cs, data);
    FailedAppend(v, e.firstCluster, dir, path, cs, data);
    FileOk(st, n, dir);
    SameNumber(v, w, e.firstCluster, path, cs, data);
    RecordLeft(st, v, w, n, dir, cs);
    ReadySized(w.table, w.clusters, w.files[e.firstCluster], cs);
    FiledIn(StoreOf(w), e, was, dir, cs);
    StepOf(st, StoreOf(w), e, was, dir, cs);
  }

  lemma SameNumber(v: View, w: View, start: nat, path: seq<nat>, cs: nat, data: seq<byte>)
    requires Prepared(v, start, path, cs, APPEND, |data|) && w == Appended(v, start, path, cs, data).view
    ensures |w.clusters| == |v.clusters|
  {
    hide Append, SlotOf, Updated, AddSize, Flat, Way, Standing, AppendBacked;
    AppendedIs(v, start, path, cs, data);
  }

  // ----- creating

  lemma TidyReplaced(b: seq<Placed>, was: Placed, p: Placed, r: seq<Placed>, fs: Files, f: nat, n: nat)
    requires forall j :: 0 <= j < |b| ==> |b[j].rec| == RECORD
    requires forall j :: 0 <= j < |r| ==> |r[j].rec| == RECORD
    requires |was.rec| == RECORD && |p.rec| == RECORD && FirstCluster(p.rec) == f && 2 <= f < n && f !in fs
    requires Tidy(b + [was] + r, fs, n)
    ensures Tidy(b + [p] + r, fs[f := [f]], n)
  {
    hide FirstCluster;
    var rs, now, gs := b + [was] + r, b + [p] + r, fs[f := [f]];
    assert |now| == |rs| && now[|b|] == p;
    assert forall j :: 0 <= j < |now| && j != |b| ==> now[j] == rs[j];
    forall j | 0 <= j < |now| && j != |b|
      ensures FirstCluster(now[j].rec) != f
    {
      assert now[j] == rs[j];
    }
  }

  lemma MadeTidy(st: Store, n: seq<byte>, f: uint32, dir: nat, cs: nat)
    requires Proper(st, dir, cs) && SlotCluster(st.clusters, st.files[dir]) < |st.files[dir]|
    requires 2 <= f < |st.table| && f !in st.files
    ensures InRange(Created(st.clusters, st.files[dir], n, f), st.files[dir])
    ensures Tidy(AllRecords(Created(st.clusters, st.files[dir], n, f), st.files[dir]), st.files[f := [f]], |st.table|)
  {
    hide AllRecords, Before, Ahead, NewRecord, WithRecord, Tidy, SlotCluster, RestFree, AllApart;
    var cl, ch := st.clusters, st.files[dir];
    var k := SlotCluster(cl, ch);
    var i := FreeFrom(cl[ch[k]], 0);
    var was := Record(cl[ch[k]], i);
    var rec := NewRecord(was, n, ATTR_ARCHIVE, f, 0);
    ChainDistinct(st.table, ch);
    CreatedInRange(cl, ch, n, f);
    InsertSplit(cl, ch, k, i, rec);
    NewRecordFields(was, n, ATTR_ARCHIVE, f, 0);
    TidyReplaced(Before(cl, ch, k, i), Placed(was, ch[k]), Placed(rec, ch[k]), Ahead(cl, ch, k, i + 1), st.files, f, |st.table|);
  }

  lemma MadeSound(st: Store, n: seq<byte>, dir: nat, cs: nat)
    requires SoundStore(st, dir, cs) && SlotCluster(st.clusters, st.files[dir]) < |st.files[dir]|
    requires LowestFree(st.table) < |st.table|
    ensures SoundStore(MadeStore(st, n, dir), dir, cs) && LowestFree(st.table) !in st.files
  {
    hide LowestFree, Created, SlotCluster, WellFormed;
    var f, now := LowestFree(st.table), MadeStore(st, n, dir);
    NewFileWellFormed(st.table, st.files, f);
    KeepsEnd(st.table, st.files[dir], f);
    CreatedInRange(st.clusters, st.files[dir], n, f);
    forall c, e | 2 <= c <= e < |now.clusters| && now.clusters[e] != []
      ensures now.clusters[c] != []
    {
      assert |st.clusters[e]| > 0;
    }
  }

  /** Its normal form now stands for the new file, and every other name for what it stood for. */
  lemma MadeFind(st: Store, n: seq<byte>, x: seq<byte>, dir: nat, cs: nat)
    requires SoundStore(st, dir, cs) && Fresh(st, n, dir) && NUL !in n && LowestFree(st.table) < |st.table|
    ensures var now, f := MadeStore(st, n, dir), LowestFree(st.table);
            && InRange(now.clusters, st.files[dir])
            && Named(Listing(now.clusters, st.files[dir]), x)
               == if x == Normal(n) then StatResult(SUCCESS, CreatedEntry(st.clusters, st.files[dir], n, f)) else Find(st, dir, x)
  {
    hide Listing, Created, SlotCluster, SlotClean, Encoded, Normal, LowestFree, Front, Back, Named, WellFormed;
    var cl, ch, f := st.clusters, st.files[dir], LowestFree(st.table);
    ChainDistinct(st.table, ch);
    CreatedInRange(cl, ch, n, f);
    CreatedListing(cl, ch, n, f);
    DecodeEncode(n);
    NamedInsert(Front(cl, ch), CreatedEntry(cl, ch, n, f), Back(cl, ch), x);
  }

  /** No other file is touched. */
  lemma MadeOthers(st: Store, n: seq<byte>, e: FileEntry, data: seq<byte>, dir: nat, cs: nat)
    requires SoundStore(st, dir, cs) && SlotCluster(st.clusters, st.files[dir]) < |st.files[dir]|
    requires LowestFree(st.table) < |st.table| && Filed(st, e, data, dir, cs)
    ensures Filed(MadeStore(st, n, dir), e, data, dir, cs)
  {
    hide LowestFree, SlotCluster, Flat, RestFree, Times, NewRecord, WithRecord;
    var f, now, ch, own := LowestFree(st.table), MadeStore(st, n, dir), st.files[dir], st.files[e.firstCluster];
    NewFileWellFormed(st.table, st.files, f);
    assert Apart(own, ch);
    assert ch[SlotCluster(st.clusters, ch)] in ch;
    FlatFrame(st.clusters, now.clusters, own, cs);
  }

  /** The new file is empty. */
  lemma MadeFiled(st: Store, n: seq<byte>, dir: nat, cs: nat)
    requires SoundStore(st, dir, cs) && Fresh(st, n, dir) && LowestFree(st.table) < |st.table|
    ensures var e := CreatedEntry(st.clusters, st.files[dir], n, LowestFree(st.table));
            !e.IsDirectory() && Filed(MadeStore(st, n, dir), e, [], dir, cs)
  {
    hide LowestFree, SlotCluster, Created, SlotClean, Encoded, Normal, WellFormed, Find;
    var f := LowestFree(st.table);
    NewFileWellFormed(st.table, st.files, f);
    CreatedInRange(st.clusters, st.files[dir], n, f);
    AllocationBackedIff(st.table, st.clusters);
    assert f in FreeSet(st.table);
  }

  lemma MadeRefines(st: Store, n: seq<byte>, m: Contents, dir: nat, cs: nat)
    requires Refines(st, m, dir, cs) && Fresh(st, n, dir) && NUL !in n && LowestFree(st.table) < |st.table|
    ensures Refines(MadeStore(st, n, dir), m[Normal(n) := []], dir, cs)
  {
    hide LowestFree, SlotCluster, Created, SlotClean, Encoded, Normal, WellFormed, SoundStore, Filed, Tidy, AllRecords, Listing, Named;
    ProperDirectory(st, dir, cs);
    MadeSound(st, n, dir, cs);
    var f, now, out := LowestFree(st.table), MadeStore(st, n, dir), m[Normal(n) := []];
    MadeTidy(st, n, f, dir, cs);
    ProperDirectory(now, dir, cs);
    forall x
      ensures x in out <==> IsFile(Find(now, dir, x)) && Find(now, dir, x).file.firstCluster in now.files
      ensures x in out ==> Filed(now, Find(now, dir, x).file, out[x], dir, cs)
    {
      MadeFind(st, n, x, dir, cs);
      if x == Normal(n) {
        MadeFiled(st, n, dir, cs);
      } else {
        if x in m { MadeOthers(st, n, Find(st, dir, x).file, m[x], dir, cs); }
        if Find(st, dir, x).err == SUCCESS { NotNamed(st, x, f, dir, cs); }
      }
    }
  }

  /** No entry of a tidy directory names a free cluster. */
  lemma NotNamed(st: Store, n: seq<byte>, f: nat, dir: nat, cs: nat)
    requires Proper(st, dir, cs) && Find(st, dir, n).err == SUCCESS && 2 <= f < |st.table| && f !in st.files
    ensures Find(st, dir, n).file.firstCluster != f
  {
    hide AllRecords, Named, Listed, FirstCluster, Converted, SoundStore;
    SoundDirectory(st, dir, cs);
    var rs := AllRecords(st.clusters, st.files[dir]);
    var q := FoundRecord(rs, n);
    EntryNames(rs[q].rec, rs[q].cluster);
  }

  // ----- steps and runs

  lemma FiledSomehow(st: Store, e: FileEntry, n: nat, dir: nat, cs: nat) returns (was: seq<byte>)
    requires cs > 0 && Writable(st, e, APPEND, n, dir, cs)
    ensures Filed(st, e, was, dir, cs)
  {
    DivSplit(cs, e.size);
    was := Flat(st.clusters, st.files[e.firstCluster], cs)[..e.size];
  }

  lemma StepProper(st: Store, op: Op, dir: nat, cs: nat)
    requires Proper(st, dir, cs) && Supported(st, op, dir, cs)
    ensures Proper(Apply(st, op, dir, cs).store, dir, cs)
  {
    hide Find, Writable, Fresh, SoundStore, Tidy, MadeStore, Filed, LowestFree;
    ProperDirectory(st, dir, cs);
    match op {
      case Make(n) =>
        if Find(st, dir, n).err != SUCCESS && LowestFree(st.table) < |st.table| {
          FreshSlot(st, n, dir);
          MadeSound(st, n, dir, cs);
          MadeTidy(st, n, LowestFree(st.table), dir, cs);
          MadeFields(st, n, dir);
        }
      case WriteTo(n, data) =>
        if IsFile(Find(st, dir, n)) { WriteStep(st, n, data, dir, cs); }
      case AppendTo(n, data) =>
        if IsFile(Find(st, dir, n)) {
          var was := FiledSomehow(st, Find(st, dir, n).file, |data|, dir, cs);
          AppendStep(st, n, was, data, dir, cs);
        }
    }
  }

  lemma FreshSlot(st: Store, n: seq<byte>, dir: nat)
    requires dir in st.files && InRange(st.clusters, st.files[dir]) && Fresh(st, n, dir)
    ensures SlotCluster(st.clusters, st.files[dir]) < |st.files[dir]|
  {
  }

  lemma MadeFields(st: Store, n: seq<byte>, dir: nat)
    requires 2 <= |st.table| && LowestFree(st.table) < |st.table| < WRAP
    requires dir in st.files && InRange(st.clusters, st.files[dir]) && SlotCluster(st.clusters, st.files[dir]) < |st.files[dir]|
    ensures var f, now := LowestFree(st.table), MadeStore(st, n, dir);
            && now.table == st.table[f := ALLOCATED] && now.clusters == Created(st.clusters, st.files[dir], n, f)
            && now.files == st.files[f := [f]]
  {
  }

  /** Every supported operation, successful or not, keeps the volume in step with the meant contents. */
  lemma StepRefines(st: Store, op: Op, m: Contents, dir: nat, cs: nat)
    requires Refines(st, m, dir, cs) && Supported(st, op, dir, cs)
    ensures var p := Apply(st, op, dir, cs); Refines(p.store, Meant(m, op, p.err), dir, cs)
  {
    hide Find, Writable, Fresh, SoundStore, Tidy, MadeStore, Filed, LowestFree, Rewritten;
    ProperDirectory(st, dir, cs);
    match op {
      case Make(n) =>
        if Find(st, dir, n).err != SUCCESS && LowestFree(st.table) < |st.table| {
          hide Refines;
          MadeRefines(st, n, m, dir, cs);
        }
      case WriteTo(n, data) =>
        if IsFile(Find(st, dir, n)) {
          WritableFile(st, Find(st, dir, n).file, WRITE, |data|, dir, cs);
          assert Filed(st, Find(st, dir, n).file, m[n], dir, cs);
          FiledFacts(st, Find(st, dir, n).file, m[n], dir, cs);
          WriteStep(st, n, data, dir, cs);
          PutRefines(st, op, m, m[n], dir, cs);
        }
      case AppendTo(n, data) =>
        if IsFile(Find(st, dir, n)) {
          WritableFile(st, Find(st, dir, n).file, APPEND, |data|, dir, cs);
          assert Filed(st, Find(st, dir, n).file, m[n], dir, cs);
          AppendStep(st, n, m[n], data, dir, cs);
          PutRefines(st, op, m, m[n], dir, cs);
        }
    }
  }

  lemma PutRefines(st: Store, op: Op, m: Contents, was: seq<byte>, dir: nat, cs: nat)
    requires Refines(st, m, dir, cs) && Supported(st, op, dir, cs) && !op.Make? && op.name in m && m[op.name] == was
    requires var p := Apply(st, op, dir, cs);
             && (p.err == SUCCESS || p.err == DISK_FULL)
             && FileStep(st, p.store, Find(st, dir, op.name).file,
                         Outcome(was, if op.WriteTo? then WRITE else APPEND, op.data, p.err), dir, cs)
    ensures var p := Apply(st, op, dir, cs); Refines(p.store, Meant(m, op, p.err), dir, cs)
  {
    hide Find, Supported, SoundStore, Tidy, Filed, Rewritten, Apply, Refines;
    ProperFrom(st, m, dir, cs);
    var p := Apply(st, op, dir, cs);
    var out := Outcome(was, if op.WriteTo? then WRITE else APPEND, op.data, p.err);
    RewrittenRefines(st, p.store, m, op.name, out, dir, cs);
    assert m[op.name := was] == m;
  }

  lemma ProperFrom(st: Store, m: Contents, dir: nat, cs: nat)
    requires Refines(st, m, dir, cs)
    ensures Proper(st, dir, cs)
  {
  }

  ghost predicate AllSupported(st: Store, ops: seq<Op>, dir: nat, cs: nat)
    requires Proper(st, dir, cs)
    decreases |ops|
  {
    ops != [] ==>
      && Supported(st, ops[0], dir, cs)
      && (StepProper(st, ops[0], dir, cs);
          AllSupported(Apply(st, ops[0], dir, cs).store, ops[1..], dir, cs))
  }

  /** A volume and what its user believes to have on it. */
  datatype Both = Both(store: Store, meant: Contents)

  ghost function Run(st: Store, m: Contents, ops: seq<Op>, dir: nat, cs: nat): Both
    requires Proper(st, dir, cs) && AllSupported(st, ops, dir, cs)
    decreases |ops|
  {
    if ops == [] then Both(st, m)
    else
      StepProper(st, ops[0], dir, cs);
      var p := Apply(st, ops[0], dir, cs);
      Run(p.store, Meant(m, ops[0], p.err), ops[1..], dir, cs)
  }

  /** Over every run of supported creations, WRITEs and APPENDs, whether they succeed or run out of space, the volume
      stays sound and its root directory holds exactly the files meant to be there, with the meant bytes. */
  lemma {:induction false} RunRefines(st: Store, m: Contents, ops: seq<Op>, dir: nat, cs: nat)
    requires Refines(st, m, dir, cs) && AllSupported(st, ops, dir, cs)
    ensures var r := Run(st, m, ops, dir, cs); Refines(r.store, r.meant, dir, cs)
    decreases |ops|
  {
    hide Refines, Supported, Apply, Meant, Proper;
    ProperFrom(st, m, dir, cs);
    if ops != [] {
      StepProper(st, ops[0], dir, cs);
      StepRefines(st, ops[0], m, dir, cs);
      var p := Apply(st, ops[0], dir, cs);
      RunRefines(p.store, Meant(m, ops[0], p.err), ops[1..], dir, cs);
    }
  }

  /** A freshly formatted volume: a root directory of one cluster of zeros, everything else free. */
  ghost predicate Formatted(st: Store, dir: nat, cs: nat) {
    && 2 <= dir < |st.table| == |st.clusters| <= CHAIN_END && cs > 0 && cs % SECTOR == 0
    && Held(st.clusters, cs) && Leading(st.clusters) && st.files == map[dir := [dir]]
    && Next(st.table, dir) >= READ_END && (forall c {:trigger Next(st.table, c)} :: 2 <= c < |st.table| && c != dir ==> Next(st.table, c) == 0)
    && st.clusters[dir] == Zeros(cs)
  }

  lemma FormattedSound(st: Store, dir: nat, cs: nat)
    requires Formatted(st, dir, cs)
    ensures SoundStore(st, dir, cs)
  {
    assert dir in st.files && st.files[dir] == [dir] && dir in st.files[dir];
    assert Owned(st.files, dir);
  }

  lemma FormattedRecords(st: Store, dir: nat, cs: nat)
    requires Formatted(st, dir, cs)
    ensures dir in st.files && st.files[dir] == [dir] && InRange(st.clusters, [dir]) && Listing(st.clusters, [dir]) == []
    ensures forall j :: 0 <= j < Count(st.clusters[dir]) ==> Record(st.clusters[dir], j) == Zeros(RECORD)
    ensures AllRecords(st.clusters, [dir]) == RecordsFrom(st.clusters[dir], dir, 0)
  {
    hide Listed;
    assert AllRecords(st.clusters, [dir][1..]) == [];
    ListedEnd(AllRecords(st.clusters, [dir]));
  }

  /** It holds no files. */
  lemma FormattedRefines(st: Store, dir: nat, cs: nat)
    requires Formatted(st, dir, cs)
    ensures Refines(st, map[], dir, cs)
  {
    hide Listed, RecordsFrom, AllRecords;
    FormattedSound(st, dir, cs);
    FormattedRecords(st, dir, cs);
  }

  lemma ListedEnd(rs: seq<Placed>)
    requires forall j :: 0 <= j < |rs| ==> |rs[j].rec| == RECORD && rs[j].rec[0] == ENTRY_END
    ensures Listed(rs) == []
  {
  }

  lemma SliceOfPrefix(s: seq<byte>, d: seq<byte>, p: nat, q: nat)
    requires d <= s && p <= q <= |d|
    ensures s[p..q] == d[p..q]
  {
  }

  /** After every such run, open, seek and read deliver the meant bytes: the path of a name leads to a file exactly when
      one is meant to be there, the entry found shows its size, and reading from any position of it on gives its bytes. */
  lemma ReadAfterRun(st: Store, m: Contents, ops: seq<Op>, dir: nat, cs: nat, name: seq<byte>, p: nat, n: nat)
    requires Refines(st, m, dir, cs) && AllSupported(st, ops, dir, cs) && IsName(name) && |name| <= MAX_COMPONENT
    ensures var r, path := Run(st, m, ops, dir, cs), Components(Merged([SLASH], name), 16);
            && Walkable(r.store.table, r.store.clusters, r.store.files, dir, path)
            && var found := Lookup(r.store.table, r.store.clusters, r.store.files, dir, path);
            && (name in r.meant <==> IsFile(found) && found.file.firstCluster in r.store.files)
            && (name in r.meant && p <= |r.meant[name]| ==>
                  var e, data, c := found.file, r.meant[name], AfterSeek(cs, Cursor(0, 0), p);
                  var own := r.store.files[e.firstCluster];
                  && e.size == |data| && Sized(r.store.clusters, own, cs)
                  && ReadBase(cs, c) + ReadCount(c, e.size, n) <= Times(cs, |own|)
                  && ReadBytes(Flat(r.store.clusters, own, cs), cs, c, e.size, n) == data[p..Min(p + n, |data|)])
  {
    hide Flat, AllSupported, Run, WellFormed, Walkable, Lookup, Named, Listed, AllRecords, Components, Merged, Tidy;
    RunRefines(st, m, ops, dir, cs);
    var r := Run(st, m, ops, dir, cs);
    RootPath(name);
    FileChain(r.store.table, r.store.files, dir);
    LookupOne(r.store.table, r.store.clusters, r.store.files, dir, name);
    if name in r.meant && p <= |r.meant[name]| {
      var e, data := Find(r.store, dir, name).file, r.meant[name];
      assert Filed(r.store, e, data, dir, cs);
      var own := Flat(r.store.clusters, r.store.files[e.firstCluster], cs);
      SeekThenRead(own, cs, Cursor(0, 0), |data|, p, n);
      SliceOfPrefix(own, data, p, Min(p + n, |data|));
    }
  }
}
