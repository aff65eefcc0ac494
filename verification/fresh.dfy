/** Runs on a freshly formatted volume: it takes a file, a second one, and what is written and appended to a file. */
module Fat32Fresh {
  import opened Bytes
  import opened Disks
  import opened Layout
  import opened Chains
  import opened Content
  import opened Records
  import opened FileSpec
  import opened FileErrors
  import opened Paths
  import opened Names
  import opened Fat32Files
  import opened Directories
  import opened Slots
  import opened Lookups
  import opened Entries
  import opened Fat32Runs
  import opened Fat32Wipes

  /** A file name that is found again under itself. */
  predicate Visible(n: seq<byte>) {
    IsName(n) && NUL !in n && |n| <= MAX_COMPONENT && IsNormal(n) && Encoded(n)[0] != ENTRY_DELETED
  }

  lemma AllFree(st: Store, dir: nat, cs: nat)
    requires Formatted(st, dir, cs)
    ensures InRange(st.clusters, [dir]) && SlotCluster(st.clusters, [dir]) == 0 && FreeFrom(st.clusters[dir], 0) == 0
    ensures SecondInSector(st.clusters[dir]) && IsFree(Record(st.clusters[dir], 1)) && SlotClean(st.clusters, [dir])
  {
    hide Listed;
    FormattedRecords(st, dir, cs);
    FreeFromIs(st.clusters[dir], 0);
    FirstSlot(st.clusters, [dir], 0);
    var rest := Ahead(st.clusters, [dir], 0, 1);
    assert [dir][1..] == [];
    assert AllRecords(st.clusters, []) == [];
    ListedEnd(rest);
  }

  lemma FreeOnDiskFree(t: seq<uint32>, cl: seq<seq<byte>>)
    requires 2 <= |t| == |cl| && Leading(cl) && FreeOnDisk(t, cl) != {}
    ensures LowestFree(t) < |t| && LowestFree(t) in FreeOnDisk(t, cl)
  {
    var e :| e in FreeOnDisk(t, cl);
    assert LowestFree(t) <= e;
    AllocationBackedIff(t, cl);
  }

  /** A formatted volume with a free cluster on the disk takes a file of any visible normal name, and has a second record
      for the next. */
  lemma FormattedCanMake(st: Store, a: seq<byte>, dir: nat, cs: nat)
    requires Formatted(st, dir, cs) && FreeOnDisk(st.table, st.clusters) != {} && Visible(a)
    ensures CanMake(st, a, dir, cs) && TwoFree(st, dir)
  {
    hide Listed, RecordsFrom, AllRecords, Encoded, IsNormal, Normal, LowestFree, WellFormed, Tidy;
    FormattedRefines(st, dir, cs);
    FormattedRecords(st, dir, cs);
    FreeOnDiskFree(st.table, st.clusters);
    AllFree(st, dir, cs);
  }

  /** The new file's cluster is the one free cluster that is gone. */
  lemma MadeFree(st: Store, a: seq<byte>, dir: nat, cs: nat)
    requires CanMake(st, a, dir, cs) && FreeOnDisk(st.table, st.clusters) != {}
    ensures var now := MadeStore(st, a, dir);
            && Proper(now, dir, cs) && |now.table| == |st.table| == |now.clusters|
            && |FreeOnDisk(now.table, now.clusters)| == |FreeOnDisk(st.table, st.clusters)| - 1
            && (now.clusters[LowestFree(st.table)] != [])
  {
    hide LowestFree, SlotCluster, SlotClean, Normal, Encoded, Tidy, WellFormed, Listing, Created, AllRecords, CanMake, Fresh, Find;
    CanMakeFacts(st, a, dir, cs);
    MadeSound(st, a, dir, cs);
    MadeTidy(st, a, LowestFree(st.table), dir, cs);
    CreatedInRange(st.clusters, st.files[dir], a, LowestFree(st.table));
    FreeOnDiskFree(st.table, st.clusters);
    var f, now := LowestFree(st.table), MadeStore(st, a, dir);
    FreeOnDiskSame(now.table, st.clusters, now.clusters);
    assert FreeOnDisk(now.table, st.clusters) == FreeOnDisk(st.table, st.clusters) - {f};
  }

  lemma StillEnds(rs: seq<Placed>, r: seq<Placed>)
    requires forall j :: 0 <= j < |rs| ==> |rs[j].rec| == RECORD && rs[j].rec[0] == ENTRY_END
    requires rs != [] && r == rs[1..]
    ensures forall j :: 0 <= j < |r| ==> |r[j].rec| == RECORD && r[j].rec[0] == ENTRY_END
    ensures Listed(r) == []
  {
    ListedEnd(r);
  }

  /** The record the file gets. */
  ghost function FirstRecord(st: Store, n: seq<byte>, dir: nat): (rec: seq<byte>)
    requires 2 <= |st.table| && LowestFree(st.table) < |st.table| < WRAP && dir < |st.clusters| && 0 < Count(st.clusters[dir])
    ensures |rec| == RECORD
  {
    NewRecord(Record(st.clusters[dir], 0), n, ATTR_ARCHIVE, LowestFree(st.table), 0)
  }

  lemma MadeCluster(st: Store, n: seq<byte>, dir: nat, cs: nat)
    requires Formatted(st, dir, cs) && CanMake(st, n, dir, cs)
    ensures 2 <= |st.table| && LowestFree(st.table) < |st.table| < WRAP && dir < |st.clusters| && 0 < Count(st.clusters[dir])
    ensures dir in st.files && st.files[dir] == [dir] && InRange(st.clusters, [dir]) && SlotCluster(st.clusters, [dir]) < 1
    ensures var now := MadeStore(st, n, dir);
            now.clusters == Inserted(st.clusters, [dir], 0, 0, FirstRecord(st, n, dir)) && dir in now.files && now.files[dir] == [dir]
  {
    hide SlotCluster, FreeFrom, NewRecord, WithRecord, LowestFree, CanMake, SlotClean;
    CanMakeFacts(st, n, dir, cs);
    FormattedRecords(st, dir, cs);
    AllFree(st, dir, cs);
    MadeFields(st, n, dir);
    MadeSound(st, n, dir, cs);
  }

  /** Behind the first file's record the directory of a formatted volume is still empty. */
  lemma NextClean(st: Store, a: seq<byte>, dir: nat, cs: nat)
    requires Formatted(st, dir, cs) && CanMake(st, a, dir, cs) && TwoFree(st, dir)
    ensures var now := MadeStore(st, a, dir);
            && dir in now.files && now.files[dir] == [dir] && InRange(now.clusters, [dir])
            && SlotCluster(now.clusters, [dir]) == 0 && SlotClean(now.clusters, [dir])
  {
    hide LowestFree, CanMake, TwoFree, Formatted, MadeStore, FirstRecord, Find, Inserted, Ahead, SlotCluster, FreeFrom, WithRecord;
    hide SlotClean, Listed;
    MadeCluster(st, a, dir, cs);
    AllFree(st, dir, cs);
    NextSlot(st, a, dir, cs);
    var now := MadeStore(st, a, dir);
    AheadEnds(st, dir, cs);
    AheadKept(st.clusters, dir, FirstRecord(st, a, dir), now.clusters);
    StillEnds(Ahead(now.clusters, [dir], 0, 1), Ahead(now.clusters, [dir], 0, 2));
    CleanBy(now.clusters, [dir]);
  }

  lemma AheadKept(cl: seq<seq<byte>>, dir: nat, rec: seq<byte>, now: seq<seq<byte>>)
    requires InRange(cl, [dir]) && 1 < Count(cl[dir]) && |rec| == RECORD && now == Inserted(cl, [dir], 0, 0, rec) && InRange(now, [dir])
    ensures Count(now[dir]) == Count(cl[dir]) && Ahead(now, [dir], 0, 1) == Ahead(cl, [dir], 0, 1) != []
    ensures Ahead(now, [dir], 0, 2) == Ahead(now, [dir], 0, 1)[1..]
  {
    hide Ahead, WithRecord;
    InsertFrame(cl, [dir], 0, 0, rec);
    AheadStep(now, [dir], 0, 1);
  }

  lemma CleanBy(cl: seq<seq<byte>>, ch: seq<nat>)
    requires InRange(cl, ch) && SlotCluster(cl, ch) == 0 && ch != [] && FreeFrom(cl[ch[0]], 0) == 1 && 1 < Count(cl[ch[0]])
    requires Listed(Ahead(cl, ch, 0, 2)) == []
    ensures SlotClean(cl, ch)
  {
    hide Listed, Ahead;
  }

  lemma AheadEnds(st: Store, dir: nat, cs: nat)
    requires Formatted(st, dir, cs)
    ensures InRange(st.clusters, [dir]) && 1 < Count(st.clusters[dir])
    ensures forall j :: 0 <= j < |Ahead(st.clusters, [dir], 0, 1)| ==> Ahead(st.clusters, [dir], 0, 1)[j].rec[0] == ENTRY_END
  {
    FormattedRecords(st, dir, cs);
    assert [dir][1..] == [];
  }

  /** And with two free clusters on the disk it takes a second file of another such name. */
  lemma FormattedTakesTwo(st: Store, a: seq<byte>, b: seq<byte>, dir: nat, cs: nat)
    requires Formatted(st, dir, cs) && |FreeOnDisk(st.table, st.clusters)| >= 2 && Visible(a) && Visible(b) && a != b
    ensures CanMake(st, a, dir, cs) && TwoFree(st, dir) && CanMake(MadeStore(st, a, dir), b, dir, cs)
  {
    hide LowestFree, SlotCluster, SlotClean, Normal, Encoded, IsNormal, Tidy, WellFormed, Listing, MadeStore, AllRecords, FreeOnDisk;
    FormattedCanMake(st, a, dir, cs);
    CanMakeFacts(st, a, dir, cs);
    var now := MadeStore(st, a, dir);
    MadeFree(st, a, dir, cs);
    NextClean(st, a, dir, cs);
    FormattedRecords(st, dir, cs);
    MadeFind(st, a, b, dir, cs);
    NormalIff(b);
    assert FreeOnDisk(now.table, now.clusters) != {};
    FreeOnDiskFree(now.table, now.clusters);
  }

  // ----- make, WRITE, APPEND

  /** The one record of a directory cluster is its first. */
  ghost predicate Alone(cl: seq<byte>, start: nat) {
    && |cl| % SECTOR == 0 && SECTOR <= |cl| && FirstCluster(Record(cl, 0)) == start
    && forall k :: RECORD <= k < |cl| ==> cl[k] == 0
  }

  lemma AloneIsClear(cl: seq<seq<byte>>, c: nat, start: nat)
    requires c < |cl| && Alone(cl[c], start)
    ensures MatchFrom(cl[c], start, 0) == 0 && TailClear(cl[c], 0) && ClearBehind(cl, c, start)
  {
    RoundUpWithin(RECORD, |cl[c]|);
  }

  lemma MadeAlone(st: Store, n: seq<byte>, dir: nat, cs: nat)
    requires Formatted(st, dir, cs) && CanMake(st, n, dir, cs) && TwoFree(st, dir)
    ensures var now := MadeStore(st, n, dir); dir < |now.clusters| && Alone(now.clusters[dir], LowestFree(st.table))
  {
    hide LowestFree, CanMake, TwoFree, MadeStore, FirstRecord, FirstCluster, SlotCluster, WithRecord, NewRecord;
    MadeCluster(st, n, dir, cs);
    NamesFirst(st, n, dir);
    OnlyRecord(st.clusters[dir], FirstRecord(st, n, dir));
  }

  lemma NamesFirst(st: Store, n: seq<byte>, dir: nat)
    requires 2 <= |st.table| && LowestFree(st.table) < |st.table| < WRAP && dir < |st.clusters| && 0 < Count(st.clusters[dir])
    ensures FirstCluster(FirstRecord(st, n, dir)) == LowestFree(st.table)
  {
    hide LowestFree, NewRecord, FirstCluster;
    NewRecordFields(Record(st.clusters[dir], 0), n, ATTR_ARCHIVE, LowestFree(st.table), 0);
  }

  lemma OnlyRecord(cl: seq<byte>, rec: seq<byte>)
    requires |cl| % SECTOR == 0 && SECTOR <= |cl| && cl == Zeros(|cl|) && |rec| == RECORD
    ensures Alone(WithRecord(cl, 0, rec), FirstCluster(rec))
  {
    hide FirstCluster;
    WithRecordAt(cl, 0, rec, 0);
  }

  lemma UpdatedAlone(cl: seq<byte>, start: nat, size: uint32)
    requires Alone(cl, start)
    ensures Alone(Updated(cl, 0, size), start)
  {
    hide Updated, FirstCluster;
    UpdatedOwn(cl, 0, size);
    SizeOnly(Record(cl, 0), 0, size);
    forall k | RECORD <= k < |cl|
      ensures Updated(cl, 0, size)[k] == 0
    {
      UpdatedElsewhere(cl, 0, size, k);
    }
  }

  /** A store with one file: its entry, its record alone in the directory, ready for the next write. */
  ghost predicate OneFile(st: Store, n: seq<byte>, e: FileEntry, dir: nat, cs: nat) {
    && Proper(st, dir, cs) && st.files[dir] == [dir] && Find(st, dir, n) == StatResult(SUCCESS, e) && !e.IsDirectory()
    && e.firstCluster in st.files && e.firstCluster != dir && e.parentCluster == dir
    && Sized(st.clusters, st.files[e.firstCluster], cs) && TailReady(st.files[e.firstCluster], cs, e.size)
    && dir < |st.clusters| && Alone(st.clusters[dir], e.firstCluster)
  }

  lemma MadeOneFile(st: Store, n: seq<byte>, dir: nat, cs: nat) returns (e: FileEntry)
    requires Formatted(st, dir, cs) && FreeOnDisk(st.table, st.clusters) != {} && Visible(n)
    ensures CanMake(st, n, dir, cs) && OneFile(MadeStore(st, n, dir), n, e, dir, cs) && e.size == 0
    ensures |MadeStore(st, n, dir).files[e.firstCluster]| == 1
    ensures var now := MadeStore(st, n, dir);
            |FreeOnDisk(now.table, now.clusters)| == |FreeOnDisk(st.table, st.clusters)| - 1
  {
    hide LowestFree, SlotCluster, SlotClean, Tidy, WellFormed, Listing, MadeStore, AllRecords, FreeOnDisk, Find, Filed, CanMake;
    hide Proper, Alone, Formatted, TwoFree, Sized, Visible, Quot, InRange, TailReady, Times, Flat, Rem;
    FormattedCanMake(st, n, dir, cs);
    FormattedRecords(st, dir, cs);
    CanMakeFacts(st, n, dir, cs);
    AllFree(st, dir, cs);
    var now := MadeStore(st, n, dir);
    MadeFree(st, n, dir, cs);
    MadeAlone(st, n, dir, cs);
    MadeEntry(st, n, dir, cs);
    NextClean(st, n, dir, cs);
    e := Find(now, dir, n).file;
    FiledFacts(now, e, [], dir, cs);
    FiledApart(now, e, [], dir, cs);
    NewTailReady(now.files[e.firstCluster], cs);
  }

  lemma NewTailReady(ch: seq<nat>, cs: nat)
    requires |ch| == 1 && cs > 0
    ensures TailReady(ch, cs, 0)
  {
    DivUnique(cs, 0, 0, 0);
  }

  lemma FiledApart(st: Store, e: FileEntry, data: seq<byte>, dir: nat, cs: nat)
    requires Filed(st, e, data, dir, cs)
    ensures e.firstCluster != dir
  {
  }

  lemma OnDiskIsFree(t: seq<uint32>, cl: seq<seq<byte>>)
    ensures |FreeOnDisk(t, cl)| <= |FreeSet(t)|
  {
    Fewer(FreeOnDisk(t, cl), FreeSet(t));
  }

  lemma {:induction false} Fewer(a: set<nat>, b: set<nat>)
    requires a <= b
    ensures |a| <= |b|
  {
    if a != {} {
      var c :| c in a;
      Fewer(a - {c}, b - {c});
    }
  }

  lemma OneFileFacts(st: Store, n: seq<byte>, e: FileEntry, dir: nat, cs: nat)
    requires OneFile(st, n, e, dir, cs)
    ensures Proper(st, dir, cs) && cs > 0 && dir in st.files && InRange(st.clusters, st.files[dir]) && st.files[dir] == [dir]
    ensures |st.clusters| == |st.table| && Held(st.clusters, cs) && Leading(st.clusters) && WellFormed(st.table, st.files)
    ensures Find(st, dir, n) == StatResult(SUCCESS, e) && IsFile(Find(st, dir, n)) && e.parentCluster == dir
    ensures e.firstCluster in st.files && e.firstCluster != dir && Chain(st.table, st.files[e.firstCluster])
    ensures Sized(st.clusters, st.files[e.firstCluster], cs) && TailReady(st.files[e.firstCluster], cs, e.size)
    ensures dir < |st.clusters| && Alone(st.clusters[dir], e.firstCluster)
  {
    hide Alone, Tidy, AllApart, RestFree, Find;
  }

  /** Such a file can be written and appended to as far as there are clusters. */
  lemma OneWritable(st: Store, n: seq<byte>, e: FileEntry, mode: WriteMode, k: nat, dir: nat, cs: nat)
    requires OneFile(st, n, e, dir, cs) && e.size + k < WRAP && mode != INSERT && (mode == WRITE ==> e.size == 0)
    requires var more := if mode == WRITE then Needed(k, cs) else |st.files[e.firstCluster]| + AppendNeeds(e.size, k, cs);
             more <= |st.files[e.firstCluster]| + |FreeOnDisk(st.table, st.clusters)|
    ensures Writable(st, e, mode, k, dir, cs)
  {
    hide Alone, Proper, FreeOnDisk, Needed, AppendNeeds, ClearBehind, TailReady, Sized, Find;
    OneFileFacts(st, n, e, dir, cs);
    AloneIsClear(st.clusters, dir, e.firstCluster);
  }

  /** Where the record of the one file is. */
  lemma OneSlot(st: Store, n: seq<byte>, e: FileEntry, dir: nat, cs: nat)
    requires OneFile(st, n, e, dir, cs)
    ensures PathTo(st, e, dir) == [dir] && MatchOnPath(st.clusters, [dir], e.firstCluster) == 0
    ensures SlotOf(st.clusters, [dir], e.firstCluster) == Slot(dir, 0)
  {
    hide Alone, Listing, AllRecords, FirstCluster, MatchFrom, Proper, Named, SlotOf, MatchOnPath;
    OneFileFacts(st, n, e, dir, cs);
    DirectoryFacts(st, dir, cs);
    AloneIsClear(st.clusters, dir, e.firstCluster);
    SlotFound(st.clusters, [dir], st.files, n);
  }

  /** A WRITE to the one file, still of one cluster, succeeds and leaves the one file, as many clusters poorer. */
  lemma WriteOne(st: Store, n: seq<byte>, e: FileEntry, data: seq<byte>, dir: nat, cs: nat)
    requires OneFile(st, n, e, dir, cs) && e.size == 0 && |data| < WRAP && |st.files[e.firstCluster]| == 1
    requires Needed(|data|, cs) <= 1 + |FreeOnDisk(st.table, st.clusters)|
    ensures Supported(st, WriteTo(n, data), dir, cs)
    ensures var p := Apply(st, WriteTo(n, data), dir, cs);
            && p.err == SUCCESS && OneFile(p.store, n, e.(size := |data|), dir, cs)
            && |FreeOnDisk(p.store.table, p.store.clusters)| + Needed(|data|, cs) == |FreeOnDisk(st.table, st.clusters)| + 1
  {
    hide *;
    OneFileFacts(st, n, e, dir, cs);
    OneWritable(st, n, e, WRITE, |data|, dir, cs);
    ThroughIs(st, n, WRITE, data, dir, cs);
    OneSlot(st, n, e, dir, cs);
    var v := Handle(st, e, WRITE, cs);
    var w := Written(v, e.firstCluster, [dir], cs, data).view;
    StoreFields(st, v);
    StoreFields(StoreOf(w), w);
    OnDiskIsFree(st.table, st.clusters);
    WriteOkIff(v, e.firstCluster, dir, [dir], cs, WRITE, data);
    WrittenContents(v, e.firstCluster, dir, [dir], cs, data);
    WrittenDirectory(v, e.firstCluster, dir, [dir], cs, data);
    WrittenFields(v, e.firstCluster, [dir], cs, data);
    WriteStep(st, n, data, dir, cs);
    Outcomes([], data);
    OneStays(st, v, w, n, e, data, dir, cs);
    OneGrown(st, v, e.firstCluster, [dir], data, dir, cs);
    FreeOnDiskSame(w.table, st.clusters, w.clusters);
    ApplyWrite(st, n, data, dir, cs);
  }

  lemma ApplyWrite(st: Store, n: seq<byte>, data: seq<byte>, dir: nat, cs: nat)
    requires Proper(st, dir, cs) && IsFile(Find(st, dir, n)) && Writable(st, Find(st, dir, n).file, WRITE, |data|, dir, cs)
    ensures Supported(st, WriteTo(n, data), dir, cs)
    ensures Apply(st, WriteTo(n, data), dir, cs) == Through(st, n, WRITE, data, dir, cs)
  {
    hide Proper, Find, Writable, Through;
  }

  lemma OneStays(st: Store, v: View, w: View, n: seq<byte>, e: FileEntry, data: seq<byte>, dir: nat, cs: nat)
    requires OneFile(st, n, e, dir, cs) && StoreOf(v) == st && |data| < WRAP
    requires FileStep(st, StoreOf(w), e, data, dir, cs) && DirectoryLeft(v, w, e.firstCluster, dir, [dir], cs)
    requires e.firstCluster in w.files && |w.files[e.firstCluster]| == Quot(|data|, cs) + 1
    ensures OneFile(StoreOf(w), n, e.(size := |data|), dir, cs)
    ensures |w.clusters| == |st.clusters| && forall c :: 0 <= c < |st.clusters| ==> |w.clusters[c]| == |st.clusters[c]|
  {
    hide Alone, Listing, Proper, Named, SlotOf, MatchOnPath, Updated, InDirectory, Flat, Find, OtherFilesKept;
    OneFileFacts(st, n, e, dir, cs);
    OneSlot(st, n, e, dir, cs);
    assert dir in st.files[dir];
    UpdatedAlone(st.clusters[dir], e.firstCluster, w.size);
  }

  lemma OneGrown(st: Store, v: View, start: nat, path: seq<nat>, data: seq<byte>, dir: nat, cs: nat)
    requires StoreOf(v) == st && Prepared(v, start, path, cs, WRITE, |data|) && Written(v, start, path, cs, data).err == SUCCESS
    requires Held(st.clusters, cs) && Leading(st.clusters) && |st.files[start]| == 1 && start in st.files
    requires Needed(|data|, cs) <= 1 + |FreeOnDisk(st.table, st.clusters)|
    ensures var w := Written(v, start, path, cs, data).view;
            |FreeOnDisk(w.table, st.clusters)| + Needed(|data|, cs) == |FreeOnDisk(st.table, st.clusters)| + 1
  {
    hide FreeOnDisk, Needed, SlotOf, Updated, Grow, MatchOnPath;
    var ch, m := st.files[start], Needed(|data|, cs);
    ChainIsPath(st.table, ch);
    GrowLeaves(st.table, st.clusters, ch, cs, m);
    GrowIsChain(st.table, ch, m);
  }

  /** An APPEND to the one file succeeds as far as there are clusters. */
  lemma AppendOne(st: Store, n: seq<byte>, e: FileEntry, data: seq<byte>, dir: nat, cs: nat)
    requires OneFile(st, n, e, dir, cs) && e.size + |data| < WRAP
    requires AppendNeeds(e.size, |data|, cs) <= |FreeOnDisk(st.table, st.clusters)|
    ensures Proper(st, dir, cs) && Supported(st, AppendTo(n, data), dir, cs)
    ensures Apply(st, AppendTo(n, data), dir, cs).err == SUCCESS
  {
    hide *;
    OneFileFacts(st, n, e, dir, cs);
    OneWritable(st, n, e, APPEND, |data|, dir, cs);
    ThroughIs(st, n, APPEND, data, dir, cs);
    OneSlot(st, n, e, dir, cs);
    var v := Handle(st, e, APPEND, cs);
    StoreFields(st, v);
    OnDiskIsFree(st.table, st.clusters);
    WriteOkIff(v, e.firstCluster, dir, [dir], cs, APPEND, data);
    ApplyAppend(st, n, data, dir, cs);
  }

  lemma ApplyAppend(st: Store, n: seq<byte>, data: seq<byte>, dir: nat, cs: nat)
    requires Proper(st, dir, cs) && IsFile(Find(st, dir, n)) && Writable(st, Find(st, dir, n).file, APPEND, |data|, dir, cs)
    ensures Supported(st, AppendTo(n, data), dir, cs)
    ensures Apply(st, AppendTo(n, data), dir, cs) == Through(st, n, APPEND, data, dir, cs)
  {
    hide Proper, Find, Writable, Through;
  }

  lemma ApplyMake(st: Store, n: seq<byte>, dir: nat, cs: nat)
    requires CanMake(st, n, dir, cs)
    ensures Proper(st, dir, cs) && Supported(st, Make(n), dir, cs) && dir in st.files && InRange(st.clusters, st.files[dir])
    ensures 2 <= |st.table| < WRAP && LowestFree(st.table) < |st.table| && SlotCluster(st.clusters, st.files[dir]) < |st.files[dir]|
    ensures Apply(st, Make(n), dir, cs) == Step(MadeStore(st, n, dir), SUCCESS)
  {
    hide Proper, Find, MadeStore, Fresh, LowestFree, SlotCluster;
    CanMakeFacts(st, n, dir, cs);
  }

  /** One operation in front of a run. */
  lemma RunCons(st: Store, m: Contents, op: Op, rest: seq<Op>, dir: nat, cs: nat)
    requires Proper(st, dir, cs) && Supported(st, op, dir, cs)
    requires Proper(Apply(st, op, dir, cs).store, dir, cs) && AllSupported(Apply(st, op, dir, cs).store, rest, dir, cs)
    ensures AllSupported(st, [op] + rest, dir, cs)
    ensures var p := Apply(st, op, dir, cs);
            Run(st, m, [op] + rest, dir, cs) == Run(p.store, Meant(m, op, p.err), rest, dir, cs)
  {
    hide Proper, Supported, Apply, Meant;
    assert ([op] + rest)[1..] == rest;
  }

  lemma RunOne(st: Store, m: Contents, op: Op, dir: nat, cs: nat)
    requires Proper(st, dir, cs) && Supported(st, op, dir, cs)
    ensures AllSupported(st, [op], dir, cs)
    ensures Run(st, m, [op], dir, cs) == Both(Apply(st, op, dir, cs).store, Meant(m, op, Apply(st, op, dir, cs).err))
  {
    hide Proper, Supported, Apply, Meant;
    StepProper(st, op, dir, cs);
    RunCons(st, m, op, [], dir, cs);
    assert [op] + [] == [op];
  }

  /** On a freshly formatted volume with enough clusters on the disk, a file can be made, written and appended to; the
      volume then holds this file alone, with both pieces one after the other. */
  lemma FreshRun(st: Store, n: seq<byte>, a: seq<byte>, b: seq<byte>, dir: nat, cs: nat)
    requires Formatted(st, dir, cs) && Visible(n) && |a| + |b| < WRAP
    requires Needed(|a|, cs) + AppendNeeds(|a|, |b|, cs) <= |FreeOnDisk(st.table, st.clusters)|
    ensures var ops := [Make(n), WriteTo(n, a), AppendTo(n, b)];
            && Proper(st, dir, cs) && AllSupported(st, ops, dir, cs)
            && var r := Run(st, map[], ops, dir, cs);
               r.meant == map[n := a + b] && Refines(r.store, map[n := a + b], dir, cs)
  {
    hide *;
    FormattedRefines(st, dir, cs);
    ProperFrom(st, map[], dir, cs);
    SomeFree(st, |a|, |b|, dir, cs);
    var e := MadeOneFile(st, n, dir, cs);
    ApplyMake(st, n, dir, cs);
    var one := MadeStore(st, n, dir);
    OneFileFacts(one, n, e, dir, cs);
    WriteOne(one, n, e, a, dir, cs);
    var p := Apply(one, WriteTo(n, a), dir, cs);
    AppendOne(p.store, n, e.(size := |a|), b, dir, cs);
    MeantThree(n, a, b);
    var m: Contents := map[];
    RunOne(p.store, Meant(Meant(m, Make(n), SUCCESS), WriteTo(n, a), SUCCESS), AppendTo(n, b), dir, cs);
    RunCons(one, Meant(m, Make(n), SUCCESS), WriteTo(n, a), [AppendTo(n, b)], dir, cs);
    RunCons(st, m, Make(n), [WriteTo(n, a)] + [AppendTo(n, b)], dir, cs);
    assert [Make(n)] + ([WriteTo(n, a)] + [AppendTo(n, b)]) == [Make(n), WriteTo(n, a), AppendTo(n, b)];
    RunRefines(st, map[], [Make(n), WriteTo(n, a), AppendTo(n, b)], dir, cs);
  }

  lemma SomeFree(st: Store, k: nat, j: nat, dir: nat, cs: nat)
    requires Formatted(st, dir, cs) && k + j < WRAP && Needed(k, cs) <= |FreeOnDisk(st.table, st.clusters)|
    ensures FreeOnDisk(st.table, st.clusters) != {} && cs > 0 && k < 0x1_0000_0000
  {
  }

  lemma MeantThree(n: seq<byte>, a: seq<byte>, b: seq<byte>)
    requires Visible(n)
    ensures var m: Contents := map[];
            Meant(Meant(Meant(m, Make(n), SUCCESS), WriteTo(n, a), SUCCESS), AppendTo(n, b), SUCCESS) == map[n := a + b]
  {
    NormalIff(n);
  }

  /** From a fresh volume on: two files made one after the other, then a short WRITE to the first, and the second is gone. */
  lemma FreshFileLost(st: Store, a: seq<byte>, b: seq<byte>, data: seq<byte>, dir: nat, cs: nat)
    requires Formatted(st, dir, cs) && |FreeOnDisk(st.table, st.clusters)| >= 2 && Visible(a) && Visible(b) && a != b && |data| < cs
    ensures CanMake(st, a, dir, cs) && CanMake(MadeStore(st, a, dir), b, dir, cs)
    ensures var two := MadeStore(MadeStore(st, a, dir), b, dir);
            && Proper(two, dir, cs) && IsFile(Find(two, dir, a)) && IsFile(Find(two, dir, b))
            && var e := Find(two, dir, a).file;
               && e.firstCluster in two.files
               && Prepared(Handle(two, e, WRITE, cs), e.firstCluster, PathTo(two, e, dir), cs, WRITE, |data|)
               && var r := Written(Handle(two, e, WRITE, cs), e.firstCluster, PathTo(two, e, dir), cs, data);
                  && r.err == SUCCESS && dir in r.view.files && InRange(r.view.clusters, r.view.files[dir])
                  && Find(StoreOf(r.view), dir, b).err == NOT_FOUND
  {
    hide *;
    FormattedTakesTwo(st, a, b, dir, cs);
    CanMakeFacts(st, a, dir, cs);
    SecondFileLost(st, a, b, data, dir, cs);
  }
}
