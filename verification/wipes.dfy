/** What a write does to the files whose records lie behind its own: the write-back of a record clears the rest of its
    sector, and a cleared record ends the directory. */
module Fat32Wipes {
  import opened Bytes
  import opened Disks
  import opened Layout
  import opened Chains
  import opened Content
  import opened Records
  import opened FileSpec
  import opened FileErrors
  import opened Paths
  import opened Names
  import opened Fat32Files
  import opened Directories
  import opened Slots
  import opened Lookups
  import opened Entries
  import opened Fat32Runs

  /** A complete WRITE wipes every record behind the file's in the same sector, whatever it holds. */
  lemma NeighboursWiped(v: View, start: nat, dir: nat, path: seq<nat>, cs: nat, data: seq<byte>, j: nat)
    requires InDirectory(v, start, dir, path, cs) && Prepared(v, start, path, cs, WRITE, |data|)
    requires Written(v, start, path, cs, data).err == SUCCESS
    requires var s := SlotOf(v.clusters, path, start);
             s.index < j < Count(v.clusters[s.cluster]) && j / IN_SECTOR == s.index / IN_SECTOR
    ensures var s, w := SlotOf(v.clusters, path, start), Written(v, start, path, cs, data).view;
            s.cluster < |w.clusters| && j < Count(w.clusters[s.cluster]) && Record(w.clusters[s.cluster], j) == Zeros(RECORD)
  {
    hide Replace, SlotOf, AddSize, Updated, WellFormed;
    var s, w := SlotOf(v.clusters, path, start), Written(v, start, path, cs, data).view;
    BehindWiped(v.clusters[s.cluster], s.index, w.size, j);
  }

  lemma {:induction false} ListedToEnd(a: seq<Placed>, b: seq<Placed>)
    requires (forall j :: 0 <= j < |a| ==> |a[j].rec| == RECORD) && (forall j :: 0 <= j < |b| ==> |b[j].rec| == RECORD)
    requires b != [] && b[0].rec[0] == ENTRY_END
    ensures Listed(a + b) == Listed(a)
  {
    if a == [] {
      assert a + b == b;
    } else {
      hide Converted, Skipped;
      ListedToEnd(a[1..], b);
      assert (a + b)[0] == a[0] && (a + b)[1..] == a[1..] + b;
    }
  }

  /** After the write-back of a record that is not the last of its sector, the directory lists what lies in front of the
      record and the record itself, and nothing any more that lay behind it. */
  lemma ListingCut(cl: seq<seq<byte>>, ch: seq<nat>, k: nat, i: nat, size: uint32)
    requires InRange(cl, ch) && Distinct(ch) && k < |ch| && |cl[ch[k]]| % SECTOR == 0
    requires i + 1 < Count(cl[ch[k]]) && (i + 1) / IN_SECTOR == i / IN_SECTOR
    ensures var dl, rec := cl[ch[k] := Updated(cl[ch[k]], i, size)], WithSize(Record(cl[ch[k]], i), size);
            InRange(dl, ch) && Listing(dl, ch) == Listed(Before(cl, ch, k, i) + [Placed(rec, ch[k])])
  {
    hide AllRecords, RecordsFrom, Updated, WithSize, Ahead, Listed;
    var was := cl[ch[k]];
    var dl := cl[ch[k] := Updated(was, i, size)];
    var p := Placed(WithSize(Record(was, i), size), ch[k]);
    BehindWiped(was, i, size, i + 1);
    AllSplit(dl, ch, k, i + 1);
    AheadStep(dl, ch, k, i + 1);
    UpToWritten(cl, ch, k, i, size);
    ListedToEnd(Before(cl, ch, k, i) + [p], Ahead(dl, ch, k, i + 1));
  }

  lemma UpToWritten(cl: seq<seq<byte>>, ch: seq<nat>, k: nat, i: nat, size: uint32)
    requires InRange(cl, ch) && Distinct(ch) && k < |ch| && |cl[ch[k]]| % SECTOR == 0 && i < Count(cl[ch[k]])
    ensures var dl, rec := cl[ch[k] := Updated(cl[ch[k]], i, size)], WithSize(Record(cl[ch[k]], i), size);
            InRange(dl, ch) && Before(dl, ch, k, i + 1) == Before(cl, ch, k, i) + [Placed(rec, ch[k])]
  {
    hide AllRecords, Updated, WithSize;
    var was, now := cl[ch[k]], Updated(cl[ch[k]], i, size);
    var dl := cl[ch[k] := now];
    AllRecordsFrame(cl, dl, ch[..k]);
    UpdatedOwn(was, i, size);
    forall j | 0 <= j < i
      ensures Record(now, j) == Record(was, j)
    {
      InFront(was, i, size, j);
    }
    assert RecordsFrom(now, ch[k], 0)[..i + 1] == RecordsFrom(was, ch[k], 0)[..i] + [Placed(WithSize(Record(was, i), size), ch[k])];
  }

  lemma InFront(cl: seq<byte>, i: nat, size: uint32, j: nat)
    requires |cl| % SECTOR == 0 && j < i < Count(cl)
    ensures Record(Updated(cl, i, size), j) == Record(cl, j)
  {
    hide Updated;
    forall k | RECORD * j <= k < RECORD * (j + 1)
      ensures Updated(cl, i, size)[k] == cl[k]
    {
      UpdatedElsewhere(cl, i, size, k);
    }
  }

  /** A new size in the last record leaves the names as they are. */
  lemma {:induction false} LastResized(b: seq<Placed>, p: Placed, size: uint32)
    requires (forall j :: 0 <= j < |b| ==> |b[j].rec| == RECORD) && |p.rec| == RECORD
    ensures var was, now := Listed(b + [p]), Listed(b + [p.(rec := WithSize(p.rec, size))]);
            |now| == |was| && forall j :: 0 <= j < |was| ==> now[j].name == was[j].name
  {
    hide Converted, WithSize, Skipped;
    var q := p.(rec := WithSize(p.rec, size));
    if b == [] {
      SizeOnly(p.rec, p.cluster, size);
      SameSkipped(p.rec, size);
      assert b + [p] == [p] && b + [q] == [q] && [p][1..] == [] && [q][1..] == [];
      ListedStep([p]);
      ListedStep([q]);
      ListedNothing();
    } else {
      LastResized(b[1..], p, size);
      assert (b + [p])[1..] == b[1..] + [p] && (b + [q])[1..] == b[1..] + [q];
      ListedStep(b + [p]);
      ListedStep(b + [q]);
    }
  }

  lemma SameSkipped(rec: seq<byte>, size: uint32)
    requires |rec| == RECORD
    ensures Skipped(WithSize(rec, size)) == Skipped(rec)
  {
    SizeOnly(rec, 0, size);
  }

  /** The names that come before or with the record in the directory's listing. */
  ghost function ListedUpTo(st: Store, k: nat, i: nat, dir: nat): (l: seq<FileEntry>)
    requires dir in st.files && InRange(st.clusters, st.files[dir]) && k < |st.files[dir]|
    requires i < Count(st.clusters[st.files[dir][k]])
    ensures AllTerminated(l)
  {
    Listed(Before(st.clusters, st.files[dir], k, i + 1))
  }

  /** The record of an opened file, not the last one of its sector, is the `i`-th of the directory's `k`-th cluster. */
  ghost predicate RecordAt(st: Store, e: FileEntry, k: nat, i: nat, dir: nat) {
    && dir in st.files && k < |st.files[dir]|
    && (forall j :: 0 <= j < |PathTo(st, e, dir)| ==> PathTo(st, e, dir)[j] < |st.clusters|)
    && MatchOnPath(st.clusters, PathTo(st, e, dir), e.firstCluster) < |PathTo(st, e, dir)|
    && SlotOf(st.clusters, PathTo(st, e, dir), e.firstCluster) == Slot(st.files[dir][k], i)
    && i + 1 < Count(st.clusters[st.files[dir][k]]) && (i + 1) / IN_SECTOR == i / IN_SECTOR
  }

  /** So after a complete WRITE to a file, a name that is not listed up to that file's record can no longer be found. */
  lemma FileLost(st: Store, e: FileEntry, g: seq<byte>, k: nat, i: nat, data: seq<byte>, dir: nat, cs: nat)
    requires Proper(st, dir, cs) && e.firstCluster in st.files && RecordAt(st, e, k, i, dir)
    requires var v, path := Handle(st, e, WRITE, cs), PathTo(st, e, dir);
             && InDirectory(v, e.firstCluster, dir, path, cs) && Prepared(v, e.firstCluster, path, cs, WRITE, |data|)
             && Written(v, e.firstCluster, path, cs, data).err == SUCCESS
    requires Named(ListedUpTo(st, k, i, dir), g).err == NOT_FOUND
    ensures var w := Written(Handle(st, e, WRITE, cs), e.firstCluster, PathTo(st, e, dir), cs, data).view;
            dir in w.files && InRange(w.clusters, w.files[dir]) && Find(StoreOf(w), dir, g).err == NOT_FOUND
  {
    hide AllRecords, Listed, Updated, WithSize, Named, Written, Prepared, InDirectory, SlotOf, MatchOnPath, Before, Tidy, WellFormed;
    var v, path, ch := Handle(st, e, WRITE, cs), PathTo(st, e, dir), st.files[dir];
    var w := Written(v, e.firstCluster, path, cs, data).view;
    DirectoryFacts(st, dir, cs);
    WrittenDirectory(v, e.firstCluster, dir, path, cs, data);
    var dl := st.clusters[ch[k] := Updated(st.clusters[ch[k]], i, w.size)];
    WipedFrame(st, v, w, e, k, i, dir, cs);
    ListingCut(st.clusters, ch, k, i, w.size);
    AllRecordsFrame(dl, w.clusters, ch);
    RangeFrame(dl, w.clusters, ch);
    LastNames(st, k, i, w.size, g, dir);
  }

  lemma WipedFrame(st: Store, v: View, w: View, e: FileEntry, k: nat, i: nat, dir: nat, cs: nat)
    requires StoreOf(v) == st && RecordAt(st, e, k, i, dir) && DirectoryLeft(v, w, e.firstCluster, dir, PathTo(st, e, dir), cs)
    ensures |st.clusters[st.files[dir][k]]| % SECTOR == 0 && |w.clusters| == |st.clusters|
    ensures dir in w.files && w.files[dir] == st.files[dir]
    ensures var ch := st.files[dir];
            forall j :: 0 <= j < |ch| ==>
              ch[j] < |st.clusters| && w.clusters[ch[j]] == st.clusters[ch[k] := Updated(st.clusters[ch[k]], i, w.size)][ch[j]]
  {
    hide Updated, SlotOf, MatchOnPath, WellFormed;
    var ch := st.files[dir];
    assert SlotOf(v.clusters, PathTo(st, e, dir), e.firstCluster).cluster in PathTo(st, e, dir);
    forall j | 0 <= j < |ch|
      ensures ch[j] < |st.clusters| && w.clusters[ch[j]] == st.clusters[ch[k] := Updated(st.clusters[ch[k]], i, w.size)][ch[j]]
    {
      assert ch[j] in ch;
    }
  }

  lemma LastNames(st: Store, k: nat, i: nat, size: uint32, g: seq<byte>, dir: nat)
    requires dir in st.files && InRange(st.clusters, st.files[dir]) && Distinct(st.files[dir]) && k < |st.files[dir]|
    requires var cl := st.clusters[st.files[dir][k]]; i < Count(cl) && |cl| % SECTOR == 0
    ensures var cl, ch := st.clusters, st.files[dir];
            var l := Listed(Before(cl, ch, k, i) + [Placed(WithSize(Record(cl[ch[k]], i), size), ch[k])]);
            Named(l, g).err == Named(ListedUpTo(st, k, i, dir), g).err
  {
    hide Listed, AllRecords, WithSize;
    var cl, ch := st.clusters, st.files[dir];
    var b, p := Before(cl, ch, k, i), Placed(Record(cl[ch[k]], i), ch[k]);
    assert Before(cl, ch, k, i + 1) == b + [p];
    LastResized(b, p, size);
    FirstNamedSame(Listed(b + [p]), Listed(b + [p.(rec := WithSize(p.rec, size))]), g);
  }

  // ----- two files made one after the other

  lemma {:induction false} ListedPrefix(a: seq<Placed>, b: seq<Placed>)
    requires (forall j :: 0 <= j < |a| ==> |a[j].rec| == RECORD) && (forall j :: 0 <= j < |b| ==> |b[j].rec| == RECORD)
    ensures Listed(a) <= Listed(a + b)
  {
    if a == [] {
    } else {
      hide Converted, Skipped;
      ListedPrefix(a[1..], b);
      assert (a + b)[0] == a[0] && (a + b)[1..] == a[1..] + b;
      ListedStep(a);
      ListedStep(a + b);
      var l, r := Listed(a), Listed(a + b);
      if l != [] && !Skipped(a[0].rec) && a[0].rec[0] != ENTRY_END {
        assert l == [l[0]] + l[1..] && r == [r[0]] + r[1..];
      }
    }
  }

  lemma NotInPrefix(a: seq<FileEntry>, l: seq<FileEntry>, n: seq<byte>)
    requires a <= l && AllTerminated(l) && Named(l, n).err == NOT_FOUND
    ensures AllTerminated(a) && Named(a, n).err == NOT_FOUND
  {
    hide CStr;
    assert forall j :: 0 <= j < |a| ==> a[j] == l[j];
  }

  /** In a directory that names every chain once, the record naming a chain is the first match in its cluster. */
  lemma MatchIs(cl: seq<seq<byte>>, ch: seq<nat>, fs: Files, k: nat, i: nat)
    requires InRange(cl, ch) && Distinct(ch) && k < |ch| && i < Count(cl[ch[k]])
    requires NamedOnce(AllRecords(cl, ch), fs) && FirstCluster(Record(cl[ch[k]], i)) in fs
    ensures MatchFrom(cl[ch[k]], FirstCluster(Record(cl[ch[k]], i)), 0) == i
  {
    hide AllRecords, RecordsFrom, Ahead, FirstCluster, MatchFrom;
    var start := FirstCluster(Record(cl[ch[k]], i));
    NamingIsMatch(cl[ch[k]], i, start);
    var j := MatchFrom(cl[ch[k]], start, 0);
    assert j <= i;
    PlaceOf(cl, ch, k, i);
    PlaceOf(cl, ch, k, j);
    var rs := AllRecords(cl, ch);
    assert j == i;
  }

  /** Where a record stands among all records of the directory. */
  lemma PlaceOf(cl: seq<seq<byte>>, ch: seq<nat>, k: nat, i: nat)
    requires InRange(cl, ch) && k < |ch| && i < Count(cl[ch[k]])
    ensures InRange(cl, ch[..k]) && |Before(cl, ch, k, i)| == |AllRecords(cl, ch[..k])| + i < |AllRecords(cl, ch)|
    ensures AllRecords(cl, ch)[|Before(cl, ch, k, i)|] == Placed(Record(cl[ch[k]], i), ch[k])
  {
    hide AllRecords, RecordsFrom, Ahead;
    AllSplit(cl, ch, k, i);
    AheadStep(cl, ch, k, i);
  }

  /** The record behind the first free one is in the same sector. */
  predicate SecondInSector(cl: seq<byte>) {
    var i := FreeFrom(cl, 0);
    i + 1 < Count(cl) && (i + 1) / IN_SECTOR == i / IN_SECTOR
  }

  /** The directory offers two free records in a row of one sector. */
  ghost predicate TwoFree(st: Store, dir: nat)
    requires dir in st.files && InRange(st.clusters, st.files[dir])
  {
    var ch := st.files[dir];
    var k := SlotCluster(st.clusters, ch);
    k < |ch| &&
    SecondInSector(st.clusters[ch[k]]) && IsFree(Record(st.clusters[ch[k]], FreeFrom(st.clusters[ch[k]], 0) + 1))
  }

  /** A file of this name can be made now. */
  ghost predicate CanMake(st: Store, n: seq<byte>, dir: nat, cs: nat) {
    && Proper(st, dir, cs) && Supported(st, Make(n), dir, cs) && Find(st, dir, n).err != SUCCESS && IsNormal(n)
    && LowestFree(st.table) < |st.table|
  }

  lemma FreeFromIs(cl: seq<byte>, i: nat)
    requires i < Count(cl) && IsFree(Record(cl, i)) && forall j :: 0 <= j < i ==> !IsFree(Record(cl, j))
    ensures FreeFrom(cl, 0) == i && HasSlot(cl)
  {
    var r := FreeFrom(cl, 0);
    assert r <= i;
    assert !(r < i);
  }

  /** The slot a second file gets is the one behind the first's. */
  lemma NextSlot(st: Store, a: seq<byte>, dir: nat, cs: nat)
    requires CanMake(st, a, dir, cs) && TwoFree(st, dir)
    ensures var ch, now := st.files[dir], MadeStore(st, a, dir);
            var k := SlotCluster(st.clusters, ch);
            && dir in now.files && now.files[dir] == ch && InRange(now.clusters, ch)
            && SlotCluster(now.clusters, ch) == k && FreeFrom(now.clusters[ch[k]], 0) == FreeFrom(st.clusters[ch[k]], 0) + 1
            && FirstCluster(Record(now.clusters[ch[k]], FreeFrom(st.clusters[ch[k]], 0))) == LowestFree(st.table)
            && ch[k] < |now.clusters| && |now.clusters[ch[k]]| == |st.clusters[ch[k]]| && SecondInSector(st.clusters[ch[k]])
  {
    hide LowestFree, FreeFrom, WellFormed, Tidy, Find, AllRecords, NewRecord, WithRecord, Encoded, FirstCluster, SlotClean, Listing;
    hide HasSlot, SecondInSector, IsFree, Chain;
    var ch, now, f := st.files[dir], MadeStore(st, a, dir), LowestFree(st.table);
    var k := SlotCluster(st.clusters, ch);
    var i, was := FreeFrom(st.clusters[ch[k]], 0), st.clusters[ch[k]];
    SlotThere(was);
    var rec := NewRecord(Record(was, i), a, ATTR_ARCHIVE, f, 0);
    MadeSound(st, a, dir, cs);
    ChainDistinct(st.table, ch);
    NewRecordFields(Record(was, i), a, ATTR_ARCHIVE, f, 0);
    assert rec[0] == rec[..NAME_SIZE][0] == Encoded(a)[0];
    InUse(st, a, rec, dir);
    NextFree(was, i, rec);
    WithRecordAt(was, i, rec, i);
    FirstSlot(now.clusters, ch, k);
  }

  lemma SlotThere(cl: seq<byte>)
    ensures HasSlot(cl) ==> FreeFrom(cl, 0) < Count(cl)
  {
  }

  lemma InUse(st: Store, a: seq<byte>, rec: seq<byte>, dir: nat)
    requires dir in st.files && InRange(st.clusters, st.files[dir]) && Fresh(st, a, dir) && NUL !in a
    requires |rec| == RECORD && rec[0] == Encoded(a)[0]
    ensures !IsFree(rec)
  {
    hide Find, SlotCluster, SlotClean, Normal, Encoded;
    EncodedHead(a);
  }

  lemma NextFree(was: seq<byte>, i: nat, rec: seq<byte>)
    requires i == FreeFrom(was, 0) && SecondInSector(was) && IsFree(Record(was, i + 1)) && |rec| == RECORD && !IsFree(rec)
    ensures FreeFrom(WithRecord(was, i, rec), 0) == i + 1 && HasSlot(WithRecord(was, i, rec))
  {
    hide FreeFrom, WithRecord, IsFree;
    var now := WithRecord(was, i, rec);
    forall j | 0 <= j < Count(was)
      ensures Record(now, j) == if j == i then rec else Record(was, j)
    {
      WithRecordAt(was, i, rec, j);
    }
    FreeFromIs(now, i + 1);
  }

  lemma FirstSlot(cl: seq<seq<byte>>, ch: seq<nat>, k: nat)
    requires InRange(cl, ch) && k < |ch| && HasSlot(cl[ch[k]]) && forall j :: 0 <= j < k ==> !HasSlot(cl[ch[j]])
    ensures SlotCluster(cl, ch) == k
  {
    hide HasSlot;
    var r := SlotCluster(cl, ch);
    assert r <= k;
    assert !(r < k);
  }

  lemma CanMakeFacts(st: Store, n: seq<byte>, dir: nat, cs: nat)
    requires CanMake(st, n, dir, cs)
    ensures Proper(st, dir, cs) && SoundStore(st, dir, cs) && dir in st.files && InRange(st.clusters, st.files[dir])
    ensures 2 <= |st.table| < WRAP && LowestFree(st.table) < |st.table|
    ensures SlotCluster(st.clusters, st.files[dir]) < |st.files[dir]|
    ensures st.files[dir][SlotCluster(st.clusters, st.files[dir])] < |st.clusters|
    ensures Fresh(st, n, dir) && NUL !in n && Normal(n) == n && Find(st, dir, n).err == NOT_FOUND
  {
    hide LowestFree, SlotCluster, SlotClean, Normal, Encoded, Tidy, WellFormed, IsNormal, AllRecords, Listing;
    NormalIff(n);
  }

  lemma MadeEntry(st: Store, a: seq<byte>, dir: nat, cs: nat)
    requires CanMake(st, a, dir, cs)
    ensures var now, ch, f := MadeStore(st, a, dir), st.files[dir], LowestFree(st.table);
            && dir in now.files && InRange(now.clusters, now.files[dir]) && f in now.files && now.files[f] == [f]
            && var r := Find(now, dir, a);
               && IsFile(r) && r.file.parentCluster == ch[SlotCluster(st.clusters, ch)] && r.file.firstCluster == f
               && Filed(now, r.file, [], dir, cs)
  {
    hide LowestFree, SlotCluster, SlotClean, Normal, Encoded, Tidy, WellFormed, Listing, Created, Filed;
    CanMakeFacts(st, a, dir, cs);
    MadeSound(st, a, dir, cs);
    MadeFind(st, a, a, dir, cs);
    MadeFiled(st, a, dir, cs);
  }

  /** Making another file leaves this one as it is. */
  lemma EntryStays(st: Store, b: seq<byte>, a: seq<byte>, e: FileEntry, dir: nat, cs: nat)
    requires CanMake(st, b, dir, cs) && a != b && Find(st, dir, a) == StatResult(SUCCESS, e) && Filed(st, e, [], dir, cs)
    ensures var now := MadeStore(st, b, dir);
            && Proper(now, dir, cs) && now.files[dir] == st.files[dir] && Find(now, dir, a) == Find(st, dir, a)
            && Filed(now, e, [], dir, cs) && e.firstCluster in st.files && now.files[e.firstCluster] == st.files[e.firstCluster]
  {
    hide LowestFree, SlotCluster, SlotClean, Normal, Encoded, Tidy, WellFormed, Listing, Created, Filed, AllRecords;
    CanMakeFacts(st, b, dir, cs);
    MadeSound(st, b, dir, cs);
    MadeTidy(st, b, LowestFree(st.table), dir, cs);
    MadeFind(st, b, a, dir, cs);
    FiledFacts(st, e, [], dir, cs);
    MadeOthers(st, b, e, [], dir, cs);
  }

  /** The second record goes behind the first, which stays; no name in front of it is the second file's. */
  lemma BehindFirst(st: Store, b: seq<byte>, k: nat, i: nat, dir: nat, cs: nat)
    requires CanMake(st, b, dir, cs)
    requires k == SlotCluster(st.clusters, st.files[dir]) && i + 1 == FreeFrom(st.clusters[st.files[dir][k]], 0)
    ensures var now, ch := MadeStore(st, b, dir), st.files[dir];
            && dir in now.files && now.files[dir] == ch && InRange(now.clusters, ch) && i < Count(now.clusters[ch[k]])
            && ch[k] < |now.clusters| && |now.clusters[ch[k]]| == |st.clusters[ch[k]]|
            && Record(now.clusters[ch[k]], i) == Record(st.clusters[ch[k]], i)
            && Named(ListedUpTo(now, k, i, dir), b).err == NOT_FOUND
  {
    hide LowestFree, FreeFrom, WellFormed, Tidy, AllRecords, NewRecord, WithRecord, Encoded, FirstCluster, SlotClean;
    hide Listed, Before, Ahead, Named, SlotCluster;
    CanMakeFacts(st, b, dir, cs);
    MadeSound(st, b, dir, cs);
    var ch, now, f, was := st.files[dir], MadeStore(st, b, dir), LowestFree(st.table), st.clusters[st.files[dir][k]];
    var rec := NewRecord(Record(was, i + 1), b, ATTR_ARCHIVE, f, 0);
    ChainDistinct(st.table, ch);
    WithRecordAt(was, i + 1, rec, i);
    assert now.clusters == Inserted(st.clusters, ch, k, i + 1, rec);
    InsertFrame(st.clusters, ch, k, i + 1, rec);
    AllSplit(st.clusters, ch, k, i + 1);
    ListedPrefix(Before(st.clusters, ch, k, i + 1), Ahead(st.clusters, ch, k, i + 1));
    NotInPrefix(Listed(Before(st.clusters, ch, k, i + 1)), Listing(st.clusters, ch), b);
  }

  lemma FoundAt(st: Store, a: seq<byte>, e: FileEntry, k: nat, i: nat, dir: nat, cs: nat)
    requires Proper(st, dir, cs) && Find(st, dir, a) == StatResult(SUCCESS, e) && e.firstCluster in st.files
    requires k < |st.files[dir]| && e.parentCluster == st.files[dir][k]
    requires var cl := st.clusters[st.files[dir][k]];
             && i + 1 < Count(cl) && (i + 1) / IN_SECTOR == i / IN_SECTOR && FirstCluster(Record(cl, i)) == e.firstCluster
    ensures RecordAt(st, e, k, i, dir)
  {
    hide WellFormed, AllRecords, Listed, Named, FirstCluster, FileSize, SlotOf, MatchOnPath, MatchFrom;
    DirectoryFacts(st, dir, cs);
    SlotFound(st.clusters, st.files[dir], st.files, a);
    MatchIs(st.clusters, st.files[dir], st.files, k, i);
  }

  lemma FileIs(r: StatResult)
    requires IsFile(r)
    ensures r == StatResult(SUCCESS, r.file)
  {
  }

  lemma InSector(cl: seq<byte>, dl: seq<byte>)
    requires SecondInSector(cl) && |dl| == |cl|
    ensures var i := FreeFrom(cl, 0); i + 1 < Count(dl) && (i + 1) / IN_SECTOR == i / IN_SECTOR
  {
  }

  /** The first of two files made one after the other is still found, empty, and the second one's name comes only
      behind its record. */
  lemma FirstOfTwo(st: Store, a: seq<byte>, b: seq<byte>, dir: nat, cs: nat) returns (e: FileEntry, k: nat, i: nat)
    requires CanMake(st, a, dir, cs) && TwoFree(st, dir) && CanMake(MadeStore(st, a, dir), b, dir, cs) && a != b
    ensures var two := MadeStore(MadeStore(st, a, dir), b, dir);
            && Proper(two, dir, cs) && Find(two, dir, a) == StatResult(SUCCESS, e) && IsFile(Find(two, dir, a)) && Filed(two, e, [], dir, cs)
            && |two.files[e.firstCluster]| == 1 && RecordAt(two, e, k, i, dir) && e.parentCluster in two.files[dir]
            && Named(ListedUpTo(two, k, i, dir), b).err == NOT_FOUND
  {
    hide *;
    CanMakeFacts(st, a, dir, cs);
    var one, ch := MadeStore(st, a, dir), st.files[dir];
    CanMakeFacts(one, b, dir, cs);
    k := SlotCluster(st.clusters, ch);
    i := FreeFrom(st.clusters[ch[k]], 0);
    MadeEntry(st, a, dir, cs);
    FileIs(Find(one, dir, a));
    e := Find(one, dir, a).file;
    FiledFacts(one, e, [], dir, cs);
    NextSlot(st, a, dir, cs);
    EntryStays(one, b, a, e, dir, cs);
    BehindFirst(one, b, k, i, dir, cs);
    var two := MadeStore(one, b, dir);
    InSector(st.clusters[ch[k]], two.clusters[ch[k]]);
    FiledFacts(two, e, [], dir, cs);
    FoundAt(two, a, e, k, i, dir, cs);
  }

  /** A file of one cluster that is not full afterwards can be written whatever else is on the volume. */
  lemma ShortWrite(st: Store, e: FileEntry, k: nat, i: nat, data: seq<byte>, dir: nat, cs: nat)
    requires Proper(st, dir, cs) && Filed(st, e, [], dir, cs) && |st.files[e.firstCluster]| == 1 && |data| < cs
    requires RecordAt(st, e, k, i, dir) && e.parentCluster in st.files[dir]
    ensures var v, path := Handle(st, e, WRITE, cs), PathTo(st, e, dir);
            && InDirectory(v, e.firstCluster, dir, path, cs) && Prepared(v, e.firstCluster, path, cs, WRITE, |data|)
            && Written(v, e.firstCluster, path, cs, data).err == SUCCESS
  {
    hide Tidy, RestFree, AllApart, SlotOf, MatchOnPath, Flat, FreeSet, Resize, Written;
    var v, path, own := Handle(st, e, WRITE, cs), PathTo(st, e, dir), st.files[e.firstCluster];
    DivUnique(cs, |data|, 0, |data|);
    PathSized(st, e, dir, cs);
    ChainIsPath(st.table, own);
    GrowAlready(st.table, own, 1);
    ResizeAlready(st.table, own);
    assert Usable(v, e.firstCluster, path, cs);
    WriteOkIff(v, e.firstCluster, dir, path, cs, WRITE, data);
  }

  lemma ResizeAlready(t: seq<uint32>, ch: seq<nat>)
    requires Chain(t, ch) && |ch| == 1
    ensures Resize(t, ch, 1) == Resized(t, ch, true)
  {
  }

  lemma PathSized(st: Store, e: FileEntry, dir: nat, cs: nat)
    requires SoundStore(st, dir, cs) && e.parentCluster in st.files[dir]
    ensures Sized(st.clusters, PathTo(st, e, dir), cs) && forall c :: c in PathTo(st, e, dir) ==> c in st.files[dir]
  {
    var path, ch := PathTo(st, e, dir), st.files[dir];
    forall i | 0 <= i < |path|
      ensures path[i] < |st.clusters| && |st.clusters[path[i]]| == cs
    {
      assert path[i] in ch;
    }
  }

  /** Two files are made one after the other, and something short is written to the first: the write succeeds, and the
      second file is gone. */
  lemma SecondFileLost(st: Store, a: seq<byte>, b: seq<byte>, data: seq<byte>, dir: nat, cs: nat)
    requires CanMake(st, a, dir, cs) && TwoFree(st, dir) && CanMake(MadeStore(st, a, dir), b, dir, cs) && a != b && |data| < cs
    ensures var two := MadeStore(MadeStore(st, a, dir), b, dir);
            && Proper(two, dir, cs) && IsFile(Find(two, dir, a)) && IsFile(Find(two, dir, b))
            && var e := Find(two, dir, a).file;
               && e.firstCluster in two.files
               && Prepared(Handle(two, e, WRITE, cs), e.firstCluster, PathTo(two, e, dir), cs, WRITE, |data|)
               && var r := Written(Handle(two, e, WRITE, cs), e.firstCluster, PathTo(two, e, dir), cs, data);
                  && r.err == SUCCESS && dir in r.view.files && InRange(r.view.clusters, r.view.files[dir])
                  && Find(StoreOf(r.view), dir, b).err == NOT_FOUND
  {
    hide *;
    CanMakeFacts(st, a, dir, cs);
    var e, k, i := FirstOfTwo(st, a, b, dir, cs);
    var one := MadeStore(st, a, dir);
    CanMakeFacts(one, b, dir, cs);
    var two := MadeStore(one, b, dir);
    FiledFacts(two, e, [], dir, cs);
    ShortWrite(two, e, k, i, data, dir, cs);
    MadeEntry(one, b, dir, cs);
    FileLost(two, e, b, k, i, data, dir, cs);
  }
}
