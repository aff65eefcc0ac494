/** Directories: chains of records, what they list, and the iterator over them. */
module Directories {
  import opened Bytes
  import opened Disks
  import opened Layout
  import opened Chains
  import opened Content
  import opened Records
  import opened Paths
  import opened Names
  import opened Volumes
  import opened FileErrors

  const ENTRY_END: byte := 0
  const ENTRY_DELETED: byte := 0xE5

  /** `name` is a NUL-terminated buffer; `parentCluster` is the directory cluster the record was found in. */
  datatype FileEntry = FileEntry(name: seq<byte>, size: uint32, attributes: byte, firstCluster: nat, parentCluster: nat) {
    predicate IsDirectory() { (attributes / 0x10) % 2 == 1 }
  }

  const NO_ENTRY := FileEntry([NUL], 0, 0, 0, 0)

  // ----- what a directory lists

  /** Deleted records and parts of long names are skipped. */
  predicate Skipped(rec: seq<byte>)
    requires |rec| == RECORD
  {
    rec[0] == ENTRY_DELETED || rec[11] % 0x10 == 0x0F
  }

  function Converted(rec: seq<byte>, cluster: nat): (e: FileEntry)
    requires |rec| == RECORD
    ensures Terminated(e.name)
  {
    FileEntry(Decoded(rec[..NAME_SIZE]), FileSize(rec), rec[11], FirstCluster(rec), cluster)
  }

  /** A record and the cluster it is stored in. */
  datatype Placed = Placed(rec: seq<byte>, cluster: nat)

  /** The records of one cluster from index `i` on. */
  ghost function RecordsFrom(cl: seq<byte>, c: nat, i: nat): (r: seq<Placed>)
    requires i <= Count(cl)
    ensures |r| == Count(cl) - i
    ensures forall j :: 0 <= j < |r| ==> r[j] == Placed(Record(cl, i + j), c)
    decreases Count(cl) - i
  {
    if i == Count(cl) then [] else [Placed(Record(cl, i), c)] + RecordsFrom(cl, c, i + 1)
  }

  /** The clusters of the chain are on the disk. */
  ghost predicate InRange(cl: seq<seq<byte>>, ch: seq<nat>) {
    forall i :: 0 <= i < |ch| ==> ch[i] < |cl| && cl[ch[i]] != []
  }

  /** The records of a whole directory chain, in order. */
  ghost function AllRecords(cl: seq<seq<byte>>, ch: seq<nat>): (r: seq<Placed>)
    requires InRange(cl, ch)
    ensures forall j :: 0 <= j < |r| ==> |r[j].rec| == RECORD
  {
    if ch == [] then [] else RecordsFrom(cl[ch[0]], ch[0], 0) + AllRecords(cl, ch[1..])
  }

  /** The files in a run of records: those before the first end marker that are not skipped. */
  ghost function Listed(rs: seq<Placed>): (r: seq<FileEntry>)
    requires forall j :: 0 <= j < |rs| ==> |rs[j].rec| == RECORD
    ensures |r| <= |rs| && forall j :: 0 <= j < |r| ==> Terminated(r[j].name)
  {
    if rs == [] || rs[0].rec[0] == ENTRY_END then []
    else (if Skipped(rs[0].rec) then [] else [Converted(rs[0].rec, rs[0].cluster)]) + Listed(rs[1..])
  }

  lemma ListedNothing()
    ensures Listed([]) == []
  {
  }

  lemma ListedStep(rs: seq<Placed>)
    requires rs != [] && forall j :: 0 <= j < |rs| ==> |rs[j].rec| == RECORD
    ensures rs[0].rec[0] == ENTRY_END ==> Listed(rs) == []
    ensures rs[0].rec[0] != ENTRY_END && Skipped(rs[0].rec) ==> Listed(rs) == Listed(rs[1..])
    ensures rs[0].rec[0] != ENTRY_END && !Skipped(rs[0].rec) ==>
              Listed(rs) != [] && Listed(rs)[0] == Converted(rs[0].rec, rs[0].cluster) && Listed(rs)[1..] == Listed(rs[1..])
  {
  }

  ghost function Listing(cl: seq<seq<byte>>, ch: seq<nat>): (l: seq<FileEntry>)
    requires InRange(cl, ch)
    ensures forall j :: 0 <= j < |l| ==> Terminated(l[j].name)
  {
    Listed(AllRecords(cl, ch))
  }

  // ----- the listing, by positions

  /** Position of the first end marker, or the number of records. */
  ghost function EndIndex(rs: seq<Placed>): (n: nat)
    requires forall j :: 0 <= j < |rs| ==> |rs[j].rec| == RECORD
    ensures n <= |rs| && (n < |rs| ==> rs[n].rec[0] == ENTRY_END)
    ensures forall j :: 0 <= j < n ==> rs[j].rec[0] != ENTRY_END
  {
    if rs == [] || rs[0].rec[0] == ENTRY_END then 0 else 1 + EndIndex(rs[1..])
  }

  /** `ix` lists, in increasing order, the positions in front of the end marker that are not skipped. */
  ghost predicate ShownAt(rs: seq<Placed>, ix: seq<nat>)
    requires forall j :: 0 <= j < |rs| ==> |rs[j].rec| == RECORD
  {
    && (forall i, j :: 0 <= i < j < |ix| ==> ix[i] < ix[j])
    && (forall p :: p in ix <==> 0 <= p < EndIndex(rs) && !Skipped(rs[p].rec))
  }

  /** A directory lists exactly the records in front of its first end marker that are not skipped, in order. */
  lemma {:induction false} ListedExactly(rs: seq<Placed>) returns (ix: seq<nat>)
    requires forall j :: 0 <= j < |rs| ==> |rs[j].rec| == RECORD
    ensures ShownAt(rs, ix) && |Listed(rs)| == |ix|
    ensures forall i :: 0 <= i < |ix| ==> ix[i] < |rs| && Listed(rs)[i] == Converted(rs[ix[i]].rec, rs[ix[i]].cluster)
  {
    hide Converted, ShownAt;
    if rs == [] || rs[0].rec[0] == ENTRY_END {
      ix := [];
      ShownNothing(rs);
    } else {
      hide Listed, ShiftedBehind, Skipped;
      var tail := ListedExactly(rs[1..]);
      ix := ShiftedBehind(rs[0], tail);
      ShownStep(rs, tail);
      ShownMore(rs, tail);
      ListedMore(rs);
      assert Listed(rs[1..]) == Shown(rs[1..], tail);
    }
  }

  /** What a record in front of the end marker contributes to the listing. */
  ghost function ListedOne(p: Placed): seq<FileEntry>
    requires |p.rec| == RECORD
  {
    if Skipped(p.rec) then [] else [Converted(p.rec, p.cluster)]
  }

  lemma ListedMore(rs: seq<Placed>)
    requires (forall j :: 0 <= j < |rs| ==> |rs[j].rec| == RECORD) && rs != [] && rs[0].rec[0] != ENTRY_END
    ensures Listed(rs) == ListedOne(rs[0]) + Listed(rs[1..])
  {
  }

  /** The entry shows what the record says: its name, its attribute byte, its size in bytes 28 to 31, its first cluster in
      bytes 26, 27, 20 and 21, and the cluster the record is in. */
  ghost predicate Tells(p: Placed, e: FileEntry)
    requires |p.rec| == RECORD
  {
    && e.name == Decoded(p.rec[..11]) && e.attributes == p.rec[11] && e.parentCluster == p.cluster
    && e.size == Says32(p.rec) && e.firstCluster == Names32(p.rec)
  }

  /** The first cluster a record names: low half in bytes 26 and 27, high half in bytes 20 and 21. */
  function Names32(rec: seq<byte>): nat
    requires |rec| == RECORD
  {
    (rec[26] as int) + 0x100 * (rec[27] as int) + 0x10000 * (rec[20] as int) + 0x1000000 * (rec[21] as int)
  }

  /** The size a record gives, in bytes 28 to 31. */
  function Says32(rec: seq<byte>): nat
    requires |rec| == RECORD
  {
    (rec[28] as int) + 0x100 * (rec[29] as int) + 0x10000 * (rec[30] as int) + 0x1000000 * (rec[31] as int)
  }

  /** The record at `p` is seen: no record up to it begins with 0, it does not begin with 0xE5, and the low four bits of
      its attribute byte are not all set. */
  ghost predicate Seen(rs: seq<Placed>, p: nat)
    requires forall j :: 0 <= j < |rs| ==> |rs[j].rec| == RECORD
  {
    p < |rs| && (forall q :: 0 <= q <= p ==> rs[q].rec[0] != 0) && rs[p].rec[0] != 0xE5 && rs[p].rec[11] % 16 != 15
  }

  /** A directory lists the records that are seen and no others, in order, and shows of each what it says. */
  lemma ListedIff(rs: seq<Placed>) returns (ix: seq<nat>)
    requires forall j :: 0 <= j < |rs| ==> |rs[j].rec| == RECORD
    ensures forall i, j :: 0 <= i < j < |ix| ==> ix[i] < ix[j]
    ensures forall p :: p in ix <==>
              && 0 <= p < |rs| && (forall q :: 0 <= q <= p ==> rs[q].rec[0] != 0)
              && rs[p].rec[0] != 0xE5 && rs[p].rec[11] % 16 != 15
    ensures |Listed(rs)| == |ix| && forall i :: 0 <= i < |ix| ==> ix[i] < |rs| && Tells(rs[ix[i]], Listed(rs)[i])
  {
    hide Listed, Decoded;
    ix := ListedExactly(rs);
    forall p | 0 <= p < |rs|
      ensures p in ix <==> (forall q :: 0 <= q <= p ==> rs[q].rec[0] != 0) && rs[p].rec[0] != 0xE5 && rs[p].rec[11] % 16 != 15
    {
      BeforeEnd(rs, p);
    }
  }

  lemma BeforeEnd(rs: seq<Placed>, p: nat)
    requires p < |rs| && forall j :: 0 <= j < |rs| ==> |rs[j].rec| == RECORD
    ensures p < EndIndex(rs) <==> forall q :: 0 <= q <= p ==> rs[q].rec[0] != 0
  {
    var n := EndIndex(rs);
    if p >= n { assert rs[n].rec[0] == 0; }
  }

  /** A part of a long name, the record it belongs to, a deleted record and an end marker: one entry is listed. */
  lemma LongNameInput(a: Placed, b: Placed, c: Placed, d: Placed)
    requires |a.rec| == |b.rec| == |c.rec| == |d.rec| == RECORD
    requires a.rec[0] == 0x41 && a.rec[11] == 0x0F && b.rec[0] == 0x46 && b.rec[11] == 0x20 && c.rec[0] == 0xE5 && d.rec[0] == 0
    ensures |Listed([a, b, c, d])| == 1 && Tells(b, Listed([a, b, c, d])[0]) && Listed([a, b, c, d])[0].attributes == 0x20
  {
    hide Listed, Tells;
    var rs := [a, b, c, d];
    var ix := ListedIff(rs);
    assert rs[0] == a && rs[1] == b && rs[2] == c && rs[3] == d;
    assert 1 in ix && 0 !in ix && 2 !in ix && 3 !in ix;
    Single(ix, 1);
    TellsAttributes(b, Listed(rs)[0]);
  }

  lemma Single(ix: seq<nat>, x: nat)
    requires (forall i, j :: 0 <= i < j < |ix| ==> ix[i] < ix[j]) && x in ix && forall y :: y in ix ==> y == x
    ensures |ix| == 1 && ix[0] == x
  {
    if |ix| > 1 { TwoApart(ix); }
  }

  lemma TwoApart(ix: seq<nat>)
    requires |ix| > 1 && forall i, j :: 0 <= i < j < |ix| ==> ix[i] < ix[j]
    ensures exists y, z :: y in ix && z in ix && y != z
  {
    assert ix[0] in ix && ix[1] in ix && ix[0] < ix[1];
  }

  lemma TellsAttributes(p: Placed, e: FileEntry)
    requires |p.rec| == RECORD && Tells(p, e)
    ensures e.attributes == p.rec[11] && e.firstCluster == Names32(p.rec)
    ensures e.IsDirectory() <==> p.rec[11] / 16 % 2 == 1
  {
  }

  /** Positions in a run of records, from those in its tail. */
  function ShiftedBehind(p: Placed, tail: seq<nat>): seq<nat>
    requires |p.rec| == RECORD
  {
    (if Skipped(p.rec) then [] else [0]) + seq(|tail|, i requires 0 <= i < |tail| => tail[i] + 1)
  }

  lemma ShownNothing(rs: seq<Placed>)
    requires forall j :: 0 <= j < |rs| ==> |rs[j].rec| == RECORD
    requires rs == [] || rs[0].rec[0] == ENTRY_END
    ensures ShownAt(rs, [])
  {
  }

  /** The entries made of the records at some positions. */
  ghost function Shown(rs: seq<Placed>, ix: seq<nat>): (l: seq<FileEntry>)
    requires forall j :: 0 <= j < |rs| ==> |rs[j].rec| == RECORD
    requires forall i :: 0 <= i < |ix| ==> ix[i] < |rs|
    ensures |l| == |ix| && forall i :: 0 <= i < |ix| ==> l[i] == Converted(rs[ix[i]].rec, rs[ix[i]].cluster)
  {
    seq(|ix|, i requires 0 <= i < |ix| => Converted(rs[ix[i]].rec, rs[ix[i]].cluster))
  }

  lemma ShownMore(rs: seq<Placed>, tail: seq<nat>)
    requires rs != [] && forall j :: 0 <= j < |rs| ==> |rs[j].rec| == RECORD
    requires forall i :: 0 <= i < |tail| ==> tail[i] < |rs[1..]|
    ensures var ix := ShiftedBehind(rs[0], tail);
            && (forall i :: 0 <= i < |ix| ==> ix[i] < |rs|)
            && Shown(rs, ix) == ListedOne(rs[0]) + Shown(rs[1..], tail)
  {
    hide Converted, Skipped;
  }

  lemma ShownStep(rs: seq<Placed>, tail: seq<nat>)
    requires (forall j :: 0 <= j < |rs| ==> |rs[j].rec| == RECORD) && rs != [] && rs[0].rec[0] != ENTRY_END
    requires ShownAt(rs[1..], tail)
    ensures ShownAt(rs, ShiftedBehind(rs[0], tail))
  {
    var moved := seq(|tail|, i requires 0 <= i < |tail| => tail[i] + 1);
    var ix := ShiftedBehind(rs[0], tail);
    Moved(tail, moved);
    forall p
      ensures p in ix <==> 0 <= p < EndIndex(rs) && !Skipped(rs[p].rec)
    {
      assert p in ix <==> p in moved || (p == 0 && !Skipped(rs[0].rec));
      if p > 0 { assert p - 1 in tail <==> 0 <= p - 1 < EndIndex(rs[1..]) && !Skipped(rs[1..][p - 1].rec); }
    }
  }

  lemma Moved(a: seq<nat>, b: seq<nat>)
    requires |a| == |b| && forall i :: 0 <= i < |a| ==> b[i] == a[i] + 1
    ensures forall p :: p in b <==> p > 0 && p - 1 in a
  {
    forall p | p > 0 && p - 1 in a
      ensures p in b
    {
      var i :| 0 <= i < |a| && a[i] == p - 1;
      assert b[i] == p;
    }
  }

  /** The records still ahead of an iterator that stands at record `i` of the `k`-th cluster. */
  ghost function Ahead(cl: seq<seq<byte>>, ch: seq<nat>, k: nat, i: nat): (r: seq<Placed>)
    requires InRange(cl, ch) && k < |ch| && i <= Count(cl[ch[k]])
    ensures forall j :: 0 <= j < |r| ==> |r[j].rec| == RECORD
  {
    RecordsFrom(cl[ch[k]], ch[k], i) + AllRecords(cl, ch[k + 1..])
  }

  lemma AheadStep(cl: seq<seq<byte>>, ch: seq<nat>, k: nat, i: nat)
    requires InRange(cl, ch) && k < |ch| && i < Count(cl[ch[k]])
    ensures Ahead(cl, ch, k, i) != [] && Ahead(cl, ch, k, i)[0] == Placed(Record(cl[ch[k]], i), ch[k])
    ensures Ahead(cl, ch, k, i)[1..] == Ahead(cl, ch, k, i + 1)
  {
    hide AllRecords;
    RecordsStep(cl[ch[k]], ch[k], i);
    assert InRange(cl, ch[k + 1..]);
  }

  lemma RecordsStep(cl: seq<byte>, c: nat, i: nat)
    requires i < Count(cl)
    ensures RecordsFrom(cl, c, i) == [Placed(Record(cl, i), c)] + RecordsFrom(cl, c, i + 1)
  {
  }

  lemma AheadNextCluster(cl: seq<seq<byte>>, ch: seq<nat>, k: nat)
    requires InRange(cl, ch) && k < |ch|
    ensures k + 1 < |ch| ==> Ahead(cl, ch, k, Count(cl[ch[k]])) == Ahead(cl, ch, k + 1, 0)
    ensures k + 1 == |ch| ==> Ahead(cl, ch, k, Count(cl[ch[k]])) == []
  {
    if k + 1 < |ch| {
      assert ch[k + 1..][1..] == ch[k + 2..] && ch[k + 1..][0] == ch[k + 1];
    }
  }

  lemma AheadAll(cl: seq<seq<byte>>, ch: seq<nat>)
    requires InRange(cl, ch)
    ensures ch != [] ==> Ahead(cl, ch, 0, 0) == AllRecords(cl, ch)
    ensures ch == [] ==> Listing(cl, ch) == []
  {
  }

  /** A chain whose end mark the iterator recognises. */
  ghost predicate DirChain(t: seq<uint32>, ch: seq<nat>) {
    Chain(t, ch) && Next(t, ch[|ch| - 1]) >= READ_END
  }

  /** A directory chain ends in a mark that the iterator recognises. */
  lemma DirChainEnd(t: seq<uint32>, ch: seq<nat>)
    ensures DirChain(t, ch) <==> Chain(t, ch) && t[ch[|ch| - 1]] % 0x1000_0000 >= 0x0FFF_FFF8
  {
  }

  /** Loading a cluster sector by sector stays inside the iterator's buffer of 4096 bytes exactly for clusters of at most
      8 sectors. */
  lemma LoadInsideIff(g: Geometry)
    ensures (forall i :: 0 <= i < g.perCluster ==> 512 * i + 512 <= 4096) <==> g.perCluster <= 8
  {
    if g.perCluster > 8 { var i := 8; assert 0 <= i < g.perCluster && 512 * i + 512 > 4096; }
  }

  class DirectoryIterator {
    const vol: Volume
    var buffer: seq<byte>
    var entryIndex: nat
    var entriesPerCluster: nat
    var currentCluster: nat
    var startCluster: nat
    var finished: bool

    /** The directory's chain, empty when the start cluster is already an end mark. */
    ghost var chain: seq<nat>
    /** Index of the current cluster. */
    ghost var at: nat

    ghost predicate Started()
      reads `startCluster, `chain, `entriesPerCluster, vol, vol.disk
    {
      && vol.Valid() && vol.g.perCluster <= 8
      && (if chain == [] then startCluster >= READ_END else DirChain(vol.table, chain) && chain[0] == startCluster)
      && InRange(vol.clusters, chain)
      && entriesPerCluster == vol.g.ClusterSize() / RECORD
    }

    ghost predicate Valid()
      reads this, vol, vol.disk
    {
      && Started()
      && (!finished ==>
            && at < |chain| && currentCluster == chain[at] && buffer == vol.clusters[currentCluster]
            && entryIndex <= entriesPerCluster)
    }

    /** The entries the iterator has yet to deliver. */
    ghost function Remaining(): seq<FileEntry>
      requires Valid()
      reads this, vol, vol.disk
    {
      if finished then [] else Listed(Ahead(vol.clusters, chain, at, entryIndex))
    }

    /** Everything the directory lists. */
    ghost function Everything(): seq<FileEntry>
      requires Started()
      reads this, vol, vol.disk
    {
      Listing(vol.clusters, chain)
    }

    constructor (vol: Volume, start: nat, ghost chain: seq<nat>)
      requires vol.Valid() && vol.g.perCluster <= 8
      requires if chain == [] then start >= READ_END else DirChain(vol.table, chain) && chain[0] == start
      requires InRange(vol.clusters, chain)
      ensures Valid() && this.vol == vol && this.chain == chain && Remaining() == Everything()
    {
      hide Volume.Valid, Listed, AllRecords, RecordsFrom, Geometry.Fits;
      this.vol, this.chain, at := vol, chain, 0;
      startCluster, currentCluster, finished := start, start, false;
      entryIndex, buffer := 0, [];
      entriesPerCluster := vol.g.ClusterSize() / RECORD;
      new;
      LoadCluster();
      AheadAll(vol.clusters, chain);
    }

    /** Loads the current cluster sector by sector, or finishes at an end mark. */
    method LoadCluster()
      requires Started() && !finished
      requires if currentCluster >= READ_END then chain == [] else at < |chain| && currentCluster == chain[at]
      modifies this`buffer, this`entryIndex, this`finished
      ensures Valid() && finished == (currentCluster >= 0x0FFF_FFF8)
      ensures !finished ==> entryIndex == 0
    {
      hide Layout.ClustersOf, Layout.TableOf, Layout.EntryAt, Geometry.First, Geometry.OnDisk;
      if currentCluster >= READ_END {
        finished := true;
        return;
      }
      vol.HasSectorsIff(currentCluster);
      var clusterSector := vol.g.First(currentCluster);
      buffer := [];
      for i := 0 to vol.g.perCluster
        invariant Started() && !finished && at < |chain|
        invariant |buffer| == SECTOR * i <= vol.g.ClusterSize() && buffer == vol.clusters[currentCluster][..SECTOR * i]
      {
        SectorOfCluster(vol.g, vol.disk.sectors, currentCluster, i);
        var sector := vol.disk.Read28(clusterSector + i, SECTOR);
        SlicesJoin(vol.clusters[currentCluster], SECTOR * i, SECTOR);
        buffer := buffer + sector;
      }
      entryIndex := 0;
    }

    /** Follows the table to the next cluster of the directory. */
    method LoadNextCluster() returns (err: FSError)
      requires Valid() && !finished
      modifies this`buffer, this`entryIndex, this`finished, this`currentCluster, this`at
      ensures Valid()
      ensures old(at) + 1 < |chain| ==> err == SUCCESS && !finished && at == old(at) + 1 && entryIndex == 0
      ensures old(at) + 1 == |chain| ==> err == END_OF_DIRECTORY && finished
    {
      hide Layout.ClustersOf, Layout.TableOf;
      EntryInSector(vol.g, vol.disk.sectors, currentCluster);
      var fatSector, fatOffset := currentCluster / PER_SECTOR, currentCluster % PER_SECTOR;
      var fatBuf := vol.disk.Read28(vol.g.fatStart + fatSector, SECTOR);
      assert fatBuf == vol.disk.sectors[vol.g.fatStart + fatSector];
      var next := Le32(fatBuf, 4 * fatOffset) % ENTRY_MASK;
      assert next == Next(vol.table, chain[at]);
      if next >= READ_END {
        finished := true;
        return END_OF_DIRECTORY;
      }
      currentCluster, at := next, at + 1;
      LoadCluster();
      err := SUCCESS;
    }

    lemma StartedFacts()
      requires Started()
      ensures vol.Valid() && InRange(vol.clusters, chain)
      ensures forall i :: 0 <= i < |chain| ==> chain[i] < |vol.clusters| && Count(vol.clusters[chain[i]]) == entriesPerCluster
    {
    }

    /** Delivers the next listed entry, continuing in the next cluster as long as there is one. */
    method NextEntry() returns (err: FSError, file: FileEntry)
      requires Valid()
      modifies this`buffer, this`entryIndex, this`finished, this`currentCluster, this`at
      ensures Valid()
      ensures old(Remaining()) == [] ==> err == END_OF_DIRECTORY && finished && Remaining() == []
      ensures old(Remaining()) != [] ==> err == SUCCESS && file == old(Remaining())[0] && Remaining() == old(Remaining())[1..]
      decreases |chain| - at
    {
      hide Started, Volume.Valid, Listed, RecordsFrom, AllRecords, Ahead, Converted;
      StartedFacts();
      file := NO_ENTRY;
      if finished {
        return END_OF_DIRECTORY, file;
      }
      while entryIndex < entriesPerCluster
        invariant Valid() && !finished && at == old(at)
        invariant Remaining() == old(Remaining())
        decreases entriesPerCluster - entryIndex
      {
        AheadStep(vol.clusters, chain, at, entryIndex);
        ListedStep(Ahead(vol.clusters, chain, at, entryIndex));
        var rec := buffer[RECORD * entryIndex..RECORD * (entryIndex + 1)];
        entryIndex := entryIndex + 1;
        if rec[0] == ENTRY_END {
          finished := true;
          return END_OF_DIRECTORY, file;
        }
        if rec[0] == ENTRY_DELETED {
          continue;
        }
        if rec[11] % 0x10 == 0x0F {
          continue;
        }
        file := ConvertEntry(rec);
        return SUCCESS, file;
      }
      AheadNextCluster(vol.clusters, chain, at);
      ListedNothing();
      err := LoadNextCluster();
      if err != SUCCESS {
        return err, file;
      }
      err, file := NextEntry();
    }

    method ConvertEntry(rec: seq<byte>) returns (e: FileEntry)
      requires |rec| == RECORD
      ensures e == Converted(rec, currentCluster)
    {
      var name := ConvertName(rec[..NAME_SIZE]);
      e := FileEntry(name, FileSize(rec), rec[11], FirstCluster(rec), currentCluster);
    }

    /** Back to the first record: the same entries are delivered again. */
    method Reset()
      requires Valid()
      modifies this`buffer, this`entryIndex, this`finished, this`currentCluster, this`at
      ensures Valid() && Remaining() == Everything()
    {
      hide Volume.Valid, Listed;
      finished, entryIndex, currentCluster, at := false, 0, startCluster, 0;
      LoadCluster();
      AheadAll(vol.clusters, chain);
    }
  }
}
