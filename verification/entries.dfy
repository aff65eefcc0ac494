/** What the write-back of one directory record does to the directory and to the names found in it. */
module Entries {
  import opened Bytes
  import opened Disks
  import opened Chains
  import opened Content
  import opened Records
  import opened Paths
  import opened Names
  import opened Directories
  import opened Slots
  import opened Lookups
  import opened FileErrors

  // ----- records and their places

  /** Every record of a directory is one of the records of the cluster it is placed in. */
  lemma {:induction false} RecordPlaced(cl: seq<seq<byte>>, ch: seq<nat>, q: nat) returns (k: nat, i: nat)
    requires InRange(cl, ch) && q < |AllRecords(cl, ch)|
    ensures k < |ch| && i < Count(cl[ch[k]]) && AllRecords(cl, ch)[q] == Placed(Record(cl[ch[k]], i), ch[k])
    decreases |ch|
  {
    var own := RecordsFrom(cl[ch[0]], ch[0], 0);
    if q < |own| {
      k, i := 0, q;
    } else {
      var j: nat;
      j, i := RecordPlaced(cl, ch[1..], q - |own|);
      k := j + 1;
    }
  }

  /** A record that names `start` is found in its cluster. */
  lemma NamingIsMatch(cl: seq<byte>, i: nat, start: nat)
    requires i < Count(cl) && FirstCluster(Record(cl, i)) == start
    ensures HasMatch(cl, start)
  {
  }

  /** A found entry is one of the directory's records, in front of its end marker. */
  lemma FoundRecord(rs: seq<Placed>, name: seq<byte>) returns (q: nat)
    requires forall j :: 0 <= j < |rs| ==> |rs[j].rec| == RECORD
    requires Named(Listed(rs), name).err == SUCCESS
    ensures q < |rs| && rs[q].rec[0] != ENTRY_END && CStr(Converted(rs[q].rec, rs[q].cluster).name) == name
    ensures Named(Listed(rs), name).file == Converted(rs[q].rec, rs[q].cluster)
  {
    hide Converted, CStr, Listed, Skipped;
    var ix := ListedExactly(rs);
    var i := FirstNamed(Listed(rs), name);
    q := ix[i];
    assert q in ix;
  }

  /** The records of one cluster have their own places in the directory. */
  lemma RecordUnique(cl: seq<seq<byte>>, ch: seq<nat>, fs: Files, k: nat, i: nat, q: nat)
    requires InRange(cl, ch) && Distinct(ch) && k < |ch| && i < Count(cl[ch[k]]) && q < |AllRecords(cl, ch)|
    requires NamedOnce(AllRecords(cl, ch), fs) && FirstCluster(Record(cl[ch[k]], i)) in fs
    requires FirstCluster(AllRecords(cl, ch)[q].rec) == FirstCluster(Record(cl[ch[k]], i))
    ensures AllRecords(cl, ch)[q] == Placed(Record(cl[ch[k]], i), ch[k])
  {
    hide AllRecords, Before, Ahead, FirstCluster, WithRecord;
    var rec := Record(cl[ch[k]], i);
    InsertSplit(cl, ch, k, i, rec);
    var rs, b := AllRecords(cl, ch), Before(cl, ch, k, i);
    assert rs[|b|] == Placed(rec, ch[k]);
  }

  /** With every chain named once, opening a name leads to the very record its entry was listed from. */
  lemma SlotFound(cl: seq<seq<byte>>, ch: seq<nat>, fs: Files, name: seq<byte>)
    requires InRange(cl, ch) && Distinct(ch) && NamedOnce(AllRecords(cl, ch), fs)
    requires var r := Named(Listing(cl, ch), name); r.err == SUCCESS && r.file.firstCluster in fs
    ensures var e := Named(Listing(cl, ch), name).file;
            && e.parentCluster in ch
            && MatchOnPath(cl, ChainFrom(ch, e.parentCluster), e.firstCluster) == 0
            && var s := SlotOf(cl, ChainFrom(ch, e.parentCluster), e.firstCluster);
               && s == Slot(e.parentCluster, MatchFrom(cl[e.parentCluster], e.firstCluster, 0))
               && Record(cl[s.cluster], s.index)[0] != ENTRY_END && FileSize(Record(cl[s.cluster], s.index)) == e.size
  {
    hide AllRecords, Listed, FirstCluster, FileSize, Converted, MatchFrom, CStr, Named;
    var rs := AllRecords(cl, ch);
    var e := Named(Listing(cl, ch), name).file;
    var q := FoundRecord(rs, name);
    var k, i := RecordPlaced(cl, ch, q);
    EntryNames(rs[q].rec, rs[q].cluster);
    assert e.parentCluster == ch[k] && ch[k] in ch;
    IndexInIs(ch, k);
    NamingIsMatch(cl[ch[k]], i, e.firstCluster);
    RecordUnique(cl, ch, fs, k, MatchFrom(cl[ch[k]], e.firstCluster, 0), q);
  }

  /** Different names of a directory that names every chain once stand for different chains. */
  lemma NamesApart(rs: seq<Placed>, fs: Files, a: seq<byte>, b: seq<byte>)
    requires (forall j :: 0 <= j < |rs| ==> |rs[j].rec| == RECORD) && NamedOnce(rs, fs) && a != b
    requires Named(Listed(rs), a).err == SUCCESS && Named(Listed(rs), b).err == SUCCESS
    requires Named(Listed(rs), a).file.firstCluster in fs
    ensures Named(Listed(rs), b).file.firstCluster != Named(Listed(rs), a).file.firstCluster
  {
    hide Listed, Named, Converted, FirstCluster;
    var p := FoundRecord(rs, a);
    var q := FoundRecord(rs, b);
    EntryNames(rs[p].rec, rs[p].cluster);
    EntryNames(rs[q].rec, rs[q].cluster);
    assert p != q;
    assert p < q ==> FirstCluster(rs[q].rec) != FirstCluster(rs[p].rec);
    assert q < p ==> FirstCluster(rs[p].rec) != FirstCluster(rs[q].rec);
  }

  // ----- one size changed

  /** The records with a new size in every one that names `start`. */
  function RecordsResized(rs: seq<Placed>, start: nat, size: uint32): (r: seq<Placed>)
    requires forall j :: 0 <= j < |rs| ==> |rs[j].rec| == RECORD
    ensures |r| == |rs| && forall j :: 0 <= j < |r| ==> |r[j].rec| == RECORD
    ensures forall j :: 0 <= j < |r| ==>
              r[j] == if FirstCluster(rs[j].rec) == start then rs[j].(rec := WithSize(rs[j].rec, size)) else rs[j]
  {
    seq(|rs|, j requires 0 <= j < |rs| =>
          if FirstCluster(rs[j].rec) == start then rs[j].(rec := WithSize(rs[j].rec, size)) else rs[j])
  }

  /** The entries with a new size in every one of the file `start`. */
  function EntriesResized(l: seq<FileEntry>, start: nat, size: uint32): (r: seq<FileEntry>)
    requires forall j :: 0 <= j < |l| ==> Terminated(l[j].name)
    ensures |r| == |l| && forall j :: 0 <= j < |r| ==> Terminated(r[j].name)
    ensures forall j :: 0 <= j < |r| ==> r[j] == if l[j].firstCluster == start then l[j].(size := size) else l[j]
  {
    seq(|l|, j requires 0 <= j < |l| => if l[j].firstCluster == start then l[j].(size := size) else l[j])
  }

  lemma SizeOnly(rec: seq<byte>, c: nat, size: uint32)
    requires |rec| == RECORD
    ensures var r := WithSize(rec, size);
            && r[0] == rec[0] && r[11] == rec[11] && FirstCluster(r) == FirstCluster(rec) && FileSize(r) == size
            && Converted(r, c) == Converted(rec, c).(size := size)
  {
    PutThenGet(rec, 28, size, 28);
    assert WithSize(rec, size)[..NAME_SIZE] == rec[..NAME_SIZE];
  }

  /** A new size in the records is a new size in the listing. */
  lemma {:induction false} ListedResized(rs: seq<Placed>, start: nat, size: uint32)
    requires forall j :: 0 <= j < |rs| ==> |rs[j].rec| == RECORD
    ensures Listed(RecordsResized(rs, start, size)) == EntriesResized(Listed(rs), start, size)
  {
    hide Converted, WithSize, FirstCluster, FileSize;
    if rs == [] {
      ListedNothing();
    } else {
      var r, p := RecordsResized(rs, start, size), rs[0];
      SizeOnly(p.rec, p.cluster, size);
      assert r[1..] == RecordsResized(rs[1..], start, size);
      ListedResized(rs[1..], start, size);
      EntryNames(p.rec, p.cluster);
      ListedStep(rs);
      ListedStep(r);
      if p.rec[0] != ENTRY_END && !Skipped(p.rec) {
        var l := Listed(rs);
        assert l == [l[0]] + l[1..];
      }
    }
  }

  lemma EntryNames(rec: seq<byte>, c: nat)
    requires |rec| == RECORD
    ensures Converted(rec, c).firstCluster == FirstCluster(rec) && Converted(rec, c).parentCluster == c
    ensures Converted(rec, c).size == FileSize(rec)
  {
  }

  /** Names are found as before, with the new size where the file was `start`. */
  lemma {:induction false} NamedResized(l: seq<FileEntry>, start: nat, size: uint32, name: seq<byte>)
    requires AllTerminated(l)
    ensures AllTerminated(EntriesResized(l, start, size))
    ensures var was, now := Named(l, name), Named(EntriesResized(l, start, size), name);
            now == if was.err == SUCCESS && was.file.firstCluster == start then StatResult(SUCCESS, was.file.(size := size)) else was
  {
    hide CStr;
    FirstNamedSame(l, EntriesResized(l, start, size), name);
  }

  lemma {:induction false} FirstNamedSame(a: seq<FileEntry>, b: seq<FileEntry>, name: seq<byte>)
    requires |a| == |b| && AllTerminated(a) && forall j :: 0 <= j < |a| ==> b[j].name == a[j].name
    ensures AllTerminated(b) && FirstNamed(a, name) == FirstNamed(b, name)
  {
    hide CStr;
    if a != [] && CStr(a[0].name) != name { FirstNamedSame(a[1..], b[1..], name); }
  }

  // ----- the directory after a write-back

  /** No two records name the same chain. */
  ghost predicate NamedOnce(rs: seq<Placed>, fs: Files)
    requires forall j :: 0 <= j < |rs| ==> |rs[j].rec| == RECORD
  {
    forall p, q {:trigger rs[p].rec, rs[q].rec} :: 0 <= p < q < |rs| && FirstCluster(rs[p].rec) in fs ==>
      FirstCluster(rs[q].rec) != FirstCluster(rs[p].rec)
  }

  /** With nothing but zeros behind the record in its sector, its write-back replaces that record alone. */
  lemma UpdatedIsWithRecord(cl: seq<byte>, i: nat, size: uint32)
    requires |cl| % SECTOR == 0 && i < Count(cl) && TailClear(cl, i)
    ensures Updated(cl, i, size) == WithRecord(cl, i, WithSize(Record(cl, i), size))
  {
    hide Updated, TailClear;
    var rec := WithSize(Record(cl, i), size);
    var a, b := Updated(cl, i, size), WithRecord(cl, i, rec);
    UpdatedOwn(cl, i, size);
    TailZero(cl, i);
    forall k | 0 <= k < |cl|
      ensures a[k] == b[k]
    {
      if RECORD * i <= k < RECORD * (i + 1) {
        assert Record(a, i)[k - RECORD * i] == rec[k - RECORD * i];
      } else {
        UpdatedElsewhere(cl, i, size, k);
      }
    }
  }

  lemma TailZero(cl: seq<byte>, i: nat)
    requires |cl| % SECTOR == 0 && i < Count(cl) && TailClear(cl, i)
    ensures forall k :: RECORD * (i + 1) <= k < RoundUp(RECORD * (i + 1)) && k < |cl| ==> cl[k] == 0
  {
  }

  /** Writing back the only record that names `start` gives every listed entry of that file the new size. */
  lemma RewrittenRecords(cl: seq<seq<byte>>, ch: seq<nat>, fs: Files, k: nat, i: nat, size: uint32)
    requires InRange(cl, ch) && Distinct(ch) && k < |ch| && i < Count(cl[ch[k]]) && |cl[ch[k]]| % SECTOR == 0
    requires TailClear(cl[ch[k]], i) && NamedOnce(AllRecords(cl, ch), fs) && FirstCluster(Record(cl[ch[k]], i)) in fs
    ensures var start, dl := FirstCluster(Record(cl[ch[k]], i)), cl[ch[k] := Updated(cl[ch[k]], i, size)];
            InRange(dl, ch) && AllRecords(dl, ch) == RecordsResized(AllRecords(cl, ch), start, size)
  {
    hide Updated, TailClear, WithSize, WithRecord, AllRecords, Before, Ahead;
    var rec := Record(cl[ch[k]], i);
    UpdatedIsWithRecord(cl[ch[k]], i, size);
    InsertSplit(cl, ch, k, i, WithSize(rec, size));
    var b, r, c, start := Before(cl, ch, k, i), Ahead(cl, ch, k, i + 1), ch[k], FirstCluster(rec);
    var was := AllRecords(cl, ch);
    assert was[|b|] == Placed(rec, c);
    var now := b + [Placed(WithSize(rec, size), c)] + r;
    assert |now| == |was|;
    forall q | 0 <= q < |was|
      ensures now[q] == RecordsResized(was, start, size)[q]
    {
      if q < |b| {
        assert was[q] == b[q] && FirstCluster(was[q].rec) != start;
      } else if q > |b| {
        assert was[q] == r[q - |b| - 1] == now[q] && FirstCluster(was[q].rec) != start;
      }
    }
  }
}
