/** New directory records: where they go, what they hold, and how they change a directory's listing. */
module Slots {
  import opened Bytes
  import opened Disks
  import opened Layout
  import opened Chains
  import opened Content
  import opened Records
  import opened Paths
  import opened Names
  import opened Directories

  // ----- free slots

  predicate IsFree(rec: seq<byte>)
    requires |rec| == RECORD
  {
    rec[0] == ENTRY_END || rec[0] == ENTRY_DELETED
  }

  /** First free record from `i` on, or the record count. */
  function FreeFrom(cl: seq<byte>, i: nat): (r: nat)
    requires i <= Count(cl)
    ensures i <= r <= Count(cl)
    ensures r < Count(cl) ==> IsFree(Record(cl, r))
    ensures forall k :: i <= k < r ==> !IsFree(Record(cl, k))
    decreases Count(cl) - i
  {
    if i == Count(cl) || IsFree(Record(cl, i)) then i else FreeFrom(cl, i + 1)
  }

  predicate HasSlot(cl: seq<byte>) { FreeFrom(cl, 0) < Count(cl) }

  /** First cluster of the chain with a free record, or the chain length. */
  ghost function SlotCluster(cl: seq<seq<byte>>, ch: seq<nat>): (k: nat)
    requires InRange(cl, ch)
    ensures k <= |ch|
    ensures k < |ch| ==> HasSlot(cl[ch[k]])
    ensures forall i :: 0 <= i < k ==> !HasSlot(cl[ch[i]])
  {
    if ch == [] || HasSlot(cl[ch[0]]) then 0 else 1 + SlotCluster(cl, ch[1..])
  }

  // ----- the new record

  /** The record of a new file, written over a free one: creation and access times are kept. */
  function NewRecord(was: seq<byte>, n: seq<byte>, attributes: byte, first: uint32, size: uint32): (r: seq<byte>)
    requires |was| == RECORD
    ensures |r| == RECORD
  {
    var f := Le32Bytes(first);
    Encoded(n) + [attributes] + was[12..20] + f[2..] + was[22..26] + f[..2] + Le32Bytes(size)
  }

  lemma NewRecordFields(was: seq<byte>, n: seq<byte>, attributes: byte, first: uint32, size: uint32)
    requires |was| == RECORD
    ensures var r := NewRecord(was, n, attributes, first, size);
            && r[..NAME_SIZE] == Encoded(n) && r[11] == attributes && FirstCluster(r) == first && FileSize(r) == size
  {
    var r, f, z := NewRecord(was, n, attributes, first, size), Le32Bytes(first), Le32Bytes(size);
    assert r[20] == f[2] && r[21] == f[3] && r[26] == f[0] && r[27] == f[1];
    assert r[28] == z[0] && r[29] == z[1] && r[30] == z[2] && r[31] == z[3];
    Le32OfBytes(first);
    Le32OfBytes(size);
  }

  /** The new record byte by byte. */
  lemma NewRecordAt(was: seq<byte>, n: seq<byte>, attributes: byte, first: uint32, size: uint32, j: nat)
    requires |was| == RECORD && j < RECORD
    ensures NewRecord(was, n, attributes, first, size)[j] ==
            if j < NAME_SIZE then Encoded(n)[j]
            else if j == 11 then attributes
            else if 20 <= j < 22 then Le32Bytes(first)[j - 18]
            else if 26 <= j < 28 then Le32Bytes(first)[j - 26]
            else if 28 <= j then Le32Bytes(size)[j - 28]
            else was[j]
  {
    hide Encoded, Le32Bytes;
  }

  /** A cluster with one record replaced. */
  function WithRecord(cl: seq<byte>, i: nat, rec: seq<byte>): (r: seq<byte>)
    requires i < Count(cl) && |rec| == RECORD
    ensures |r| == |cl|
  {
    cl[..RECORD * i] + rec + cl[RECORD * (i + 1)..]
  }

  lemma WithRecordAt(cl: seq<byte>, i: nat, rec: seq<byte>, j: nat)
    requires i < Count(cl) && |rec| == RECORD && j < Count(cl)
    ensures Record(WithRecord(cl, i, rec), j) == if i == j then rec else Record(cl, j)
  {
    var r := WithRecord(cl, i, rec);
    if j < i {
      assert forall k :: RECORD * j <= k < RECORD * (j + 1) ==> r[k] == cl[k];
    } else if i < j {
      assert forall k :: RECORD * j <= k < RECORD * (j + 1) ==> r[k] == cl[k];
    }
  }

  /** All clusters after record `i` of the chain's `k`-th cluster was replaced. */
  ghost function Inserted(cl: seq<seq<byte>>, ch: seq<nat>, k: nat, i: nat, rec: seq<byte>): (r: seq<seq<byte>>)
    requires InRange(cl, ch) && k < |ch| && i < Count(cl[ch[k]]) && |rec| == RECORD
    ensures |r| == |cl| && forall c :: 0 <= c < |cl| ==> |r[c]| == |cl[c]|
  {
    cl[ch[k] := WithRecord(cl[ch[k]], i, rec)]
  }

  // ----- the listing before and after

  /** The records in front of record `i` of the `k`-th cluster. */
  ghost function Before(cl: seq<seq<byte>>, ch: seq<nat>, k: nat, i: nat): (r: seq<Placed>)
    requires InRange(cl, ch) && k < |ch| && i <= Count(cl[ch[k]])
    ensures forall j :: 0 <= j < |r| ==> |r[j].rec| == RECORD
  {
    assert InRange(cl, ch[..k]);
    AllRecords(cl, ch[..k]) + RecordsFrom(cl[ch[k]], ch[k], 0)[..i]
  }

  lemma {:induction false} AllRecordsConcat(cl: seq<seq<byte>>, a: seq<nat>, b: seq<nat>)
    requires InRange(cl, a) && InRange(cl, b)
    ensures InRange(cl, a + b) && AllRecords(cl, a + b) == AllRecords(cl, a) + AllRecords(cl, b)
  {
    if a == [] {
      assert a + b == b;
    } else {
      AllRecordsConcat(cl, a[1..], b);
      assert (a + b)[1..] == a[1..] + b && (a + b)[0] == a[0];
      assert AllRecords(cl, a + b) == RecordsFrom(cl[a[0]], a[0], 0) + AllRecords(cl, a[1..] + b);
    }
  }

  lemma RecordsSplit(cl: seq<byte>, c: nat, i: nat)
    requires i <= Count(cl)
    ensures RecordsFrom(cl, c, 0) == RecordsFrom(cl, c, 0)[..i] + RecordsFrom(cl, c, i)
  {
  }

  lemma Regroup(a: seq<Placed>, b: seq<Placed>, c: seq<Placed>, d: seq<Placed>)
    ensures a + ((b + c) + d) == (a + b) + (c + d)
  {
  }

  /** The directory is what lies in front of a record and what lies ahead from it on. */
  lemma AllSplit(cl: seq<seq<byte>>, ch: seq<nat>, k: nat, i: nat)
    requires InRange(cl, ch) && k < |ch| && i <= Count(cl[ch[k]])
    ensures AllRecords(cl, ch) == Before(cl, ch, k, i) + Ahead(cl, ch, k, i)
  {
    assert ch == ch[..k] + ch[k..];
    AllRecordsConcat(cl, ch[..k], ch[k..]);
    assert ch[k..][1..] == ch[k + 1..] && ch[k..][0] == ch[k];
    RecordsSplit(cl[ch[k]], ch[k], i);
    hide RecordsFrom;
    var own := RecordsFrom(cl[ch[k]], ch[k], 0);
    Regroup(AllRecords(cl, ch[..k]), own[..i], RecordsFrom(cl[ch[k]], ch[k], i), AllRecords(cl, ch[k + 1..]));
  }

  lemma {:induction false} AllRecordsFrame(cl: seq<seq<byte>>, dl: seq<seq<byte>>, ch: seq<nat>)
    requires InRange(cl, ch) && |dl| == |cl| && forall i :: 0 <= i < |ch| ==> dl[ch[i]] == cl[ch[i]]
    ensures AllRecords(dl, ch) == AllRecords(cl, ch)
  {
    if ch != [] {
      assert forall i :: 0 <= i < |ch[1..]| ==> ch[1..][i] == ch[i + 1];
      AllRecordsFrame(cl, dl, ch[1..]);
    }
  }

  /** Replacing one record replaces exactly that record of the directory. */
  lemma InsertSplit(cl: seq<seq<byte>>, ch: seq<nat>, k: nat, i: nat, rec: seq<byte>)
    requires InRange(cl, ch) && Distinct(ch) && k < |ch| && i < Count(cl[ch[k]]) && |rec| == RECORD
    ensures var b, r := Before(cl, ch, k, i), Ahead(cl, ch, k, i + 1);
            && AllRecords(cl, ch) == b + [Placed(Record(cl[ch[k]], i), ch[k])] + r
            && AllRecords(Inserted(cl, ch, k, i, rec), ch) == b + [Placed(rec, ch[k])] + r
  {
    hide AllRecords, RecordsFrom, WithRecord;
    var dl := Inserted(cl, ch, k, i, rec);
    AllSplit(cl, ch, k, i);
    AheadStep(cl, ch, k, i);
    AllSplit(dl, ch, k, i);
    AheadStep(dl, ch, k, i);
    InsertFrame(cl, ch, k, i, rec);
    WithRecordAt(cl[ch[k]], i, rec, i);
    var x, y := Ahead(cl, ch, k, i), Ahead(dl, ch, k, i);
    assert x == [x[0]] + x[1..] && y == [y[0]] + y[1..];
    assert Before(cl, ch, k, i) + ([x[0]] + x[1..]) == Before(cl, ch, k, i) + [x[0]] + x[1..];
    assert Before(cl, ch, k, i) + ([y[0]] + y[1..]) == Before(cl, ch, k, i) + [y[0]] + y[1..];
  }

  lemma InsertFrame(cl: seq<seq<byte>>, ch: seq<nat>, k: nat, i: nat, rec: seq<byte>)
    requires InRange(cl, ch) && Distinct(ch) && k < |ch| && i < Count(cl[ch[k]]) && |rec| == RECORD
    ensures var dl := Inserted(cl, ch, k, i, rec);
            Before(dl, ch, k, i) == Before(cl, ch, k, i) && Ahead(dl, ch, k, i + 1) == Ahead(cl, ch, k, i + 1)
  {
    hide AllRecords;
    var dl := Inserted(cl, ch, k, i, rec);
    AllRecordsFrame(cl, dl, ch[..k]);
    AllRecordsFrame(cl, dl, ch[k + 1..]);
    var c, d := cl[ch[k]], dl[ch[k]];
    forall j | 0 <= j < Count(c) && j != i
      ensures Record(d, j) == Record(c, j)
    {
      WithRecordAt(c, i, rec, j);
    }
    assert RecordsFrom(d, ch[k], 0)[..i] == RecordsFrom(c, ch[k], 0)[..i];
    assert RecordsFrom(d, ch[k], i + 1) == RecordsFrom(c, ch[k], i + 1);
  }

  lemma EntriesRegroup(a: seq<FileEntry>, b: seq<FileEntry>, c: seq<FileEntry>)
    ensures a + (b + c) == (a + b) + c
  {
  }

  lemma {:induction false} ListedConcat(a: seq<Placed>, b: seq<Placed>)
    requires (forall j :: 0 <= j < |a| ==> |a[j].rec| == RECORD && a[j].rec[0] != ENTRY_END)
    requires (forall j :: 0 <= j < |b| ==> |b[j].rec| == RECORD)
    ensures Listed(a + b) == Listed(a) + Listed(b)
  {
    if a == [] {
      assert a + b == b;
    } else {
      hide Listed;
      ListedConcat(a[1..], b);
      ListedCons(a[0], a[1..]);
      ListedCons(a[0], a[1..] + b);
      assert a == [a[0]] + a[1..] && a + b == [a[0]] + (a[1..] + b);
      EntriesRegroup(ListedOne(a[0]), Listed(a[1..]), Listed(b));
    }
  }

  lemma ListedCons(p: Placed, rest: seq<Placed>)
    requires |p.rec| == RECORD && p.rec[0] != ENTRY_END && forall j :: 0 <= j < |rest| ==> |rest[j].rec| == RECORD
    ensures Listed([p] + rest) == ListedOne(p) + Listed(rest)
  {
    assert ([p] + rest)[1..] == rest;
  }

  lemma {:induction false} AllUsed(cl: seq<seq<byte>>, ch: seq<nat>)
    requires InRange(cl, ch) && forall i :: 0 <= i < |ch| ==> !HasSlot(cl[ch[i]])
    ensures forall j :: 0 <= j < |AllRecords(cl, ch)| ==> !IsFree(AllRecords(cl, ch)[j].rec)
  {
    if ch != [] {
      assert !HasSlot(cl[ch[0]]);
      assert forall i :: 0 <= i < |ch[1..]| ==> ch[1..][i] == ch[i + 1];
      AllUsed(cl, ch[1..]);
    }
  }

  /** No record in front of the first free one is free. */
  lemma BeforeUsed(cl: seq<seq<byte>>, ch: seq<nat>, k: nat, i: nat)
    requires InRange(cl, ch) && k == SlotCluster(cl, ch) < |ch| && i == FreeFrom(cl[ch[k]], 0)
    ensures forall j :: 0 <= j < |Before(cl, ch, k, i)| ==> !IsFree(Before(cl, ch, k, i)[j].rec)
  {
    hide AllRecords;
    assert forall j :: 0 <= j < k ==> ch[..k][j] == ch[j];
    AllUsed(cl, ch[..k]);
  }

  /** The listing in front of the slot and behind it. */
  ghost function Front(cl: seq<seq<byte>>, ch: seq<nat>): (l: seq<FileEntry>)
    requires InRange(cl, ch) && SlotCluster(cl, ch) < |ch|
    ensures forall j :: 0 <= j < |l| ==> Terminated(l[j].name)
  {
    var k := SlotCluster(cl, ch);
    Listed(Before(cl, ch, k, FreeFrom(cl[ch[k]], 0)))
  }

  ghost function Back(cl: seq<seq<byte>>, ch: seq<nat>): (l: seq<FileEntry>)
    requires InRange(cl, ch) && SlotCluster(cl, ch) < |ch|
    ensures forall j :: 0 <= j < |l| ==> Terminated(l[j].name)
  {
    var k := SlotCluster(cl, ch);
    Listed(Ahead(cl, ch, k, FreeFrom(cl[ch[k]], 0) + 1))
  }

  /** Using the slot brings no stale record back: it was a deleted one, or nothing is listed behind it. */
  ghost predicate SlotClean(cl: seq<seq<byte>>, ch: seq<nat>)
    requires InRange(cl, ch) && SlotCluster(cl, ch) < |ch|
  {
    var k := SlotCluster(cl, ch);
    Record(cl[ch[k]], FreeFrom(cl[ch[k]], 0))[0] == ENTRY_DELETED || Back(cl, ch) == []
  }

  ghost function InsertedFirst(cl: seq<seq<byte>>, ch: seq<nat>, rec: seq<byte>): (r: seq<seq<byte>>)
    requires InRange(cl, ch) && SlotCluster(cl, ch) < |ch| && |rec| == RECORD
    ensures |r| == |cl|
  {
    var k := SlotCluster(cl, ch);
    Inserted(cl, ch, k, FreeFrom(cl[ch[k]], 0), rec)
  }

  /** Listing of the directory before and after a record is put into its first free slot. A visible
      record appears at the slot; behind an end marker the records after it come to light as well. */
  lemma InsertListing(cl: seq<seq<byte>>, ch: seq<nat>, rec: seq<byte>)
    requires InRange(cl, ch) && Distinct(ch) && SlotCluster(cl, ch) < |ch| && |rec| == RECORD && rec[0] != ENTRY_END
    ensures var k := SlotCluster(cl, ch);
            var slot := Record(cl[ch[k]], FreeFrom(cl[ch[k]], 0));
            && Listing(cl, ch) == Front(cl, ch) + (if slot[0] == ENTRY_END then [] else Back(cl, ch))
            && Listing(InsertedFirst(cl, ch, rec), ch)
               == Front(cl, ch) + (if Skipped(rec) then [] else [Converted(rec, ch[k])]) + Back(cl, ch)
  {
    hide AllRecords, RecordsFrom, WithRecord, Before, Ahead, Inserted, Listed, Converted;
    var k := SlotCluster(cl, ch);
    var i := FreeFrom(cl[ch[k]], 0);
    var b, r, was := Before(cl, ch, k, i), Ahead(cl, ch, k, i + 1), Placed(Record(cl[ch[k]], i), ch[k]);
    InsertSplit(cl, ch, k, i, rec);
    BeforeUsed(cl, ch, k, i);
    ListedInsert(b, was, r);
    ListedInsert(b, Placed(rec, ch[k]), r);
  }

  lemma ListedInsert(b: seq<Placed>, p: Placed, r: seq<Placed>)
    requires forall j :: 0 <= j < |b| ==> |b[j].rec| == RECORD && !IsFree(b[j].rec)
    requires |p.rec| == RECORD && forall j :: 0 <= j < |r| ==> |r[j].rec| == RECORD
    ensures p.rec[0] == ENTRY_END ==> Listed(b + [p] + r) == Listed(b)
    ensures p.rec[0] != ENTRY_END && Skipped(p.rec) ==> Listed(b + [p] + r) == Listed(b) + Listed(r)
    ensures p.rec[0] != ENTRY_END && !Skipped(p.rec) ==>
              Listed(b + [p] + r) == Listed(b) + [Converted(p.rec, p.cluster)] + Listed(r)
  {
    hide Converted;
    assert b + [p] + r == b + ([p] + r);
    ListedConcat(b, [p] + r);
    ListedStep([p] + r);
    assert ([p] + r)[1..] == r;
  }

  // ----- where a new record goes and what it says, in bytes

  /** The first byte of the `i`-th record of a cluster. */
  function Head(cl: seq<byte>, i: nat): byte
    requires 32 * i + 32 <= |cl|
  {
    cl[32 * i]
  }

  /** Record `i` is the first that begins with 0 or 0xE5. */
  ghost predicate OpenSlot(cl: seq<byte>, i: nat) {
    && 32 * i + 32 <= |cl| && (Head(cl, i) == 0 || Head(cl, i) == 0xE5)
    && forall j: nat :: j < i ==> Head(cl, j) != 0 && Head(cl, j) != 0xE5
  }

  ghost predicate NoSlot(cl: seq<byte>) {
    forall j: nat :: 32 * j + 32 <= |cl| ==> Head(cl, j) != 0 && Head(cl, j) != 0xE5
  }

  /** In record `i` the name, the attribute byte, the first cluster and the size are new; no other byte has changed. */
  ghost predicate RecordPut(was: seq<byte>, now: seq<byte>, i: nat, n: seq<byte>, attributes: byte, first: nat, size: nat) {
    var at := 32 * i;
    && |now| == |was| && at + 32 <= |was|
    && (forall k :: 0 <= k < |was| && !(at <= k < at + 12 || at + 20 <= k < at + 22 || at + 26 <= k < at + 32) ==> now[k] == was[k])
    && now[at..at + 11] == Encoded(n) && now[at + 11] == attributes
    && first == (now[at + 26] as int) + 0x100 * (now[at + 27] as int) + 0x10000 * (now[at + 20] as int) + 0x1000000 * (now[at + 21] as int)
    && size == (now[at + 28] as int) + 0x100 * (now[at + 29] as int) + 0x10000 * (now[at + 30] as int) + 0x1000000 * (now[at + 31] as int)
  }

  /** Along the directory chain the first slot was record `i` of the `k`-th cluster; the new record is there, and no other
      cluster has changed. */
  ghost predicate DirectoryPut(cl: seq<seq<byte>>, dl: seq<seq<byte>>, ch: seq<nat>, k: nat, i: nat,
                               n: seq<byte>, attributes: byte, first: nat, size: nat)
  {
    && |dl| == |cl| && InRange(cl, ch) && k < |ch| && OpenSlot(cl[ch[k]], i)
    && (forall j :: 0 <= j < k ==> NoSlot(cl[ch[j]]))
    && (forall c :: 0 <= c < |cl| && c != ch[k] ==> dl[c] == cl[c])
    && RecordPut(cl[ch[k]], dl[ch[k]], i, n, attributes, first, size)
  }

  lemma SlotIs(cl: seq<byte>)
    ensures HasSlot(cl) <==> !NoSlot(cl)
    ensures HasSlot(cl) ==> OpenSlot(cl, FreeFrom(cl, 0))
  {
    var r := FreeFrom(cl, 0);
    assert forall k: nat :: k < Count(cl) ==> Record(cl, k)[0] == Head(cl, k);
    assert HasSlot(cl) ==> IsFree(Record(cl, r));
  }

  lemma PutIs(cl: seq<byte>, i: nat, n: seq<byte>, attributes: byte, first: uint32, size: uint32)
    requires i < Count(cl)
    ensures RecordPut(cl, WithRecord(cl, i, NewRecord(Record(cl, i), n, attributes, first, size)), i, n, attributes, first, size)
  {
    hide NewRecord, Encoded;
    var was, at := Record(cl, i), 32 * i;
    var rec := NewRecord(was, n, attributes, first, size);
    var now := WithRecord(cl, i, rec);
    NewRecordFields(was, n, attributes, first, size);
    assert forall j :: 0 <= j < 32 ==> now[at + j] == rec[j];
    assert now[at..at + 11] == rec[..NAME_SIZE];
    forall k | 0 <= k < |cl| && !(at <= k < at + 12 || at + 20 <= k < at + 22 || at + 26 <= k < at + 32)
      ensures now[k] == cl[k]
    {
      if at <= k < at + 32 {
        NewRecordAt(was, n, attributes, first, size, k - at);
        assert now[k] == rec[k - at] && was[k - at] == cl[k];
      }
    }
  }

  /** A record that goes into the first free slot of a directory. */
  lemma PutInFirst(cl: seq<seq<byte>>, ch: seq<nat>, n: seq<byte>, attributes: byte, first: uint32, size: uint32)
    requires InRange(cl, ch) && SlotCluster(cl, ch) < |ch|
    ensures var k := SlotCluster(cl, ch);
            var i := FreeFrom(cl[ch[k]], 0);
            var rec := NewRecord(Record(cl[ch[k]], i), n, attributes, first, size);
            DirectoryPut(cl, InsertedFirst(cl, ch, rec), ch, k, i, n, attributes, first, size)
  {
    hide NewRecord, Encoded, WithRecord, RecordPut, OpenSlot, NoSlot;
    var k := SlotCluster(cl, ch);
    var i := FreeFrom(cl[ch[k]], 0);
    SlotIs(cl[ch[k]]);
    forall j | 0 <= j < k
      ensures NoSlot(cl[ch[j]])
    {
      SlotIs(cl[ch[j]]);
    }
    PutIs(cl[ch[k]], i, n, attributes, first, size);
  }

  /** The record an entry is stored as over the first free record of a cluster. */
  ghost function StoredRecord(cl: seq<byte>, e: FileEntry): (rec: seq<byte>)
    requires HasSlot(cl) && Terminated(e.name) && e.firstCluster < 0x1_0000_0000
    ensures |rec| == RECORD
  {
    NewRecord(Record(cl, FreeFrom(cl, 0)), CStr(e.name), e.attributes, e.firstCluster, e.size)
  }

  /** The cluster with the entry stored in its first free record. */
  ghost function EntryStored(cl: seq<byte>, e: FileEntry): (r: seq<byte>)
    requires HasSlot(cl) && Terminated(e.name) && e.firstCluster < 0x1_0000_0000
    ensures |r| == |cl|
  {
    WithRecord(cl, FreeFrom(cl, 0), StoredRecord(cl, e))
  }
}
