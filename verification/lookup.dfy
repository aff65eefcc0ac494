/** Resolving paths: the recursive lookup on directory listings, and what creating a file does to it. */
module Lookups {
  import opened Bytes
  import opened Disks
  import opened Layout
  import opened Chains
  import opened Content
  import opened Records
  import opened Paths
  import opened Names
  import opened Directories
  import opened Slots
  import opened FileErrors

  /** First entry with the given name, or the list length. */
  ghost function FirstNamed(l: seq<FileEntry>, name: seq<byte>): (i: nat)
    requires forall j :: 0 <= j < |l| ==> Terminated(l[j].name)
    ensures i <= |l| && (i < |l| ==> CStr(l[i].name) == name)
    ensures forall j :: 0 <= j < i ==> CStr(l[j].name) != name
  {
    if l == [] || CStr(l[0].name) == name then 0 else 1 + FirstNamed(l[1..], name)
  }

  datatype StatResult = StatResult(err: FSError, file: FileEntry)

  const NOT_THERE := StatResult(NOT_FOUND, NO_ENTRY)

  ghost function ListingAt(cl: seq<seq<byte>>, fs: Files, dir: nat): (l: seq<FileEntry>)
    requires dir in fs && InRange(cl, fs[dir])
    ensures forall j :: 0 <= j < |l| ==> Terminated(l[j].name)
  {
    Listing(cl, fs[dir])
  }

  /** Every directory the path leads through is a sound directory chain. */
  ghost predicate Walkable(t: seq<uint32>, cl: seq<seq<byte>>, fs: Files, dir: nat, comps: seq<seq<byte>>)
    decreases |comps|
  {
    comps != [] ==>
      && dir in fs && DirChain(t, fs[dir]) && fs[dir][0] == dir && InRange(cl, fs[dir])
      && var l := ListingAt(cl, fs, dir);
         var i := FirstNamed(l, comps[0]);
         i < |l| && |comps| > 1 && l[i].IsDirectory() ==> Walkable(t, cl, fs, l[i].firstCluster, comps[1..])
  }

  /** The first match on each level decides: a file in the middle of the path is not a directory,
      and a missing name is not found. */
  ghost function Lookup(t: seq<uint32>, cl: seq<seq<byte>>, fs: Files, dir: nat, comps: seq<seq<byte>>): StatResult
    requires Walkable(t, cl, fs, dir, comps)
    decreases |comps|
  {
    if comps == [] then NOT_THERE
    else
      var l := ListingAt(cl, fs, dir);
      var i := FirstNamed(l, comps[0]);
      if i == |l| then NOT_THERE
      else if |comps| == 1 then StatResult(SUCCESS, l[i])
      else if l[i].IsDirectory() then Lookup(t, cl, fs, l[i].firstCluster, comps[1..])
      else StatResult(NOT_A_DIRECTORY, NO_ENTRY)
  }

  lemma LookupNothing(t: seq<uint32>, cl: seq<seq<byte>>, fs: Files)
    ensures forall dir :: Walkable(t, cl, fs, dir, []) && Lookup(t, cl, fs, dir, []) == NOT_THERE
  {
  }

  /** One level of the lookup. */
  lemma LookupStep(t: seq<uint32>, cl: seq<seq<byte>>, fs: Files, dir: nat, comps: seq<seq<byte>>)
    requires Walkable(t, cl, fs, dir, comps) && comps != []
    ensures dir in fs && DirChain(t, fs[dir]) && fs[dir][0] == dir && InRange(cl, fs[dir])
    ensures var l, r := ListingAt(cl, fs, dir), Lookup(t, cl, fs, dir, comps);
            var i := FirstNamed(l, comps[0]);
            && (i == |l| ==> r == NOT_THERE)
            && (i < |l| && |comps| == 1 ==> r == StatResult(SUCCESS, l[i]))
            && (i < |l| && |comps| > 1 && !l[i].IsDirectory() ==> r == StatResult(NOT_A_DIRECTORY, NO_ENTRY))
            && (i < |l| && |comps| > 1 && l[i].IsDirectory() ==>
                  Walkable(t, cl, fs, l[i].firstCluster, comps[1..]) && r == Lookup(t, cl, fs, l[i].firstCluster, comps[1..]))
  {
  }

  // ----- the first record with a name decides

  /** The record at `p` is the first one seen that reads as the name. */
  ghost predicate FirstSeen(rs: seq<Placed>, p: nat, name: seq<byte>)
    requires forall j :: 0 <= j < |rs| ==> |rs[j].rec| == RECORD
  {
    && Seen(rs, p) && CStr(Decoded(rs[p].rec[..11])) == name
    && forall q: nat :: q < p && Seen(rs, q) ==> CStr(Decoded(rs[q].rec[..11])) != name
  }

  ghost predicate NoneSeen(rs: seq<Placed>, name: seq<byte>)
    requires forall j :: 0 <= j < |rs| ==> |rs[j].rec| == RECORD
  {
    forall q: nat :: Seen(rs, q) ==> CStr(Decoded(rs[q].rec[..11])) != name
  }

  /** It is the one found. */
  lemma FoundIs(rs: seq<Placed>, p: nat, name: seq<byte>)
    requires (forall j :: 0 <= j < |rs| ==> |rs[j].rec| == RECORD) && FirstSeen(rs, p, name)
    ensures p < |rs| && FirstNamed(Listed(rs), name) < |Listed(rs)| && Tells(rs[p], Listed(rs)[FirstNamed(Listed(rs), name)])
  {
    hide Listed, Decoded, CStr;
    var ix := ListedIff(rs);
    var l := Listed(rs);
    assert p in ix;
    var i :| 0 <= i < |ix| && ix[i] == p;
    forall j | 0 <= j < i
      ensures CStr(l[j].name) != name
    {
      assert ix[j] in ix && ix[j] < p && Seen(rs, ix[j]);
    }
    assert CStr(l[i].name) == name;
  }

  /** With no such record, nothing is found. */
  lemma NothingFound(rs: seq<Placed>, name: seq<byte>)
    requires (forall j :: 0 <= j < |rs| ==> |rs[j].rec| == RECORD) && NoneSeen(rs, name)
    ensures FirstNamed(Listed(rs), name) == |Listed(rs)|
  {
    hide Listed, Decoded, CStr;
    var ix := ListedIff(rs);
    var l := Listed(rs);
    forall i | 0 <= i < |l|
      ensures CStr(l[i].name) != name
    {
      assert ix[i] in ix && Seen(rs, ix[i]);
    }
  }

  /** Looking a path up in a directory, by the first record that reads as its first component: the last component answers
      with what the record says; an inner one leads on exactly if the directory bit, 0x10, of its attribute byte is set. */
  lemma LookupThrough(t: seq<uint32>, cl: seq<seq<byte>>, fs: Files, dir: nat, comps: seq<seq<byte>>, p: nat)
    requires Walkable(t, cl, fs, dir, comps) && comps != []
    requires dir in fs && InRange(cl, fs[dir]) && FirstSeen(AllRecords(cl, fs[dir]), p, comps[0])
    ensures p < |AllRecords(cl, fs[dir])|
    ensures var at, r := AllRecords(cl, fs[dir])[p], Lookup(t, cl, fs, dir, comps);
            && (|comps| == 1 ==> r.err == SUCCESS && Tells(at, r.file))
            && (|comps| >= 2 && at.rec[11] / 16 % 2 == 0 ==> r == StatResult(NOT_A_DIRECTORY, NO_ENTRY))
            && (|comps| >= 2 && at.rec[11] / 16 % 2 == 1 ==>
                  Walkable(t, cl, fs, Names32(at.rec), comps[1..]) && r == Lookup(t, cl, fs, Names32(at.rec), comps[1..]))
  {
    hide Listed, AllRecords, Tells, Walkable, Lookup, FirstSeen;
    var rs := AllRecords(cl, fs[dir]);
    FoundIs(rs, p, comps[0]);
    LookupStep(t, cl, fs, dir, comps);
    var l := Listed(rs);
    TellsAttributes(rs[p], l[FirstNamed(l, comps[0])]);
  }

  /** With no record that is seen under the first component, the path is not found. */
  lemma LookupMissing(t: seq<uint32>, cl: seq<seq<byte>>, fs: Files, dir: nat, comps: seq<seq<byte>>)
    requires Walkable(t, cl, fs, dir, comps)
    requires comps != [] ==>
               dir in fs && InRange(cl, fs[dir]) && NoneSeen(AllRecords(cl, fs[dir]), comps[0])
    ensures Lookup(t, cl, fs, dir, comps).err == NOT_FOUND
  {
    hide Listed, AllRecords, NoneSeen;
    if comps != [] { NothingFound(AllRecords(cl, fs[dir]), comps[0]); }
  }

  // ----- first match in concatenated lists

  lemma {:induction false} FirstNamedConcat(a: seq<FileEntry>, b: seq<FileEntry>, name: seq<byte>)
    requires forall j :: 0 <= j < |a| ==> Terminated(a[j].name)
    requires forall j :: 0 <= j < |b| ==> Terminated(b[j].name)
    ensures FirstNamed(a + b, name) ==
            if FirstNamed(a, name) < |a| then FirstNamed(a, name) else |a| + FirstNamed(b, name)
  {
    hide CStr, Terminated;
    if a == [] {
      assert a + b == b;
    } else {
      FirstNamedConcat(a[1..], b, name);
      assert (a + b)[0] == a[0] && (a + b)[1..] == a[1..] + b;
    }
  }

  ghost function Named(l: seq<FileEntry>, name: seq<byte>): (r: StatResult)
    requires forall j :: 0 <= j < |l| ==> Terminated(l[j].name)
    ensures r.err == SUCCESS || r == NOT_THERE
  {
    var i := FirstNamed(l, name);
    if i == |l| then NOT_THERE else StatResult(SUCCESS, l[i])
  }

  ghost predicate AllTerminated(l: seq<FileEntry>) { forall j :: 0 <= j < |l| ==> Terminated(l[j].name) }

  lemma NamedConcat(a: seq<FileEntry>, b: seq<FileEntry>, name: seq<byte>)
    requires AllTerminated(a) && AllTerminated(b)
    ensures AllTerminated(a + b)
    ensures Named(a + b, name) == if Named(a, name).err == SUCCESS then Named(a, name) else Named(b, name)
  {
    FirstNamedConcat(a, b, name);
  }

  lemma NamedOne(e: FileEntry, name: seq<byte>)
    requires Terminated(e.name)
    ensures AllTerminated([e]) && Named([e], name) == if CStr(e.name) == name then StatResult(SUCCESS, e) else NOT_THERE
  {
  }

  /** An inserted entry is what its own fresh name finds, and changes nothing for other names. */
  lemma NamedInsert(a: seq<FileEntry>, e: FileEntry, b: seq<FileEntry>, name: seq<byte>)
    requires AllTerminated(a) && AllTerminated(b) && Terminated(e.name)
    ensures AllTerminated(a + b) && AllTerminated(a + [e] + b)
    ensures CStr(e.name) != name ==> Named(a + [e] + b, name) == Named(a + b, name)
    ensures CStr(e.name) == name && Named(a + b, name).err == NOT_FOUND ==> Named(a + [e] + b, name) == StatResult(SUCCESS, e)
  {
    hide Named, AllTerminated;
    NamedOne(e, name);
    NamedConcat(a, b, name);
    NamedConcat([e], b, name);
    NamedConcat(a, [e] + b, name);
    assert a + [e] + b == a + ([e] + b);
  }

  // ----- creating a file in a directory

  const ATTR_ARCHIVE: byte := 0x20

  /** The clusters after a file `n` with first cluster `f` was given the directory's first free record. */
  ghost function Created(cl: seq<seq<byte>>, ch: seq<nat>, n: seq<byte>, f: uint32): (r: seq<seq<byte>>)
    requires InRange(cl, ch) && SlotCluster(cl, ch) < |ch|
    ensures |r| == |cl|
  {
    var k := SlotCluster(cl, ch);
    InsertedFirst(cl, ch, NewRecord(Record(cl[ch[k]], FreeFrom(cl[ch[k]], 0)), n, ATTR_ARCHIVE, f, 0))
  }

  /** The new file's record is in the directory's first slot: its name, the attribute 0x20, its only cluster, size 0. */
  lemma CreatedPut(cl: seq<seq<byte>>, ch: seq<nat>, n: seq<byte>, f: uint32)
    requires InRange(cl, ch) && SlotCluster(cl, ch) < |ch|
    ensures var k := SlotCluster(cl, ch);
            DirectoryPut(cl, Created(cl, ch, n, f), ch, k, FreeFrom(cl[ch[k]], 0), n, 0x20, f, 0)
  {
    hide NewRecord, WithRecord, DirectoryPut, InsertedFirst;
    PutInFirst(cl, ch, n, 0x20, f, 0);
  }

  /** The entry such a file is listed as. */
  ghost function CreatedEntry(cl: seq<seq<byte>>, ch: seq<nat>, n: seq<byte>, f: uint32): (e: FileEntry)
    requires InRange(cl, ch) && SlotCluster(cl, ch) < |ch|
  {
    FileEntry(Decoded(Encoded(n)), 0, ATTR_ARCHIVE, f, ch[SlotCluster(cl, ch)])
  }

  lemma EncodedHead(n: seq<byte>)
    requires NUL !in n
    ensures Encoded(n)[0] != ENTRY_END
    ensures n != [] ==> Encoded(n)[0] == if |Base(n)| > 0 then n[0] else SPACE
  {
    var b := UpTo(Base(n), 8);
    if |b| > 0 { assert Encoded(n)[0] == b[0] == n[0]; }
  }

  /** On a clean slot, creating a file adds exactly its entry to the listing; a name whose first byte
      marks deleted records adds nothing. */
  lemma CreatedListing(cl: seq<seq<byte>>, ch: seq<nat>, n: seq<byte>, f: uint32)
    requires InRange(cl, ch) && Distinct(ch) && SlotCluster(cl, ch) < |ch| && SlotClean(cl, ch) && NUL !in n
    ensures Listing(cl, ch) == Front(cl, ch) + Back(cl, ch)
    ensures Listing(Created(cl, ch, n, f), ch) ==
            Front(cl, ch) + (if Encoded(n)[0] == ENTRY_DELETED then [] else [CreatedEntry(cl, ch, n, f)]) + Back(cl, ch)
  {
    hide Listing, Front, Back, InsertedFirst, Encoded, NewRecord;
    var k := SlotCluster(cl, ch);
    var was := Record(cl[ch[k]], FreeFrom(cl[ch[k]], 0));
    var rec := NewRecord(was, n, ATTR_ARCHIVE, f, 0);
    NewRecordFields(was, n, ATTR_ARCHIVE, f, 0);
    EncodedHead(n);
    assert rec[0] == rec[..NAME_SIZE][0] == Encoded(n)[0];
    InsertListing(cl, ch, rec);
    if was[0] == ENTRY_END {
      assert Back(cl, ch) == [];
    }
  }

  /** After creating a file under a fresh name in a directory with a clean slot: a lookup of exactly
      that name finds the new, empty file if and only if the name is a normal 8.3 name that does not
      start with the deleted mark; every name but its normal form is looked up as before. */
  lemma CreatedLookup(t: seq<uint32>, u: seq<uint32>, cl: seq<seq<byte>>, fs: Files, gs: Files, dir: nat,
                      n: seq<byte>, f: uint32, m: seq<byte>)
    requires Walkable(t, cl, fs, dir, [m]) && Walkable(t, cl, fs, dir, [n])
    requires SlotCluster(cl, fs[dir]) < |fs[dir]| && SlotClean(cl, fs[dir]) && NUL !in n
    requires Lookup(t, cl, fs, dir, [n]).err == NOT_FOUND
    requires dir in gs && gs[dir] == fs[dir] && DirChain(u, fs[dir])
    ensures var dl := Created(cl, fs[dir], n, f);
            && Walkable(u, dl, gs, dir, [m]) && Walkable(u, dl, gs, dir, [n])
            && (m != Normal(n) ==> Lookup(u, dl, gs, dir, [m]) == Lookup(t, cl, fs, dir, [m]))
            && (Lookup(u, dl, gs, dir, [n]).err == SUCCESS <==> IsNormal(n) && Encoded(n)[0] != ENTRY_DELETED)
            && (IsNormal(n) && Encoded(n)[0] != ENTRY_DELETED ==>
                  Lookup(u, dl, gs, dir, [n]).file == CreatedEntry(cl, fs[dir], n, f))
  {
    hide Listing, Front, Back, Created, SlotClean, SlotCluster, Encoded, Normal, IsNormal;
    var ch := fs[dir];
    var dl := Created(cl, ch, n, f);
    ChainDistinct(u, ch);
    CreatedListing(cl, ch, n, f);
    DecodeEncode(n);
    NormalIff(n);
    var e := CreatedEntry(cl, ch, n, f);
    CreatedInRange(cl, ch, n, f);
    LookupOne(t, cl, fs, dir, m);
    LookupOne(t, cl, fs, dir, n);
    LookupOne(u, dl, gs, dir, m);
    LookupOne(u, dl, gs, dir, n);
    var a, b := Front(cl, ch), Back(cl, ch);
    NamedInsert(a, e, b, m);
    NamedInsert(a, e, b, n);
    NoMiddle(a, b);
  }

  /** A new record leaves every cluster its size. */
  lemma CreatedInRange(cl: seq<seq<byte>>, ch: seq<nat>, n: seq<byte>, f: uint32)
    requires InRange(cl, ch) && SlotCluster(cl, ch) < |ch|
    ensures InRange(Created(cl, ch, n, f), ch)
    ensures forall c :: 0 <= c < |cl| ==> |Created(cl, ch, n, f)[c]| == |cl[c]|
  {
    hide SlotCluster, NewRecord, WithRecord;
  }

  lemma NoMiddle(a: seq<FileEntry>, b: seq<FileEntry>)
    ensures a + [] + b == a + b
  {
  }

  lemma LookupOne(t: seq<uint32>, cl: seq<seq<byte>>, fs: Files, dir: nat, m: seq<byte>)
    requires dir in fs && DirChain(t, fs[dir]) && fs[dir][0] == dir && InRange(cl, fs[dir])
    ensures Walkable(t, cl, fs, dir, [m])
    ensures Lookup(t, cl, fs, dir, [m]) == Named(Listing(cl, fs[dir]), m)
  {
  }

  /** A name directly under the root is the one component of its path. */
  lemma RootPath(n: seq<byte>)
    requires IsName(n) && |n| <= MAX_COMPONENT
    ensures Components(Merged([SLASH], n), 16) == [n]
  {
    SplitMerged([SLASH], n, 16);
    assert Segments([SLASH][1..]) == [];
  }

  /** make_file in the root, as the paths see it: the volume stays sound, the file's only cluster was
      free, its own path finds it empty exactly when its name is a visible normal one, and every other
      root path not naming its normal form answers as before. */
  lemma MadeFile(t: seq<uint32>, cl: seq<seq<byte>>, fs: Files, root: nat, n: seq<byte>, m: seq<byte>)
    requires WellFormed(t, fs) && |cl| == |t| && 2 <= |t| <= CHAIN_END && LowestFree(t) < |t|
    requires root in fs && DirChain(t, fs[root]) && InRange(cl, fs[root])
    requires SlotCluster(cl, fs[root]) < |fs[root]| && SlotClean(cl, fs[root])
    requires IsName(n) && IsName(m) && |n| <= MAX_COMPONENT && |m| <= MAX_COMPONENT && NUL !in n
    requires Walkable(t, cl, fs, root, Components(Merged([SLASH], n), 16))
    requires Lookup(t, cl, fs, root, Components(Merged([SLASH], n), 16)).err == NOT_FOUND
    ensures var f := LowestFree(t);
            var u, gs, dl := t[f := ALLOCATED], fs[f := [f]], Created(cl, fs[root], n, f);
            var own, other := Components(Merged([SLASH], n), 16), Components(Merged([SLASH], m), 16);
            && FirstFree(t, f) && WellFormed(u, gs) && Next(u, f) >= 0x0FFF_FFF8
            && Walkable(t, cl, fs, root, other) && Walkable(u, dl, gs, root, own) && Walkable(u, dl, gs, root, other)
            && (Lookup(u, dl, gs, root, own).err == SUCCESS <==> IsNormal(n) && n[0] != ENTRY_DELETED)
            && (IsNormal(n) && n[0] != ENTRY_DELETED ==>
                  var e := Lookup(u, dl, gs, root, own).file;
                  e.size == 0 && e.firstCluster == f && e.attributes == 0x20)
            && (m != Normal(n) ==> Lookup(u, dl, gs, root, other) == Lookup(t, cl, fs, root, other))
  {
    hide Listing, Created, SlotClean, SlotCluster, Encoded, Normal, LowestFree, Walkable, Lookup, Components, Merged, IsNormal;
    RootPath(n);
    RootPath(m);
    var f := LowestFree(t);
    FirstFreeIs(t);
    NewFileWellFormed(t, fs, f);
    assert fs[root][0] == root;
    KeepsEnd(t, fs[root], f);
    LookupOne(t, cl, fs, root, m);
    CreatedLookup(t, t[f := ALLOCATED], cl, fs, fs[f := [f]], root, n, f, m);
    EncodedHead(n);
    if IsNormal(n) {
      NormalHead(n);
    }
  }

  lemma KeepsEnd(t: seq<uint32>, ch: seq<nat>, f: nat)
    requires DirChain(t, ch) && 2 <= f < |t| && Next(t, f) == 0
    ensures DirChain(t[f := ALLOCATED], ch)
  {
    if f in ch { UsedNotFree(t, ch, f); }
    ChainFrame(t, t[f := ALLOCATED], ch);
    assert ch[|ch| - 1] in ch;
  }

  lemma NormalHead(n: seq<byte>)
    requires IsNormal(n) && NUL !in n
    ensures n != [] && (Encoded(n)[0] == ENTRY_DELETED <==> n[0] == ENTRY_DELETED)
  {
    EncodedHead(n);
    if |Base(n)| == 0 { assert n[0] == DOT; }
  }

  /** A record stored in a cluster linked only to itself never shows up in the directory. */
  lemma GrowthUnlisted(t: seq<uint32>, cl: seq<seq<byte>>, ch: seq<nat>, f: nat, x: seq<byte>)
    requires Chain(t, ch) && 2 <= f < |t| && Next(t, f) == 0 && |cl| == |t| && InRange(cl, ch)
    ensures Chain(t[f := f], ch) && Next(t[f := f], f) == f
    ensures InRange(cl[f := x], ch) && Listing(cl[f := x], ch) == Listing(cl, ch)
  {
    hide AllRecords, Listed;
    if f in ch { UsedNotFree(t, ch, f); }
    ChainFrame(t, t[f := f], ch);
    assert forall i :: 0 <= i < |ch| ==> ch[i] in ch && ch[i] != f;
    AllRecordsFrame(cl, cl[f := x], ch);
  }
}
