/** Making a file below a directory other than the root: its record goes beside that directory's own. */
module Fat32Beside {
  import opened Bytes
  import opened Disks
  import opened Layout
  import opened Chains
  import opened Content
  import opened Records
  import opened Paths
  import opened Names
  import opened Directories
  import opened Slots
  import opened Lookups
  import opened FileErrors

  /** Every record lies in a cluster of the chain. */
  lemma {:induction false} RecordsWithin(cl: seq<seq<byte>>, ch: seq<nat>)
    requires InRange(cl, ch)
    ensures forall q :: 0 <= q < |AllRecords(cl, ch)| ==> AllRecords(cl, ch)[q].cluster in ch
  {
    if ch != [] { RecordsWithin(cl, ch[1..]); }
  }

  lemma Parted(cl: seq<seq<byte>>, r: seq<nat>, j: nat)
    requires InRange(cl, r) && j < |r|
    ensures InRange(cl, r[..j]) && InRange(cl, r[j..]) && AllRecords(cl, r) == AllRecords(cl, r[..j]) + AllRecords(cl, r[j..])
  {
    hide AllRecords;
    assert r == r[..j] + r[j..];
    AllRecordsConcat(cl, r[..j], r[j..]);
  }

  /** No end marker lies in front of a cluster that a listed entry was found in. */
  lemma OpenBefore(cl: seq<seq<byte>>, r: seq<nat>, j: nat, i: nat)
    requires InRange(cl, r) && Distinct(r) && j < |r| && i < |Listing(cl, r)| && Listing(cl, r)[i].parentCluster == r[j]
    ensures InRange(cl, r[..j]) && forall q :: 0 <= q < |AllRecords(cl, r[..j])| ==> AllRecords(cl, r[..j])[q].rec[0] != 0
  {
    hide Listed, AllRecords, Decoded;
    Parted(cl, r, j);
    RecordsWithin(cl, r[..j]);
    var rs, before := AllRecords(cl, r), AllRecords(cl, r[..j]);
    var ix := ListedIff(rs);
    var p := ix[i];
    assert p in ix && rs[p].cluster == r[j];
    assert forall q :: 0 <= q < |before| ==> rs[q] == before[q] && before[q].cluster in r[..j];
    assert r[j] !in r[..j];
  }

  /** The listing in front of the chain's `j`-th cluster, and the one from there on. */
  lemma ListedAround(cl: seq<seq<byte>>, r: seq<nat>, j: nat)
    requires InRange(cl, r) && j < |r| && InRange(cl, r[..j])
    requires forall q :: 0 <= q < |AllRecords(cl, r[..j])| ==> AllRecords(cl, r[..j])[q].rec[0] != 0
    ensures InRange(cl, r[j..]) && Listing(cl, r) == Listing(cl, r[..j]) + Listing(cl, r[j..])
  {
    hide Listed, AllRecords;
    Parted(cl, r, j);
    ListedConcat(AllRecords(cl, r[..j]), AllRecords(cl, r[j..]));
  }

  lemma Around(a: seq<FileEntry>, b: seq<FileEntry>, m: seq<FileEntry>, c: seq<FileEntry>)
    ensures a + (b + m + c) == (a + b) + m + c && a + (b + c) == (a + b) + c
  {
  }

  /** The entries listed in front of a record put into the chain from its `j`-th cluster on. */
  ghost function InFront(cl: seq<seq<byte>>, r: seq<nat>, j: nat): (l: seq<FileEntry>)
    requires InRange(cl, r) && j < |r| && SlotCluster(cl, r[j..]) < |r[j..]|
    ensures AllTerminated(l)
  {
    Listing(cl, r[..j]) + Front(cl, r[j..])
  }

  ghost function Behind(cl: seq<seq<byte>>, r: seq<nat>, j: nat): (l: seq<FileEntry>)
    requires InRange(cl, r) && j < |r| && SlotCluster(cl, r[j..]) < |r[j..]|
    ensures AllTerminated(l)
  {
    Back(cl, r[j..])
  }

  /** The listing of the whole directory before and after. */
  lemma ListedBeside(cl: seq<seq<byte>>, r: seq<nat>, j: nat, n: seq<byte>, f: uint32)
    requires InRange(cl, r) && Distinct(r) && j < |r| && NUL !in n && InRange(cl, r[..j])
    requires SlotCluster(cl, r[j..]) < |r[j..]| && SlotClean(cl, r[j..])
    requires forall q :: 0 <= q < |AllRecords(cl, r[..j])| ==> AllRecords(cl, r[..j])[q].rec[0] != 0
    ensures var dl := Created(cl, r[j..], n, f);
            && InRange(dl, r) && Listing(cl, r) == InFront(cl, r, j) + Behind(cl, r, j)
            && Listing(dl, r) == InFront(cl, r, j)
                 + (if Encoded(n)[0] == ENTRY_DELETED then [] else [CreatedEntry(cl, r[j..], n, f)]) + Behind(cl, r, j)
  {
    hide Listing, AllRecords, Front, Back, Created, CreatedEntry, SlotCluster, SlotClean, Encoded, FreeFrom;
    var ch := r[j..];
    var dl := Created(cl, ch, n, f);
    ListedAround(cl, r, j);
    CreatedListing(cl, ch, n, f);
    CreatedInRange(cl, ch, n, f);
    assert InRange(dl, r) && InRange(dl, r[..j]);
    OtherClusters(cl, r, j, n, f, r[..j]);
    ListedAround(dl, r, j);
    Around(Listing(cl, r[..j]), Front(cl, ch), if Encoded(n)[0] == ENTRY_DELETED then [] else [CreatedEntry(cl, ch, n, f)], Back(cl, ch));
  }

  /** A chain apart from the one the record goes to keeps its records and its listing. */
  lemma OtherClusters(cl: seq<seq<byte>>, r: seq<nat>, j: nat, n: seq<byte>, f: uint32, o: seq<nat>)
    requires InRange(cl, r) && Distinct(r) && j < |r| && SlotCluster(cl, r[j..]) < |r[j..]| && InRange(cl, o) && Apart(r[j..], o)
    ensures var dl := Created(cl, r[j..], n, f);
            InRange(dl, o) && AllRecords(dl, o) == AllRecords(cl, o) && Listing(dl, o) == Listing(cl, o)
  {
    hide AllRecords, SlotCluster, RecordPut, OpenSlot, NoSlot, FreeFrom, Created;
    var ch := r[j..];
    CreatedPut(cl, ch, n, f);
    CreatedInRange(cl, ch, n, f);
    var k := SlotCluster(cl, ch);
    assert ch[k] in ch;
    AllRecordsFrame(cl, Created(cl, ch, n, f), o);
  }

  /** What is found under a name when an entry is put between others. */
  lemma FoundAmong(a: seq<FileEntry>, e: FileEntry, b: seq<FileEntry>, name: seq<byte>)
    requires AllTerminated(a) && AllTerminated(b) && Terminated(e.name)
    ensures AllTerminated(a + b) && AllTerminated(a + [e] + b)
    ensures Named(a + b, name) == if Named(a, name).err == SUCCESS then Named(a, name) else Named(b, name)
    ensures Named(a + [e] + b, name) ==
            if Named(a, name).err == SUCCESS then Named(a, name)
            else if CStr(e.name) == name then StatResult(SUCCESS, e) else Named(b, name)
  {
    hide Named, AllTerminated, CStr;
    NamedOne(e, name);
    NamedConcat(a, b, name);
    NamedConcat([e], b, name);
    NamedConcat(a, [e] + b, name);
    assert a + [e] + b == a + ([e] + b);
  }

  /** Putting a file among the entries leaves a name that led to a directory with it, or makes it lead to the file. */
  lemma StillThrough(a: seq<FileEntry>, x: FileEntry, shown: bool, b: seq<FileEntry>, d: seq<byte>)
    requires AllTerminated(a) && AllTerminated(b) && Terminated(x.name) && !x.IsDirectory() && AllTerminated(a + b)
    ensures var m := if shown then [x] else [];
            AllTerminated(a + m + b) && (Named(a + m + b, d) == Named(a + b, d) || Named(a + m + b, d) == StatResult(SUCCESS, x))
  {
    hide Named, AllTerminated;
    FoundAmong(a, x, b, d);
    NoMiddle(a, b);
  }

  ghost predicate SoundAt(t: seq<uint32>, cl: seq<seq<byte>>, fs: Files, dir: nat) {
    dir in fs && DirChain(t, fs[dir]) && fs[dir][0] == dir && InRange(cl, fs[dir])
  }

  /** The lookup of a path of two components. */
  lemma LookupTwo(t: seq<uint32>, cl: seq<seq<byte>>, fs: Files, dir: nat, d: seq<byte>, n: seq<byte>)
    requires SoundAt(t, cl, fs, dir)
    requires var s := Named(Listing(cl, fs[dir]), d); s.err == SUCCESS && s.file.IsDirectory() ==> SoundAt(t, cl, fs, s.file.firstCluster)
    ensures var s, p := Named(Listing(cl, fs[dir]), d), [d, n];
            && Walkable(t, cl, fs, dir, p)
            && Lookup(t, cl, fs, dir, p) ==
               if s.err != SUCCESS then NOT_THERE
               else if s.file.IsDirectory() then Named(Listing(cl, fs[s.file.firstCluster]), n)
               else StatResult(NOT_A_DIRECTORY, NO_ENTRY)
  {
    hide Listing, DirChain, FileEntry.IsDirectory;
    var s := Named(Listing(cl, fs[dir]), d);
    assert [d, n][1..] == [n];
    if s.err == SUCCESS && s.file.IsDirectory() { LookupOne(t, cl, fs, s.file.firstCluster, n); }
  }

  lemma OneLookup(t: seq<uint32>, cl: seq<seq<byte>>, fs: Files, dir: nat, m: seq<byte>)
    requires SoundAt(t, cl, fs, dir)
    ensures dir in fs && InRange(cl, fs[dir])
    ensures Walkable(t, cl, fs, dir, [m]) && Lookup(t, cl, fs, dir, [m]) == Named(Listing(cl, fs[dir]), m)
  {
    LookupOne(t, cl, fs, dir, m);
  }

  /** The directory `d` of another one, as a path leads through it. */
  ghost predicate Below(t: seq<uint32>, cl: seq<seq<byte>>, fs: Files, dir: nat, d: seq<byte>, j: nat) {
    && SoundAt(t, cl, fs, dir) && j < |fs[dir]|
    && var s := Named(Listing(cl, fs[dir]), d);
       && s.err == SUCCESS && s.file.attributes / 16 % 2 == 1 && s.file.parentCluster == fs[dir][j]
       && s.file.firstCluster != dir && SoundAt(t, cl, fs, s.file.firstCluster)
  }

  /** What stays of the chains when the first free cluster becomes a file. */
  lemma ChainsStay(t: seq<uint32>, cl: seq<seq<byte>>, fs: Files, dir: nat)
    requires WellFormed(t, fs) && SoundAt(t, cl, fs, dir) && 2 <= |t| <= CHAIN_END && LowestFree(t) < |t|
    ensures var f := LowestFree(t); dir != f && DirChain(t[f := ALLOCATED], fs[dir]) && WellFormed(t[f := ALLOCATED], fs[f := [f]])
  {
    hide DirChain, LowestFree, WellFormed;
    var f := LowestFree(t);
    NewFileWellFormed(t, fs, f);
    KeepsEnd(t, fs[dir], f);
    StartUsed(t, fs[dir], f);
  }

  lemma StartUsed(t: seq<uint32>, ch: seq<nat>, f: nat)
    requires DirChain(t, ch) && 2 <= f < |t| && Next(t, f) == 0
    ensures ch[0] != f
  {
    UsedNotFree(t, ch, ch[0]);
  }

  lemma SuffixChain(t: seq<uint32>, r: seq<nat>, j: nat)
    requires Chain(t, r) && j < |r|
    ensures Chain(t, r[j..]) && r[j..][0] == r[j]
  {
    assert forall i :: 0 <= i < |r[j..]| ==> r[j..][i] == r[i + j];
  }

  /** What the two lookups answer before and after, by the entries listed. */
  lemma LookupsBeside(t: seq<uint32>, cl: seq<seq<byte>>, fs: Files, u: seq<uint32>, dl: seq<seq<byte>>, gs: Files, dir: nat,
                      d: seq<byte>, n: seq<byte>, e: nat, a: seq<FileEntry>, x: FileEntry, shown: bool, b: seq<FileEntry>)
    requires SoundAt(t, cl, fs, dir) && SoundAt(t, cl, fs, e) && SoundAt(u, dl, gs, dir) && SoundAt(u, dl, gs, e)
    requires AllTerminated(a) && AllTerminated(b) && Terminated(x.name) && !x.IsDirectory()
    requires Listing(cl, fs[dir]) == a + b && Listing(dl, gs[dir]) == a + (if shown then [x] else []) + b
    requires Listing(dl, gs[e]) == Listing(cl, fs[e])
    requires var s := Named(Listing(cl, fs[dir]), d); s.err == SUCCESS && s.file.IsDirectory() && s.file.firstCluster == e
    requires Walkable(t, cl, fs, dir, [d, n]) && Lookup(t, cl, fs, dir, [d, n]).err != SUCCESS
    ensures Walkable(u, dl, gs, dir, [d, n]) && Lookup(u, dl, gs, dir, [d, n]).err != SUCCESS
    ensures Walkable(t, cl, fs, dir, [n]) && Walkable(u, dl, gs, dir, [n])
    ensures shown && CStr(x.name) == n && Lookup(t, cl, fs, dir, [n]).err == NOT_FOUND ==>
              Lookup(u, dl, gs, dir, [n]) == StatResult(SUCCESS, x)
  {
    hide Listing, Walkable, Lookup, Named, CStr, Terminated, DirChain, InRange, FileEntry.IsDirectory;
    LookupTwo(t, cl, fs, dir, d, n);
    StillThrough(a, x, shown, b, d);
    LookupTwo(u, dl, gs, dir, d, n);
    OneLookup(t, cl, fs, dir, n);
    OneLookup(u, dl, gs, dir, n);
    FoundAmong(a, x, b, n);
  }

  /** The chains after make_file below `d`. */
  lemma BesideChains(t: seq<uint32>, cl: seq<seq<byte>>, fs: Files, dir: nat, d: seq<byte>, n: seq<byte>, j: nat, e: nat)
    requires WellFormed(t, fs) && |cl| == |t| && 2 <= |t| <= CHAIN_END && LowestFree(t) < |t|
    requires Below(t, cl, fs, dir, d, j) && e == Named(Listing(cl, fs[dir]), d).file.firstCluster
    requires SlotCluster(cl, fs[dir][j..]) < |fs[dir][j..]|
    ensures var f := LowestFree(t);
            var u, gs, dl := t[f := ALLOCATED], fs[f := [f]], Created(cl, fs[dir][j..], n, f);
            && WellFormed(u, gs) && SoundAt(u, dl, gs, dir) && SoundAt(u, dl, gs, e) && gs[dir] == fs[dir] && gs[e] == fs[e]
            && Listing(dl, fs[e]) == Listing(cl, fs[e])
  {
    hide Listing, Created, SlotCluster, LowestFree, DirChain, WellFormed;
    var r, f := fs[dir], LowestFree(t);
    RootFacts(t, cl, fs, dir, d, j, e);
    CreatedInRange(cl, r[j..], n, f);
    OtherClusters(cl, r, j, n, f, fs[e]);
    ChainsStay(t, cl, fs, dir);
    ChainsStay(t, cl, fs, e);
  }

  /** make_file below the directory `d` of another one: it stores the record of `n` where the record of `d` is, so that a
      lookup of `d` and then `n` does not find the file, whatever the two names are. A lookup of `n` beside `d` does, if nothing had that name and it is a visible normal one. */
  lemma MadeBeside(t: seq<uint32>, cl: seq<seq<byte>>, fs: Files, dir: nat, d: seq<byte>, n: seq<byte>, j: nat)
    requires WellFormed(t, fs) && |cl| == |t| && 2 <= |t| <= CHAIN_END && LowestFree(t) < |t|
    requires Below(t, cl, fs, dir, d, j) && NUL !in n
    requires SlotCluster(cl, fs[dir][j..]) < |fs[dir][j..]| && SlotClean(cl, fs[dir][j..])
    requires Walkable(t, cl, fs, dir, [d, n]) && Lookup(t, cl, fs, dir, [d, n]).err != SUCCESS
    ensures var f, ch := LowestFree(t), fs[dir][j..];
            var u, gs, dl := t[f := 0x0FFF_FFFF], fs[f := [f]], Created(cl, ch, n, f);
            && WellFormed(u, gs) && Chain(t, ch) && ch[0] == Named(Listing(cl, fs[dir]), d).file.parentCluster
            && Walkable(u, dl, gs, dir, [d, n]) && Lookup(u, dl, gs, dir, [d, n]).err != SUCCESS
            && Walkable(t, cl, fs, dir, [n]) && Walkable(u, dl, gs, dir, [n])
            && (Lookup(t, cl, fs, dir, [n]).err == NOT_FOUND && IsNormal(n) && Encoded(n)[0] != 0xE5 ==>
                  var r := Lookup(u, dl, gs, dir, [n]);
                  r.err == SUCCESS && r.file.size == 0 && r.file.firstCluster == f && r.file.attributes == 0x20)
  {
    hide Listing, InFront, Behind, Created, SlotCluster, SlotClean, LowestFree, DirChain, Walkable, Lookup, WellFormed;
    hide Encoded, Named, IsNormal, Normal, CStr, Terminated, AllTerminated;
    var r, f := fs[dir], LowestFree(t);
    var e := Named(Listing(cl, r), d).file.firstCluster;
    RootFacts(t, cl, fs, dir, d, j, e);
    BesideChains(t, cl, fs, dir, d, n, j, e);
    ListedBeside(cl, r, j, n, f);
    var x := CreatedEntry(cl, r[j..], n, f);
    LookupsBeside(t, cl, fs, t[f := ALLOCATED], Created(cl, r[j..], n, f), fs[f := [f]], dir, d, n, e,
                  InFront(cl, r, j), x, Encoded(n)[0] != ENTRY_DELETED, Behind(cl, r, j));
    DecodeEncode(n);
    NormalIff(n);
  }

  lemma RootFacts(t: seq<uint32>, cl: seq<seq<byte>>, fs: Files, dir: nat, d: seq<byte>, j: nat, e: nat)
    requires WellFormed(t, fs) && Below(t, cl, fs, dir, d, j) && e == Named(Listing(cl, fs[dir]), d).file.firstCluster
    ensures var r := fs[dir];
            && Distinct(r) && InRange(cl, r[..j]) && Chain(t, r[j..]) && r[j..][0] == r[j] && Apart(r[j..], fs[e])
            && forall q :: 0 <= q < |AllRecords(cl, r[..j])| ==> AllRecords(cl, r[..j])[q].rec[0] != 0
  {
    hide Listing, AllRecords;
    var r := fs[dir];
    ChainDistinct(t, r);
    SuffixChain(t, r, j);
    OpenBefore(cl, r, j, FirstNamed(Listing(cl, r), d));
    assert Apart(r, fs[e]);
  }

  /** The full path of the new file has the two names as its components. */
  lemma BelowPath(d: seq<byte>, n: seq<byte>)
    requires IsName(d) && IsName(n) && |d| <= 255 && |n| <= 255
    ensures Components(Merged(Merged([SLASH], d), n), 16) == [d, n]
  {
    hide Components, Merged;
    RootPath(d);
    OnlySegment(d);
    SplitMerged(Merged([SLASH], d), n, 16);
  }

  lemma OnlySegment(d: seq<byte>)
    requires IsName(d)
    ensures Merged([SLASH], d)[0] == SLASH && |Segments(Merged([SLASH], d)[1..])| == 1
  {
    SegmentsOfMerged([SLASH], d);
    assert Segments([SLASH][1..]) == [];
  }
}
