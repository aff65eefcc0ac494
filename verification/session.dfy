/** The operations of a run through the code: make_file, open, seek, write and read on files of the root directory. */
module Sessions {
  import opened Bytes
  import opened Disks
  import opened Layout
  import opened Chains
  import opened Content
  import opened Records
  import opened FileSpec
  import opened FileErrors
  import opened Paths
  import opened Names
  import opened Volumes
  import opened Fat32Files
  import opened Fat32Tree
  import opened Directories
  import opened Slots
  import opened Lookups
  import opened Entries
  import opened Fat32Runs

  ghost function VolumeOf(fs: Fat32): Store
    reads fs.store, fs.store.vol
  {
    Store(fs.store.vol.table, fs.store.vol.clusters, fs.store.files)
  }

  /** The file system is mounted, and its volume is one a run can be made on. */
  ghost predicate Running(fs: Fat32)
    reads fs, fs.store, fs.store.vol, fs.store.vol.disk
  {
    fs.Valid() && fs.mounted && Proper(VolumeOf(fs), fs.Root(), fs.store.CS())
  }

  /** `path` is the path of the name `n` in the root directory. */
  ghost predicate InRoot(path: seq<byte>, n: seq<byte>) {
    Terminated(path) && CStr(path) == Merged([SLASH], n) && IsName(n) && |n| <= MAX_COMPONENT
  }

  /** The volume has the clusters the operation takes. */
  ghost predicate Enough(st: Store, op: Op, dir: nat, cs: nat)
    requires Proper(st, dir, cs)
  {
    match op
    case Make(n) => FreeSet(st.table) != {}
    case WriteTo(n, data) =>
      var e := Find(st, dir, n).file;
      e.firstCluster in st.files ==> Needed(|data|, cs) <= |st.files[e.firstCluster]| + |FreeSet(st.table)|
    case AppendTo(n, data) => AppendNeeds(Find(st, dir, n).file.size, |data|, cs) <= |FreeSet(st.table)|
  }

  /** The word behind the table is not overwritten by data written to the file: there is a second copy of the table, or
      cluster 2, which begins with that word, belongs to another chain, as it does on volumes whose root is there. */
  ghost predicate WordStays(fs: Fat32, op: Op)
    requires Running(fs)
    reads fs, fs.store, fs.store.vol, fs.store.vol.disk
  {
    var e := Find(VolumeOf(fs), fs.Root(), op.name).file;
    fs.store.vol.g.fatCopies >= 2
    || (Next(fs.store.vol.table, 2) != 0 && (e.firstCluster in fs.store.files ==> 2 !in fs.store.files[e.firstCluster]))
  }

  /** The allocator does not run past the table: there is enough room, or the word behind the table is taken and stays so
      while the operation runs. */
  ghost predicate Guarded(fs: Fat32, op: Op)
    requires Running(fs)
    reads fs, fs.store, fs.store.vol, fs.store.vol.disk
  {
    Enough(VolumeOf(fs), op, fs.Root(), fs.store.CS())
    || (fs.store.vol.past % ENTRY_MASK != 0 && (op.AppendTo? ==> WordStays(fs, op)))
  }

  /** A root directory on cluster 2 is such a chain. */
  lemma RootOnTwo(fs: Fat32, op: Op)
    requires Running(fs) && fs.Root() == 2 && fs.store.vol.past % ENTRY_MASK != 0
    requires var r := Find(VolumeOf(fs), fs.Root(), op.name); r.file.firstCluster != fs.Root()
    ensures Guarded(fs, op)
  {
    hide Volume.Valid, Tidy, Find, RestFree, Enough;
    var t, files := fs.store.vol.table, fs.store.files;
    FileChain(t, files, 2);
    UsedNotFree(t, files[2], 2);
    var s := Find(VolumeOf(fs), fs.Root(), op.name).file.firstCluster;
    if s in files { assert Apart(files[2], files[s]); }
  }

  lemma RootStat(fs: Fat32, n: seq<byte>)
    requires Running(fs) && IsName(n) && |n| <= MAX_COMPONENT
    ensures fs.CanWalk(Merged([SLASH], n))
    ensures Fat32Runs.SoundStore(VolumeOf(fs), fs.Root(), fs.store.CS())
    ensures fs.StatOf(Merged([SLASH], n)) == Find(VolumeOf(fs), fs.Root(), n)
  {
    hide Volume.Valid, Tidy, Listing, Named, Components, Walkable, Lookup, WellFormed;
    RootPath(n);
    var t, cl, files := fs.store.vol.table, fs.store.vol.clusters, fs.store.files;
    FileChain(t, files, fs.Root());
    LookupOne(t, cl, files, fs.Root(), n);
  }

  lemma RootItself(fs: Fat32)
    requires Running(fs)
    ensures Terminated([SLASH, NUL]) && CStr([SLASH, NUL]) == [SLASH] && fs.CanWalk([SLASH])
  {
    hide Volume.Valid, Proper, WellFormed;
    CStrIs([SLASH, NUL], 1);
    assert [SLASH][1..] == [];
  }

  /** What make_file will find and do, told beforehand. */
  lemma MakePlan(fs: Fat32, n: seq<byte>)
    requires Running(fs) && Supported(VolumeOf(fs), Make(n), fs.Root(), fs.store.CS())
    ensures CStr([SLASH, NUL]) == [SLASH] && |n| <= MAX_NAME && |Merged([SLASH], n)| < MAX_PATH_LEN
    ensures Terminated([SLASH, NUL]) && fs.CanWalk([SLASH]) && fs.CanWalk(Merged([SLASH], n))
    ensures fs.Root() in fs.store.files && fs.ParentCluster([SLASH]) == fs.Root()
    ensures var ch := fs.store.files[fs.Root()];
            && Chain(fs.store.vol.table, ch) && ch[0] == fs.Root() && InRange(fs.store.vol.clusters, ch)
            && (fs.Creates([SLASH], n) ==> SlotCluster(fs.store.vol.clusters, ch) < |ch|)
    ensures var st, dir := VolumeOf(fs), fs.Root();
            var f := LowestFree(st.table);
            Apply(st, Make(n), dir, fs.store.CS()) ==
            if fs.Creates([SLASH], n) && f < |st.table| then
              Step(Store(st.table[f := ALLOCATED], Created(st.clusters, st.files[dir], n, f), st.files[f := [f]]), SUCCESS)
            else Step(st, if fs.StatOf(Merged([SLASH], n)).err == SUCCESS then ALREADY_EXISTS else DISK_FULL)
  {
    hide Volume.Valid, Tidy, WellFormed, Created, LowestFree, SlotCluster, SlotClean, Encoded, Normal, Find, Fat32.StatOf, Fat32.CanWalk;
    RootStat(fs, n);
    RootItself(fs);
    FileChain(fs.store.vol.table, fs.store.files, fs.Root());
  }

  /** make_file in the root directory. */
  method MakeNamed(fs: Fat32, name: seq<byte>) returns (err: FSError)
    requires Running(fs) && Terminated(name) && Guarded(fs, Make(CStr(name)))
    requires Supported(VolumeOf(fs), Make(CStr(name)), fs.Root(), fs.store.CS())
    modifies fs.store`files, fs.store.vol`sectorBuf, fs.store.vol`table, fs.store.vol`clusters, fs.store.vol`past, fs.store.vol.disk
    ensures Running(fs)
    ensures Step(VolumeOf(fs), err) == old(Apply(VolumeOf(fs), Make(CStr(name)), fs.Root(), fs.store.CS()))
  {
    hide Volume.Valid, Proper, Supported, Apply, CStr, Merged, Created, LowestFree, SlotCluster;
    hide Fat32.StatOf, Fat32.CanWalk, Fat32.Creates, Fat32.ParentCluster, InRange, Chain, WellFormed;
    MakePlan(fs, CStr(name));
    StepProper(VolumeOf(fs), Make(CStr(name)), fs.Root(), fs.store.CS());
    err := fs.MakeFile([SLASH, NUL], name, fs.store.files[fs.Root()]);
  }

  /** The handle stands where open, or open and seek to the end, leaves it for this entry. */
  ghost predicate OpenedFor(fs: Fat32, h: FileHandle, e: FileEntry, mode: WriteMode)
    requires fs.store.CS() > 0 && e.firstCluster in fs.store.files
    requires mode == APPEND ==> TailReady(fs.store.files[e.firstCluster], fs.store.CS(), e.size)
    reads fs, fs.store, fs.store.vol, h
  {
    && h.valid && h.startCluster == e.firstCluster && h.parentCluster == e.parentCluster
    && fs.store.ViewOf(h) == Handle(VolumeOf(fs), e, mode, fs.store.CS())
  }

  /** An append from the last cluster of a file takes only clusters that were free, so not cluster 2 of another chain. */
  lemma TwoUntouched(v: View, start: nat, path: seq<nat>, cs: nat, data: seq<byte>)
    requires Prepared(v, start, path, cs, APPEND, |data|) && AtTail(v, start)
    requires 2 < |v.table| && Next(v.table, 2) != 0 && 2 !in v.files[start]
    ensures 2 !in AppendOutcome(v, start, path, cs, data).chain
  {
    hide Append, Way, Standing, AppendBacked;
    TailWay(v, start, path, cs);
    AppendOutside(v.table, v.clusters, Way(v, start), cs, v.size, data);
  }

  /** The table ends behind cluster 2. */
  lemma TableLong(fs: Fat32)
    requires fs.store.vol.Valid()
    ensures 2 < |fs.store.vol.table|
  {
  }

  /** What a write through such a handle will find and do, told beforehand. */
  lemma WritePlan(fs: Fat32, h: FileHandle, n: seq<byte>, mode: WriteMode, data: seq<byte>)
    requires Running(fs) && mode != INSERT
    requires Guarded(fs, if mode == WRITE then WriteTo(n, data) else AppendTo(n, data))
    requires IsFile(Find(VolumeOf(fs), fs.Root(), n))
    requires Writable(VolumeOf(fs), Find(VolumeOf(fs), fs.Root(), n).file, mode, |data|, fs.Root(), fs.store.CS())
    requires OpenedFor(fs, h, Find(VolumeOf(fs), fs.Root(), n).file, mode)
    ensures var e, dir, cs := Find(VolumeOf(fs), fs.Root(), n).file, fs.Root(), fs.store.CS();
            var path, v := PathTo(VolumeOf(fs), e, dir), fs.store.ViewOf(h);
            && fs.store.Valid() && fs.store.Opened(h, dir, path) && Prepared(v, h.startCluster, path, cs, mode, |data|)
            && (mode == WRITE ==>
                  fs.store.vol.past % ENTRY_MASK != 0 || Needed(|data|, cs) <= |v.files[h.startCluster]| + |FreeSet(v.table)|)
            && (mode == APPEND ==> fs.store.AppendAllowed(h, path, data) && AtTail(v, h.startCluster))
            && var w := WriteResult(v, h.startCluster, path, cs, mode, data);
               Step(StoreOf(w.view), w.err) == Through(VolumeOf(fs), n, mode, data, dir, cs)
  {
    hide Volume.Valid, Tidy, WellFormed, Find, Prepared, AppendOutcome, Appended, ClearBehind, Room, Append, MatchOnPath;
    hide WriteResult, FreeSet, AppendNeeds, Needed, InDirectory, AtTail;
    CanWrite(VolumeOf(fs), n, mode, |data|, fs.Root(), fs.store.CS());
    if mode == APPEND { AppendPast(fs, h, n, data); }
  }

  lemma AppendPast(fs: Fat32, h: FileHandle, n: seq<byte>, data: seq<byte>)
    requires Running(fs) && Guarded(fs, AppendTo(n, data)) && IsFile(Find(VolumeOf(fs), fs.Root(), n))
    requires var e := Find(VolumeOf(fs), fs.Root(), n).file;
             var v, path := fs.store.ViewOf(h), PathTo(VolumeOf(fs), e, fs.Root());
             && v.size == e.size && h.startCluster == e.firstCluster
             && InDirectory(v, e.firstCluster, fs.Root(), path, fs.store.CS())
             && Prepared(v, e.firstCluster, path, fs.store.CS(), APPEND, |data|) && AtTail(v, e.firstCluster)
    ensures fs.store.AppendAllowed(h, PathTo(VolumeOf(fs), Find(VolumeOf(fs), fs.Root(), n).file, fs.Root()), data)
  {
    hide Volume.Valid, Tidy, WellFormed, Find, Prepared, AppendOutcome, Append, MatchOnPath, FreeSet, AppendNeeds, AtTail;
    hide PathTo, SlotOf, Updated, Ready;
    var e := Find(VolumeOf(fs), fs.Root(), n).file;
    var v, path, cs := fs.store.ViewOf(h), PathTo(VolumeOf(fs), e, fs.Root()), fs.store.CS();
    TableLong(fs);
    WriteOkIff(v, e.firstCluster, fs.Root(), path, cs, APPEND, data);
    if e.firstCluster in v.files && Next(v.table, 2) != 0 && 2 !in v.files[e.firstCluster] {
      TwoUntouched(v, e.firstCluster, path, cs, data);
    }
  }

  /** What open answers for a name in the root. */
  lemma OpenPlan(fs: Fat32, path: seq<byte>, n: seq<byte>)
    requires Running(fs) && InRoot(path, n)
    ensures fs.Valid() && Terminated(path) && fs.CanWalk(CStr(path))
    ensures fs.StatOf(CStr(path)) == Find(VolumeOf(fs), fs.Root(), n)
    ensures fs.store.CS() > 0 && fs.Root() in fs.store.files && InRange(fs.store.vol.clusters, fs.store.files[fs.Root()])
  {
    hide Volume.Valid, Tidy, WellFormed, Find, CStr, Fat32.StatOf, Fat32.CanWalk;
    RootStat(fs, n);
  }

  /** The operation for a name that is no file's ends with open's answer. */
  lemma NoFile(st: Store, n: seq<byte>, mode: WriteMode, data: seq<byte>, dir: nat, cs: nat)
    requires Proper(st, dir, cs) && (IsFile(Find(st, dir, n)) ==> Writable(st, Find(st, dir, n).file, mode, |data|, dir, cs))
    requires !IsFile(Find(st, dir, n))
    ensures var r := Find(st, dir, n);
            Through(st, n, mode, data, dir, cs) == Step(st, if r.err == SUCCESS then NOT_A_FILE else r.err)
  {
    hide Find;
  }

  /** open, then write in WRITE mode. */
  method WriteNamed(fs: Fat32, path: seq<byte>, buffer: seq<byte>, size: uint32, ghost n: seq<byte>) returns (err: FSError)
    requires Running(fs) && InRoot(path, n) && size <= |buffer| && Guarded(fs, WriteTo(n, buffer[..size]))
    requires Supported(VolumeOf(fs), WriteTo(n, buffer[..size]), fs.Root(), fs.store.CS())
    modifies fs.store`files, fs.store.vol`sectorBuf, fs.store.vol`table, fs.store.vol`clusters, fs.store.vol`past, fs.store.vol.disk
    ensures Running(fs)
    ensures Step(VolumeOf(fs), err) == old(Apply(VolumeOf(fs), WriteTo(n, buffer[..size]), fs.Root(), fs.store.CS()))
  {
    hide Volume.Valid, Proper, Find, Writable, CStr, Merged, Through, Handle, WellFormed, InRoot, Written, Prepared, WriteResult;
    hide Fat32.StatOf, Fat32.CanWalk, FileStore.Opened;
    ghost var st, dir, cs, data := VolumeOf(fs), fs.Root(), fs.store.CS(), buffer[..size];
    OpenPlan(fs, path, n);
    StepProper(st, WriteTo(n, data), dir, cs);
    ghost var e := Find(st, dir, n).file;
    var h := new FileHandle();
    err := fs.Open(path, h);
    if err != SUCCESS {
      NoFile(st, n, WRITE, data, dir, cs);
      return;
    }
    WritableFile(st, e, WRITE, size, dir, cs);
    JustOpened(fs, h, e);
    WritePlan(fs, h, n, WRITE, data);
    err := fs.store.Write(h, buffer, size, WRITE, dir, PathTo(st, e, dir));
  }

  /** The handle after open. */
  lemma JustOpened(fs: Fat32, h: FileHandle, e: FileEntry)
    requires fs.store.CS() > 0 && e.firstCluster in fs.store.files && h.valid
    requires h.cluster == h.startCluster == e.firstCluster && h.parentCluster == e.parentCluster
    requires h.position == 0 && h.size == e.size
    ensures OpenedFor(fs, h, e, WRITE)
  {
  }

  /** The chain of the file, which seek walks from its first cluster. */
  lemma ChainPlan(fs: Fat32, e: FileEntry)
    requires Running(fs) && e.firstCluster in fs.store.files
    ensures var ch := fs.store.files[e.firstCluster];
            fs.store.vol.Valid() && Chain(fs.store.vol.table, ch) && |ch| > 0 && ch[0] == e.firstCluster && fs.store.CS() > 0
  {
    hide Volume.Valid, Tidy;
    FileChain(fs.store.vol.table, fs.store.files, e.firstCluster);
  }

  /** The handle after open and seek to the end. */
  lemma SoughtEnd(fs: Fat32, h: FileHandle, e: FileEntry)
    requires fs.store.CS() > 0 && e.firstCluster in fs.store.files && h.valid
    requires TailReady(fs.store.files[e.firstCluster], fs.store.CS(), e.size)
    requires h.startCluster == e.firstCluster && h.parentCluster == e.parentCluster && h.size == e.size
    requires var ch, c := fs.store.files[e.firstCluster], AfterSeek(fs.store.CS(), Cursor(0, 0), e.size);
             h.position == e.size && if e.size == 0 then h.cluster == ch[0] else c.index < |ch| && h.cluster == ch[c.index]
    ensures OpenedFor(fs, h, e, APPEND)
  {
    DivUnique(fs.store.CS(), 0, 0, 0);
  }

  /** Seeking to the end of a tail-ready file succeeds. */
  lemma EndReached(cs: nat, ch: seq<nat>, size: nat)
    requires cs > 0 && TailReady(ch, cs, size)
    ensures AfterSeek(cs, Cursor(0, 0), size).index < |ch| && AfterSeek(cs, Cursor(0, 0), size).position == size
  {
  }

  /** open, seek to the end, then write in APPEND mode. */
  method AppendNamed(fs: Fat32, path: seq<byte>, buffer: seq<byte>, size: uint32, ghost n: seq<byte>) returns (err: FSError)
    requires Running(fs) && InRoot(path, n) && size <= |buffer| && Guarded(fs, AppendTo(n, buffer[..size]))
    requires Supported(VolumeOf(fs), AppendTo(n, buffer[..size]), fs.Root(), fs.store.CS())
    modifies fs.store`files, fs.store.vol`sectorBuf, fs.store.vol`table, fs.store.vol`clusters, fs.store.vol`past, fs.store.vol.disk
    ensures Running(fs)
    ensures Step(VolumeOf(fs), err) == old(Apply(VolumeOf(fs), AppendTo(n, buffer[..size]), fs.Root(), fs.store.CS()))
  {
    hide Volume.Valid, Proper, Find, Writable, CStr, Merged, Through, Handle, WellFormed, InRoot, Appended, Prepared, WriteResult;
    hide Fat32.StatOf, Fat32.CanWalk, FileStore.Opened, FileStore.AppendAllowed, AfterSeek, TailReady, Chain;
    ghost var st, dir, cs, data := VolumeOf(fs), fs.Root(), fs.store.CS(), buffer[..size];
    OpenPlan(fs, path, n);
    StepProper(st, AppendTo(n, data), dir, cs);
    ghost var e := Find(st, dir, n).file;
    var h := new FileHandle();
    err := fs.Open(path, h);
    if err != SUCCESS {
      NoFile(st, n, APPEND, data, dir, cs);
      return;
    }
    WritableFile(st, e, APPEND, size, dir, cs);
    ChainPlan(fs, e);
    ghost var ch := fs.store.files[e.firstCluster];
    EndReached(cs, ch, e.size);
    err := fs.store.Seek(h, h.size, ch, 0);
    SoughtEnd(fs, h, e);
    WritePlan(fs, h, n, APPEND, data);
    err := fs.store.Write(h, buffer, size, APPEND, dir, PathTo(st, e, dir));
  }

  /** The bytes of a file from a position on, up to `k` of them. */
  function Piece(data: seq<byte>, p: nat, k: nat): (r: seq<byte>)
    ensures p <= |data| ==> r == data[p..Min(p + k, |data|)]
  {
    if p <= |data| then UpTo(data[p..], k) else []
  }

  /** Reading from position `p` of the entry's chain, after a seek from its first cluster, gives `piece`. */
  ghost predicate Readable(fs: Fat32, e: FileEntry, p: nat, k: nat, piece: seq<byte>)
    reads fs, fs.store, fs.store.vol
  {
    var cs := fs.store.CS();
    && cs > 0 && e.firstCluster in fs.store.files
    && var ch, c := fs.store.files[e.firstCluster], AfterSeek(cs, Cursor(0, 0), p);
       && Ready(fs.store.vol.table, fs.store.vol.clusters, ch, cs)
       && ch[0] == e.firstCluster && c.position == p && (p == 0 ==> c == Cursor(0, 0)) && (p < e.size ==> c.index < |ch|)
       && ReadBase(cs, c) + ReadCount(c, e.size, k) <= Times(cs, |ch|)
       && ReadBytes(Flat(fs.store.vol.clusters, ch, cs), cs, c, e.size, k) == piece
  }

  /** What reading a file of a run will find. */
  lemma ReadPlan(fs: Fat32, m: Contents, n: seq<byte>, p: nat, k: nat)
    requires Running(fs) && Refines(VolumeOf(fs), m, fs.Root(), fs.store.CS()) && n in m && p <= |m[n]|
    ensures fs.Root() in fs.store.files && InRange(fs.store.vol.clusters, fs.store.files[fs.Root()])
    ensures var r := Find(VolumeOf(fs), fs.Root(), n);
            IsFile(r) && r.file.size == |m[n]| && Readable(fs, r.file, p, k, Piece(m[n], p, k))
  {
    hide Volume.Valid, Tidy, Find, Flat, AllApart, RestFree;
    var cs := fs.store.CS();
    var e := Find(VolumeOf(fs), fs.Root(), n).file;
    assert Filed(VolumeOf(fs), e, m[n], fs.Root(), cs);
    var ch := fs.store.files[e.firstCluster];
    var flat := Flat(fs.store.vol.clusters, ch, cs);
    SeekThenRead(flat, cs, Cursor(0, 0), e.size, p, k);
    SliceOfPrefix(flat, m[n], p, Min(p + k, |m[n]|));
    DivSplit(cs, p);
    if p < |m[n]| && |ch| <= Quot(p, cs) { TimesMono(cs, |ch|, Quot(p, cs)); }
  }

  /** open, seek to a position, then read: the bytes meant to be in the file from there on. Only at the very end of a
      file that fills its chain does seek fail instead. */
  method ReadNamed(fs: Fat32, path: seq<byte>, position: uint32, buffer: array<byte>, size: uint32, ghost n: seq<byte>,
                   ghost m: Contents)
    returns (err: FSError, bytesRead: nat)
    requires Running(fs) && Refines(VolumeOf(fs), m, fs.Root(), fs.store.CS()) && InRoot(path, n)
    requires n in m && position <= |m[n]| && size <= buffer.Length
    modifies fs.store.vol`sectorBuf, buffer
    ensures Running(fs)
    ensures position < |m[n]| || position == 0 ==> err == SUCCESS
    ensures err == SUCCESS ==> bytesRead == |Piece(m[n], position, size)| && Piece(m[n], position, size) <= buffer[..]
  {
    hide Volume.Valid, Proper, Refines, Find, CStr, Merged, WellFormed, InRoot, Flat, Times, ReadBytes, ReadBase, Ready;
    hide Fat32.StatOf, Fat32.CanWalk, AfterSeek, AfterRead, Chain, Piece, Followed, ReadLeaves;
    OpenPlan(fs, path, n);
    ReadPlan(fs, m, n, position, size);
    var h := new FileHandle();
    err := fs.Open(path, h);
    ghost var ch := fs.store.files[h.startCluster];
    ReadyChain(fs.store.vol.table, fs.store.vol.clusters, ch, fs.store.CS());
    ghost var c := AfterSeek(fs.store.CS(), Cursor(0, 0), position);
    err := fs.store.Seek(h, position, ch, 0);
    if err != SUCCESS {
      bytesRead := 0;
      return;
    }
    ghost var t, cl, cs := fs.store.vol.table, fs.store.vol.clusters, fs.store.CS();
    if h.position < h.size {
      WholeFollowed(t, cl, ch, cs, c, h.size, size, buffer.Length);
    }
    err, bytesRead := fs.store.Read(h, buffer, size, ch, c.index);
    if c.position < h.size {
      ReadWhole(t, cl, ch, cs, c, h.size, size, buffer[..], bytesRead, h.position, h.cluster);
    }
  }
}
