/** The FAT32 operations on names: stat, open and make_file. */
module Fat32Tree {
  import opened Bytes
  import opened Disks
  import opened Layout
  import opened Chains
  import opened Content
  import opened Records
  import opened Paths
  import opened Names
  import opened Volumes
  import opened Directories
  import opened Slots
  import opened Lookups
  import opened FileErrors
  import opened Fat32Files

  const MAX_DEPTH: nat := 16
  const MAX_PATH_LEN: nat := 4096
  const MAX_NAME: nat := 255

  lemma NextOf(l: seq<FileEntry>, k: nat)
    requires k < |l|
    ensures l[k + 1..] == [] <==> k + 1 == |l|
    ensures k + 1 < |l| ==> l[k + 1..][0] == l[k + 1] && l[k + 1..][1..] == l[k + 2..]
  {
  }

  lemma NotOnChain(t: seq<uint32>, ch: seq<nat>, f: nat)
    requires Chain(t, ch) && 2 <= f < |t| && Next(t, f) == 0
    ensures f !in ch && Chain(t[f := ALLOCATED], ch)
  {
    if f in ch { UsedNotFree(t, ch, f); }
    ChainFrame(t, t[f := ALLOCATED], ch);
  }

  lemma SlotHeld(cl: seq<byte>)
    ensures HasSlot(cl) ==> cl != []
  {
  }

  class Fat32 {
    const store: FileStore
    var mounted: bool

    constructor (store: FileStore)
      ensures this.store == store && !mounted
    {
      this.store, mounted := store, false;
    }

    ghost predicate Valid()
      reads store, store.vol, store.vol.disk
    {
      store.Valid() && store.vol.g.perCluster <= 8
    }

    ghost function Root(): nat { store.vol.g.root }

    /** All directories an absolute path leads through are sound. */
    ghost predicate CanWalk(path: seq<byte>)
      reads store, store.vol
    {
      path != [] && path[0] == SLASH ==>
        Walkable(store.vol.table, store.vol.clusters, store.files, Root(), Components(path, MAX_DEPTH))
    }

    /** What stat answers. */
    ghost function StatOf(path: seq<byte>): StatResult
      requires CanWalk(path)
      reads this, store, store.vol
    {
      if !mounted then StatResult(INVALID_FILESYSTEM, NO_ENTRY)
      else if path == [] || path[0] != SLASH then StatResult(INVALID_PATH, NO_ENTRY)
      else Lookup(store.vol.table, store.vol.clusters, store.files, Root(), Components(path, MAX_DEPTH))
    }

    /** The path is absolute, and the record at `p` of the root is the first one seen under its first component. */
    ghost predicate Reaches(path: seq<byte>, p: nat)
      reads this, store, store.vol
    {
      && mounted && path != [] && path[0] == 47 && Components(path, 16) != []
      && store.vol.g.root in store.files && InRange(store.vol.clusters, store.files[store.vol.g.root])
      && FirstSeen(RootRecords(), p, Components(path, 16)[0])
    }

    ghost function RootRecords(): seq<Placed>
      requires store.vol.g.root in store.files && InRange(store.vol.clusters, store.files[store.vol.g.root])
      ensures forall j :: 0 <= j < |RootRecords()| ==> |RootRecords()[j].rec| == RECORD
      reads store, store.vol
    {
      AllRecords(store.vol.clusters, store.files[store.vol.g.root])
    }

    /** What stat answers, by that record: the record itself for a path of one component; for a longer one the lookup of
        the rest in the directory it names if bit 0x10 of its attribute byte is set, and NOT_A_DIRECTORY if it is not. */
    lemma StatThrough(path: seq<byte>, p: nat)
      requires CanWalk(path) && Reaches(path, p)
      ensures p < |RootRecords()|
      ensures var at, comps, r := RootRecords()[p], Components(path, 16), StatOf(path);
              && (|comps| == 1 ==> r.err == SUCCESS && Tells(at, r.file))
              && (|comps| >= 2 && at.rec[11] / 16 % 2 == 0 ==> r == StatResult(NOT_A_DIRECTORY, NO_ENTRY))
              && (|comps| >= 2 && at.rec[11] / 16 % 2 == 1 ==>
                    && Walkable(store.vol.table, store.vol.clusters, store.files, Names32(at.rec), comps[1..])
                    && r == Lookup(store.vol.table, store.vol.clusters, store.files, Names32(at.rec), comps[1..]))
    {
      hide Walkable, Lookup, Components, AllRecords, FirstSeen, Tells;
      LookupThrough(store.vol.table, store.vol.clusters, store.files, store.vol.g.root, Components(path, 16), p);
    }

    /** First entry of one directory with the given name. */
    method FindNamed(dir: nat, name: seq<byte>) returns (found: bool, file: FileEntry)
      requires Valid() && Terminated(name)
      requires dir in store.files && DirChain(store.vol.table, store.files[dir]) && store.files[dir][0] == dir
      requires InRange(store.vol.clusters, store.files[dir])
      ensures Valid()
      ensures var l := ListingAt(store.vol.clusters, store.files, dir);
              var i := FirstNamed(l, CStr(name));
              found == (i < |l|) && (found ==> file == l[i])
    {
      hide Volume.Valid, WellFormed, Listing, Listed, Ahead, FirstNamed, DirectoryIterator.Valid, DirectoryIterator.Remaining, CStr;
      ghost var l := ListingAt(store.vol.clusters, store.files, dir);
      var iter := new DirectoryIterator(store.vol, dir, store.files[dir]);
      ghost var k := 0;
      var err;
      assert iter.Remaining() == l;
      err, file := iter.NextEntry();
      while err != END_OF_DIRECTORY
        invariant iter.Valid() && fresh(iter) && iter.vol == store.vol && k <= |l|
        invariant err == SUCCESS || err == END_OF_DIRECTORY
        invariant err == SUCCESS ==> k < |l| && file == l[k] && iter.Remaining() == l[k + 1..]
        invariant err == END_OF_DIRECTORY ==> k == |l|
        invariant k <= FirstNamed(l, CStr(name))
        decreases |l| - k, err == SUCCESS
      {
        var same := Strcmp(file.name, name);
        if same {
          return true, file;
        }
        NextOf(l, k);
        err, file := iter.NextEntry();
        k := k + 1;
      }
      return false, file;
    }

    method Stat(path: seq<byte>) returns (err: FSError, file: FileEntry)
      requires Valid() && Terminated(path) && CanWalk(CStr(path))
      ensures Valid() && StatResult(err, file) == StatOf(CStr(path))
      ensures !mounted ==> err == INVALID_FILESYSTEM
      ensures mounted && (CStr(path) == [] || CStr(path)[0] != 47) ==> err == INVALID_PATH
      ensures mounted && CStr(path) != [] && CStr(path)[0] == 47 ==>
                && Walkable(store.vol.table, store.vol.clusters, store.files, store.vol.g.root, Components(CStr(path), 16))
                && StatResult(err, file)
                   == Lookup(store.vol.table, store.vol.clusters, store.files, store.vol.g.root, Components(CStr(path), 16))
    {
      hide Volume.Valid, WellFormed, Listing, Components, DirChain, Walkable, Lookup, Holds, CStr;
      file := NO_ENTRY;
      if !mounted {
        return INVALID_FILESYSTEM, file;
      }
      var components := new byte[MAX_DEPTH, MAX_COMPONENT + 1];
      var ok, count := SplitPath(path, components, MAX_DEPTH);
      if !ok {
        return INVALID_PATH, file;
      }
      ghost var comps := Components(CStr(path), MAX_DEPTH);
      ghost var t, cl, fs := store.vol.table, store.vol.clusters, store.files;
      var currentCluster := store.vol.g.root;
      assert comps[0..] == comps;
      LookupNothing(t, cl, fs);
      for i := 0 to count
        invariant Holds(components, comps, []) && fresh(components)
        invariant Valid() && store.vol.table == t && store.vol.clusters == cl && store.files == fs
        invariant Walkable(t, cl, fs, currentCluster, comps[i..])
        invariant Lookup(t, cl, fs, currentCluster, comps[i..]) == Lookup(t, cl, fs, Root(), comps)
      {
        HeldRow(components, comps, i);
        var name := seq(MAX_COMPONENT + 1, j requires 0 <= j < MAX_COMPONENT + 1 reads components => components[i, j]);
        assert name == Row(components, i);
        LookupStep(t, cl, fs, currentCluster, comps[i..]);
        assert comps[i..][0] == comps[i] && comps[i..][1..] == comps[i + 1..];
        var found, entry := FindNamed(currentCluster, name);
        if found {
          if i == count - 1 {
            return SUCCESS, entry;
          } else if entry.IsDirectory() {
            currentCluster := entry.firstCluster;
          } else {
            return NOT_A_DIRECTORY, file;
          }
        }
        if !found && i < count - 1 {
          return NOT_FOUND, file;
        }
      }
      assert comps[count..] == [];
      err := NOT_FOUND;
    }

    /** Sets the fields of the record at `at`; its times stay. */
    method StoreRecord(buf: array<byte>, at: nat, entry: FileEntry)
      requires Terminated(entry.name) && entry.firstCluster < WRAP && at + RECORD <= buf.Length
      modifies buf
      ensures var rec := NewRecord(old(buf[at..at + RECORD]), CStr(entry.name), entry.attributes, entry.firstCluster, entry.size);
              forall k :: 0 <= k < buf.Length ==> buf[k] == if at <= k < at + RECORD then rec[k - at] else old(buf[k])
    {
      hide CStr, NewRecord, Encoded, Le32Bytes;
      ghost var was := buf[at..at + RECORD];
      StoreName(buf, at, entry.name);
      buf[at + 11] := entry.attributes;
      var size, first := Le32Bytes(entry.size), Le32Bytes(entry.firstCluster);
      buf[at + 28], buf[at + 29], buf[at + 30], buf[at + 31] := size[0], size[1], size[2], size[3];
      buf[at + 20], buf[at + 21] := first[2], first[3];
      buf[at + 26], buf[at + 27] := first[0], first[1];
      forall k | at <= k < at + RECORD
        ensures buf[k] == NewRecord(was, CStr(entry.name), entry.attributes, entry.firstCluster, entry.size)[k - at]
      {
        NewRecordAt(was, CStr(entry.name), entry.attributes, entry.firstCluster, entry.size, k - at);
      }
    }

    /** Writes the entry over the first free record of a cluster image, if it has one. */
    method FillSlot(buf: array<byte>, entry: FileEntry) returns (written: bool)
      requires Terminated(entry.name) && entry.firstCluster < WRAP
      modifies buf
      ensures written == HasSlot(old(buf[..]))
      ensures !written ==> buf[..] == old(buf[..])
      ensures written ==> buf[..] == EntryStored(old(buf[..]), entry)
      ensures !written <==> NoSlot(old(buf[..]))
      ensures written ==>
                var i := FreeFrom(old(buf[..]), 0);
                && OpenSlot(old(buf[..]), i)
                && RecordPut(old(buf[..]), buf[..], i, CStr(entry.name), entry.attributes, entry.firstCluster, entry.size)
    {
      hide CStr, NewRecord, Encoded, NoSlot, OpenSlot, RecordPut;
      ghost var was := buf[..];
      SlotIs(was);
      for i := 0 to buf.Length / RECORD
        invariant buf[..] == was && FreeFrom(was, 0) == FreeFrom(was, i)
      {
        var at := RECORD * i;
        assert Record(was, i)[0] == buf[at];
        if buf[at] == ENTRY_END || buf[at] == ENTRY_DELETED {
          StoreRecord(buf, at, entry);
          ghost var rec := NewRecord(Record(was, i), CStr(entry.name), entry.attributes, entry.firstCluster, entry.size);
          forall k | 0 <= k < buf.Length
            ensures buf[k] == WithRecord(was, i, rec)[k]
          {
            if at <= k < at + RECORD {
              assert WithRecord(was, i, rec)[k] == rec[k - at];
              assert Record(was, i) == was[at..at + RECORD];
            }
          }
          PutIs(was, i, CStr(entry.name), entry.attributes, entry.firstCluster, entry.size);
          return true;
        }
      }
      written := false;
    }

    /** A directory without a free record can only be extended by a cluster whose old contents offer one. */
    ghost predicate SlotReachable(ch: seq<nat>)
      requires store.vol.Valid() && InRange(store.vol.clusters, ch)
      reads store, store.vol, store.vol.disk
    {
      var f := LowestFree(store.vol.table);
      SlotCluster(store.vol.clusters, ch) < |ch|
      || (if f < |store.vol.table| then HasSlot(store.vol.clusters[f]) else store.vol.past % ENTRY_MASK != 0)
    }

    /** Where an entry ends up: in the first slot along the directory; with none there, in the first slot of the first free
        cluster, whose table entry then names itself; with no free cluster either, nowhere. */
    static ghost predicate EntryPut(t: seq<uint32>, u: seq<uint32>, cl: seq<seq<byte>>, dl: seq<seq<byte>>, ch: seq<nat>,
                                    e: FileEntry, err: FSError)
      requires Terminated(e.name)
    {
      && InRange(cl, ch)
      && if exists j :: 0 <= j < |ch| && !NoSlot(cl[ch[j]]) then
           && err == SUCCESS && u == t
           && exists k, i :: DirectoryPut(cl, dl, ch, k, i, CStr(e.name), e.attributes, e.firstCluster, e.size)
         else if !NoneFree(t) then
           && err == SUCCESS
           && exists f: uint32, i :: FirstFree(t, f) && u == t[f := f]
                && DirectoryPut(cl, dl, [f], 0, i, CStr(e.name), e.attributes, e.firstCluster, e.size)
         else err == DISK_FULL && u == t && dl == cl
    }

    static lemma PutWhere(t: seq<uint32>, u: seq<uint32>, cl: seq<seq<byte>>, dl: seq<seq<byte>>, ch: seq<nat>,
                          e: FileEntry, err: FSError)
      requires 2 <= |t| == |cl| <= WRAP && Terminated(e.name) && e.firstCluster < WRAP && InRange(cl, ch)
      requires SlotCluster(cl, ch) == |ch| && LowestFree(t) < |t| ==> HasSlot(cl[LowestFree(t)])
      requires var k, f := SlotCluster(cl, ch), LowestFree(t);
               if k < |ch| then err == SUCCESS && u == t && dl == cl[ch[k] := EntryStored(cl[ch[k]], e)]
               else if f < |t| then err == SUCCESS && u == t[f := f] && dl == cl[f := EntryStored(cl[f], e)]
               else err == DISK_FULL && u == t && dl == cl
      ensures EntryPut(t, u, cl, dl, ch, e, err)
    {
      hide NoSlot, OpenSlot, RecordPut, NewRecord, WithRecord, CStr, HasSlot;
      var k, f := SlotCluster(cl, ch), LowestFree(t);
      FirstFreeIs(t);
      forall j | 0 <= j < |ch|
        ensures HasSlot(cl[ch[j]]) <==> !NoSlot(cl[ch[j]])
      {
        SlotIs(cl[ch[j]]);
      }
      if k < |ch| {
        PutInFirst(cl, ch, CStr(e.name), e.attributes, e.firstCluster, e.size);
      } else if f < |t| {
        SlotHeld(cl[f]);
        PutInFirst(cl, [f], CStr(e.name), e.attributes, e.firstCluster, e.size);
      }
    }

    /** Stores an entry in the first free record along the directory chain `ch`. With no free record in
        it, a new cluster is taken; it is linked to itself, not to the directory. */
    method CreateDirectoryEntry(entry: FileEntry, ghost ch: seq<nat>) returns (err: FSError)
      requires store.vol.Valid() && Chain(store.vol.table, ch) && ch[0] == entry.parentCluster
      requires InRange(store.vol.clusters, ch) && SlotReachable(ch)
      requires Terminated(entry.name) && entry.firstCluster < WRAP
      modifies store.vol`sectorBuf, store.vol`table, store.vol`clusters, store.vol`past, store.vol.disk
      ensures store.vol.Valid()
      ensures var t, cl := old(store.vol.table), old(store.vol.clusters);
              var k, f := SlotCluster(cl, ch), LowestFree(t);
              if k < |ch| then
                && err == SUCCESS && store.vol.table == t
                && store.vol.clusters == cl[ch[k] := EntryStored(cl[ch[k]], entry)]
              else if f < |t| then
                && err == SUCCESS && store.vol.table == t[f := f]
                && store.vol.clusters == cl[f := EntryStored(cl[f], entry)]
              else
                err == DISK_FULL && store.vol.table == t && store.vol.clusters == cl
      ensures EntryPut(old(store.vol.table), store.vol.table, old(store.vol.clusters), store.vol.clusters, ch, entry, err)
    {
      hide Volume.Valid, SlotCluster, HasSlot, EntryStored, Overwrite, LowestFree, EntryPut, RecordPut, OpenSlot, NoSlot, FirstFree, NoneFree, CStr, FreeFrom, Allocation;
      err := SUCCESS;
      var clusterSize := store.vol.g.ClusterSize();
      var buf := new byte[clusterSize];
      var curr, written, needAlloc := entry.parentCluster, false, false;
      ghost var t, cl, f := store.vol.table, store.vol.clusters, LowestFree(store.vol.table);
      ghost var k, orphan, reach := 0, false, SlotCluster(cl, ch);
      while !written
        invariant store.vol.Valid() && fresh(buf) && !needAlloc && err == SUCCESS && |store.vol.table| == |t|
        invariant !written && !orphan ==> k < |ch| && curr == ch[k] && k <= reach && store.vol.past == old(store.vol.past)
        invariant !orphan ==> store.vol.table == t
        invariant orphan ==> reach == |ch| && f < |t| && curr == f && cl[f] != [] && store.vol.table == t[f := f]
        invariant !written ==> store.vol.clusters == cl
        invariant written ==> 2 <= curr < |cl| && HasSlot(cl[curr]) && store.vol.clusters == cl[curr := EntryStored(cl[curr], entry)]
        invariant written && !orphan ==> reach < |ch| && curr == ch[reach]
        decreases !written, !orphan, |ch| - k
      {
        store.vol.ReadCluster(curr, buf, 0, 0, clusterSize);
        assert buf[..] == cl[curr];
        written := FillSlot(buf, entry);
        if !written {
          var next := store.vol.GetNextCluster(curr);
          assert k + 1 < |ch| ==> Next(t, ch[k]) == ch[k + 1];
          if IsEnd(next) {
            needAlloc := true;
          } else {
            curr, k := next, k + 1;
          }
        }
        if needAlloc {
          var next := store.vol.AllocateCluster();
          if next == 0 {
            err := DISK_FULL;
            break;
          }
          curr, orphan := next, true;
          SlotHeld(cl[next]);
          store.vol.LinkNextCluster(curr, next);
          needAlloc := false;
        }
        if written {
          OverwriteWhole(cl[curr], buf[..]);
          store.vol.WriteCluster(curr, buf[..], 0, clusterSize);
          assert buf[..][..clusterSize] == buf[..];
        }
      }
      PutWhere(t, store.vol.table, cl, store.vol.clusters, ch, entry, err);
    }

    /** What stat found is the record, which is a file or a directory by bit 0x10 of its attribute byte. */
    static ghost predicate OpensAs(at: Placed, s: StatResult)
      requires |at.rec| == RECORD
    {
      && s.err == SUCCESS && s.file.IsDirectory() == (at.rec[11] / 16 % 2 == 1)
      && s.file.size == Says32(at.rec) && s.file.firstCluster == Names32(at.rec) && s.file.parentCluster == at.cluster
    }

    lemma RecordOpens(path: seq<byte>, p: nat)
      requires CanWalk(path) && Reaches(path, p) && |Components(path, 16)| == 1
      ensures p < |RootRecords()| && OpensAs(RootRecords()[p], StatOf(path))
    {
      hide Components, Reaches, RootRecords, StatOf, Decoded;
      StatThrough(path, p);
    }

    /** The handle on a file given by its record; a directory is not opened. */
    ghost predicate Opened(h: FileHandle, at: Placed, err: FSError)
      requires |at.rec| == RECORD
      reads h
    {
      if at.rec[11] / 16 % 2 == 1 then err == NOT_A_FILE
      else
        && err == SUCCESS && h.valid && h.position == 0 && h.size == Says32(at.rec)
        && h.cluster == h.startCluster == Names32(at.rec) && h.parentCluster == at.cluster
    }

    /** Opens a file; the handle remembers the directory cluster its record was found in. */
    method Open(path: seq<byte>, h: FileHandle) returns (err: FSError)
      requires Valid() && Terminated(path) && CanWalk(CStr(path))
      modifies h
      ensures Valid()
      ensures var s := old(StatOf(CStr(path)));
              && err == (if s.err == SUCCESS && s.file.IsDirectory() then NOT_A_FILE else s.err)
              && (err == SUCCESS ==>
                    && h.valid && h.cluster == h.startCluster == s.file.firstCluster && h.parentCluster == s.file.parentCluster
                    && h.position == 0 && h.size == s.file.size)
              && (err != SUCCESS ==> unchanged(h))
      ensures forall p: nat :: Reaches(CStr(path), p) && |Components(CStr(path), 16)| == 1 ==>
                p < |RootRecords()| && Opened(h, RootRecords()[p], err)
    {
      hide Volume.Valid, WellFormed, Lookup, Walkable, Components, CStr, FirstSeen, AllRecords, Tells;
      forall p: nat | Reaches(CStr(path), p) && |Components(CStr(path), 16)| == 1
        ensures p < |RootRecords()| && OpensAs(RootRecords()[p], StatOf(CStr(path)))
      {
        RecordOpens(CStr(path), p);
      }
      if !mounted { return INVALID_FILESYSTEM; }
      var entry;
      err, entry := Stat(path);
      if err != SUCCESS { return err; }
      if entry.IsDirectory() { return NOT_A_FILE; }
      h.cluster, h.startCluster, h.parentCluster := entry.firstCluster, entry.firstCluster, entry.parentCluster;
      h.position, h.size, h.valid := 0, entry.size, true;
    }

    /** The directory cluster make_file starts looking for a free record in: the root for "/", else
        the cluster that holds the record of `path` itself. */
    ghost function ParentCluster(path: seq<byte>): nat
      requires CanWalk(path)
      reads this, store, store.vol
    {
      if path == [SLASH] then Root() else StatOf(path).file.parentCluster
    }

    /** Whether make_file gets as far as creating something. */
    ghost predicate Creates(path: seq<byte>, name: seq<byte>)
      requires path != [] && CanWalk(path) && CanWalk(Merged(path, name))
      reads this, store, store.vol
    {
      StatOf(Merged(path, name)).err != SUCCESS && (path == [SLASH] || StatOf(path).err == SUCCESS)
    }

    /** Takes a cluster for the file and stores its record in the parent directory. */
    method NewFile(parentCluster: nat, filename: seq<byte>, ghost ch: seq<nat>) returns (err: FSError)
      requires Valid() && Terminated(filename)
      requires Chain(store.vol.table, ch) && ch[0] == parentCluster
      requires InRange(store.vol.clusters, ch) && SlotCluster(store.vol.clusters, ch) < |ch|
      requires store.vol.past % ENTRY_MASK != 0 || LowestFree(store.vol.table) < |store.vol.table|
      modifies store`files, store.vol`sectorBuf, store.vol`table, store.vol`clusters, store.vol`past, store.vol.disk
      ensures Valid()
      ensures var t, cl, fs, f := old(store.vol.table), old(store.vol.clusters), old(store.files), LowestFree(old(store.vol.table));
              if f < |t| then
                && err == SUCCESS
                && store.vol.table == t[f := ALLOCATED] && store.files == fs[f := [f]]
                && store.vol.clusters == Created(cl, ch, CStr(filename), f)
              else
                err == DISK_FULL && store.vol.table == t && store.vol.clusters == cl && store.files == fs
    {
      hide Volume.Valid, WellFormed, CStr, SlotCluster, LowestFree, NewRecord, WithRecord, EntryPut, FirstFree, NoneFree;
      ghost var t := store.vol.table;
      var fileCluster := store.vol.AllocateCluster();
      if fileCluster == 0 {
        return DISK_FULL;
      }
      NewFileWellFormed(t, store.files, fileCluster);
      NotOnChain(t, ch, fileCluster);
      store.files := store.files[fileCluster := [fileCluster]];
      var name, i := [], 0;
      while filename[i] != NUL
        invariant i <= |CStr(filename)| && name == CStr(filename)[..i]
        modifies {}
        decreases |filename| - i
      {
        StillInside(filename, i);
        name, i := name + [filename[i]], i + 1;
      }
      Ends(filename, i);
      CStrIs(name + [NUL], |name|);
      var entry := FileEntry(name + [NUL], 0, ATTR_ARCHIVE, fileCluster, parentCluster);
      var _ := CreateDirectoryEntry(entry, ch);
      err := SUCCESS;
    }

    /** The first free cluster has become the only one of a new file: its entry is an end mark, and the first slot along the
        directory chain says so, with the attribute 0x20 and size 0. */
    static ghost predicate FileMade(t: seq<uint32>, u: seq<uint32>, cl: seq<seq<byte>>, dl: seq<seq<byte>>, ch: seq<nat>, n: seq<byte>) {
      exists f: nat, k, i :: FirstFree(t, f) && u == t[f := 0x0FFF_FFFF] && DirectoryPut(cl, dl, ch, k, i, n, 0x20, f, 0)
    }

    lemma MakesIt(ch: seq<nat>, n: seq<byte>)
      requires store.vol.Valid()
      ensures var t, cl := store.vol.table, store.vol.clusters;
              var f := LowestFree(t);
              && (f < |t| <==> !NoneFree(t))
              && (f < |t| && InRange(cl, ch) && SlotCluster(cl, ch) < |ch| ==>
                    FileMade(t, t[f := ALLOCATED], cl, Created(cl, ch, n, f), ch, n))
    {
      hide FirstFree, NoneFree, DirectoryPut, FreeFrom, Created, SlotCluster, LowestFree, Volume.Valid;
      var t, cl := store.vol.table, store.vol.clusters;
      FirstFreeIs(t);
      if LowestFree(t) < |t| && InRange(cl, ch) && SlotCluster(cl, ch) < |ch| { CreatedPut(cl, ch, n, LowestFree(t)); }
    }

    /** `ch` is the directory chain from the parent cluster on; it must have a free record. */
    method MakeFile(path: seq<byte>, filename: seq<byte>, ghost ch: seq<nat>) returns (err: FSError)
      requires Valid() && Terminated(path) && Terminated(filename)
      requires CStr(path) != [] && |CStr(filename)| <= MAX_NAME && |Merged(CStr(path), CStr(filename))| < MAX_PATH_LEN
      requires CanWalk(CStr(path)) && CanWalk(Merged(CStr(path), CStr(filename)))
      requires Creates(CStr(path), CStr(filename)) ==>
                 && Chain(store.vol.table, ch) && ch[0] == ParentCluster(CStr(path))
                 && InRange(store.vol.clusters, ch) && SlotCluster(store.vol.clusters, ch) < |ch|
      requires store.vol.past % ENTRY_MASK != 0 || FreeSet(store.vol.table) != {}
      modifies store`files, store.vol`sectorBuf, store.vol`table, store.vol`clusters, store.vol`past, store.vol.disk
      ensures Valid()
      ensures var p, n := CStr(path), CStr(filename);
              var t, cl, fs, f := old(store.vol.table), old(store.vol.clusters), old(store.files), LowestFree(old(store.vol.table));
              if old(Creates(p, n)) && f < |t| then
                && err == SUCCESS
                && store.vol.table == t[f := ALLOCATED] && store.files == fs[f := [f]]
                && store.vol.clusters == Created(cl, ch, n, f)
              else
                && store.vol.table == t && store.vol.clusters == cl && store.files == fs
                && err == (if old(StatOf(Merged(p, n))).err == SUCCESS then ALREADY_EXISTS
                           else if p != [SLASH] && old(StatOf(p)).err != SUCCESS then old(StatOf(p)).err
                           else DISK_FULL)
      ensures var p, n := CStr(path), CStr(filename);
              var t, u, cl, dl := old(store.vol.table), store.vol.table, old(store.vol.clusters), store.vol.clusters;
              if old(StatOf(Merged(p, n))).err == SUCCESS then err == ALREADY_EXISTS && u == t && dl == cl
              else if p != [47] && old(StatOf(p)).err != SUCCESS then err == old(StatOf(p)).err && u == t && dl == cl
              else if NoneFree(t) then err == DISK_FULL && u == t && dl == cl
              else err == SUCCESS && ch[0] == (if p == [47] then Root() else old(StatOf(p)).file.parentCluster)
                   && FileMade(t, u, cl, dl, ch, n)
    {
      hide Volume.Valid, WellFormed, CStr, Components, Walkable, Lookup, SlotCluster, Created, LowestFree, Merged;
      hide FirstFree, NoneFree, DirectoryPut, FreeFrom, FileMade;
      MakesIt(ch, CStr(filename));
      var fullPath := new byte[MAX_PATH_LEN](_ => NUL);
      MergePath(path, filename, fullPath);
      var entry;
      err, entry := Stat(fullPath[..]);
      if err == SUCCESS {
        return ALREADY_EXISTS;
      }
      var parentCluster;
      var isRoot := Strcmp(path, [SLASH, NUL]);
      if isRoot {
        parentCluster := store.vol.g.root;
      } else {
        err, entry := Stat(path);
        if err != SUCCESS {
          return err;
        }
        parentCluster := entry.parentCluster;
      }
      err := NewFile(parentCluster, filename, ch);
    }
  }
}
