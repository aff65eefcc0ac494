/** The sector-level half of the FAT32 driver: table entries and cluster data on the disk. */
module Volumes {
  import opened Bytes
  import opened Disks
  import opened Layout
  import opened Chains
  import opened Content

  /** The table entry inside the sector that holds it. */
  lemma EntryInSector(g: Geometry, d: seq<Sector>, c: nat)
    requires g.Fits(|d|) && c <= g.Entries()
    ensures g.fatStart + c / PER_SECTOR < |d|
    ensures Le32(d[g.fatStart + c / PER_SECTOR], 4 * (c % PER_SECTOR)) == EntryAt(g, d, c)
    ensures c < g.Entries() ==> EntryAt(g, d, c) == TableOf(g, d)[c]
  {
    SectorBounds(g, |d|, c);
  }

  /** The `j`-th sector of a cluster is the matching slice of its bytes. */
  lemma SectorOfCluster(g: Geometry, d: seq<Sector>, c: nat, j: nat)
    requires g.Fits(|d|) && 2 <= c < g.Entries() && j < g.perCluster && g.OnDisk(|d|, c)
    ensures g.First(c) + j < |d| && SECTOR * (j + 1) <= g.ClusterSize()
    ensures |ClustersOf(g, d)[c]| == g.ClusterSize()
    ensures ClustersOf(g, d)[c][SECTOR * j..SECTOR * (j + 1)] == d[g.First(c) + j]
  {
    hide ClustersOf, Geometry.First, Geometry.OnDisk, Flatten;
    ClusterIs(g, d, c);
    FlattenSector(d[g.First(c)..g.First(c) + g.perCluster], j);
  }

  lemma ClusterIs(g: Geometry, d: seq<Sector>, c: nat)
    requires g.Fits(|d|) && 2 <= c < g.Entries() && g.OnDisk(|d|, c)
    ensures g.First(c) + g.perCluster <= |d| && ClustersOf(g, d)[c] == Flatten(d[g.First(c)..g.First(c) + g.perCluster])
  {
    hide Flatten;
  }

  lemma FlattenSector(ss: seq<Sector>, j: nat)
    requires j < |ss|
    ensures SECTOR * (j + 1) <= SECTOR * |ss| && Flatten(ss)[SECTOR * j..SECTOR * (j + 1)] == ss[j]
  {
    forall i | SECTOR * j <= i < SECTOR * (j + 1)
      ensures Flatten(ss)[i] == ss[j][i - SECTOR * j]
    {
      assert i / SECTOR == j;
    }
  }

  /** The clusters on the disk have their full size and come first. */
  lemma ClustersHeld(g: Geometry, d: seq<Sector>)
    requires g.Fits(|d|)
    ensures Leading(ClustersOf(g, d))
    ensures forall c :: 2 <= c < g.Entries() ==> (ClustersOf(g, d)[c] != [] <==> g.OnDisk(|d|, c))
  {
    forall c, e | 2 <= c <= e < g.Entries() && g.OnDisk(|d|, e)
      ensures g.OnDisk(|d|, c)
    {
      OnDiskBelow(g, |d|, c, e);
    }
  }

  /** A transfer from the sector that holds byte `o` of a cluster yields the cluster's bytes from `o` on. */
  lemma SectorSlice(g: Geometry, d: seq<Sector>, c: nat, o: nat, n: nat, count: nat)
    requires g.Fits(|d|) && 2 <= c < g.Entries() && g.OnDisk(|d|, c) && 0 < n && o + n <= g.ClusterSize()
    requires o % SECTOR + n <= count <= SECTOR
    ensures g.First(c) + o / SECTOR < |d|
    ensures d[g.First(c) + o / SECTOR][..count][o % SECTOR..o % SECTOR + n] == ClustersOf(g, d)[c][o..o + n]
  {
    hide ClustersOf, Geometry.OnDisk, Geometry.First;
    var j := o / SECTOR;
    SectorOfCluster(g, d, c, j);
    InnerSlice(ClustersOf(g, d)[c], d[g.First(c) + j], SECTOR * j, o % SECTOR, n);
    PrefixSlice(d[g.First(c) + j], count, o % SECTOR, n);
  }

  lemma PrefixSlice(s: seq<byte>, count: nat, a: nat, n: nat)
    requires a + n <= count <= |s|
    ensures s[..count][a..a + n] == s[a..a + n]
  {
  }

  lemma InnerSlice(cl: seq<byte>, s: Sector, b: nat, o: nat, n: nat)
    requires b + SECTOR <= |cl| && cl[b..b + SECTOR] == s && o + n <= SECTOR
    ensures s[o..o + n] == cl[b + o..b + o + n]
  {
    assert forall p :: b + o <= p < b + o + n ==> cl[p] == cl[b..b + SECTOR][p - b];
  }

  /** One iteration of the cluster-writing loop, on the cluster's bytes. */
  lemma StepContent(was: seq<byte>, off: nat, done: seq<byte>, piece: seq<byte>, j: nat)
    requires |was| % SECTOR == 0 && off + |done| + |piece| <= |was| && piece != []
    requires done != [] ==> (off + |done|) % SECTOR == 0
    requires (off + |done|) % SECTOR + |piece| <= SECTOR && j == (off + |done|) / SECTOR
    ensures SECTOR * (j + 1) <= |was| && |Overwrite(was, off, done)[SECTOR * j..off + |done|] + piece| <= SECTOR
    ensures ReplaceSector(Overwrite(was, off, done), j, Padded(Overwrite(was, off, done)[SECTOR * j..off + |done|] + piece))
         == Overwrite(was, off, done + piece)
  {
    hide Overwrite, ReplaceSector, Padded;
    OverwriteSector(Overwrite(was, off, done), off + |done|, piece);
    OverwriteJoin(was, off, done, piece);
  }

  /** One iteration of the cluster-writing loop, on the disk. */
  lemma StepDisk(g: Geometry, d: seq<Sector>, c: nat, was: seq<byte>, off: nat, done: seq<byte>, piece: seq<byte>, j: nat, s: Sector)
    requires g.Fits(|d|) && 2 <= c < g.Entries() && g.OnDisk(|d|, c) && |was| == g.ClusterSize()
    requires off + |done| + |piece| <= |was| && piece != []
    requires done != [] ==> (off + |done|) % SECTOR == 0
    requires (off + |done|) % SECTOR + |piece| <= SECTOR && j == (off + |done|) / SECTOR
    requires ClustersOf(g, d)[c] == Overwrite(was, off, done)
    requires s == Padded(d[g.First(c) + j][..(off + |done|) % SECTOR] + piece)
    ensures var r := d[g.First(c) + j := s];
            && TableOf(g, r) == TableOf(g, d)
            && ClustersOf(g, r) == ClustersOf(g, d)[c := Overwrite(was, off, done + piece)]
            && (g.fatCopies >= 2 || c != 2 ==> EntryAt(g, r, g.Entries()) == EntryAt(g, d, g.Entries()))
  {
    hide TableOf, ClustersOf, EntryAt, Overwrite, ReplaceSector, Padded;
    SectorOfCluster(g, d, c, j);
    StepContent(was, off, done, piece, j);
    InnerSlice(ClustersOf(g, d)[c], d[g.First(c) + j], SECTOR * j, 0, (off + |done|) % SECTOR);
    DataWriteEffect(g, d, c, j, s);
  }

  lemma NextSector(o: nat, n: nat)
    requires n == SECTOR - o % SECTOR
    ensures (o + n) % SECTOR == 0 && (o + n) / SECTOR == o / SECTOR + 1
  {
  }

  lemma SameAs(a: seq<seq<byte>>, b: seq<seq<byte>>, c: nat, x: seq<byte>, y: seq<byte>)
    requires c < |a| && b == a[c := x]
    ensures b[c := y] == a[c := y]
  {
  }

  class Volume {
    const disk: Disk
    const g: Geometry
    var sectorBuf: seq<byte>

    /** Raw table entries. */
    ghost var table: seq<uint32>
    /** Data of every cluster. */
    ghost var clusters: seq<seq<byte>>
    /** The word just past the table. */
    ghost var past: uint32

    ghost predicate Valid()
      reads this, disk
      ensures Valid() ==> PER_SECTOR <= |table| <= CHAIN_END && |table| == |clusters| == g.Entries()
      ensures Valid() ==> SECTOR <= g.ClusterSize() && Held(clusters, g.ClusterSize())
    {
      && g.Fits(|disk.sectors|)
      && table == TableOf(g, disk.sectors)
      && clusters == ClustersOf(g, disk.sectors)
      && past == EntryAt(g, disk.sectors, g.Entries())
    }

    /** A cluster has data exactly when the disk has its sectors. */
    lemma HasSectorsIff(c: nat)
      requires Valid() && 2 <= c < |table|
      ensures clusters[c] != [] <==> g.OnDisk(|disk.sectors|, c)
      ensures Leading(clusters)
    {
      hide Geometry.OnDisk;
      ClustersHeld(g, disk.sectors);
    }

    constructor (disk: Disk, g: Geometry)
      requires g.Fits(|disk.sectors|)
      ensures Valid() && this.disk == disk && this.g == g
    {
      this.disk, this.g := disk, g;
      sectorBuf := Zeros(SECTOR);
      table := TableOf(g, disk.sectors);
      clusters := ClustersOf(g, disk.sectors);
      past := EntryAt(g, disk.sectors, g.Entries());
    }

    method GetNextCluster(cluster: nat) returns (r: nat)
      requires Valid() && cluster < |table|
      modifies this`sectorBuf
      ensures Valid() && r == Next(table, cluster) == table[cluster] % 0x1000_0000
    {
      hide TableOf, ClustersOf, EntryAt;
      EntryInSector(g, disk.sectors, cluster);
      var fatSector, fatOffset := cluster / PER_SECTOR, cluster % PER_SECTOR;
      sectorBuf := disk.Read28(g.fatStart + fatSector, SECTOR);
      assert sectorBuf == disk.sectors[g.fatStart + fatSector];
      r := Le32(sectorBuf, 4 * fatOffset) % ENTRY_MASK;
    }

    /** Replaces one entry by reading, patching and rewriting its sector. */
    method PutEntry(c: nat, v: uint32)
      requires Valid() && c < |table|
      modifies this`sectorBuf, this`table, disk
      ensures Valid() && table == old(table)[c := v]
    {
      hide TableOf, ClustersOf, EntryAt;
      EntryInSector(g, disk.sectors, c);
      WithEntryEffect(g, disk.sectors, c, v);
      ghost var d := disk.sectors;
      sectorBuf := disk.Read28(g.fatStart + c / PER_SECTOR, SECTOR);
      assert sectorBuf == d[g.fatStart + c / PER_SECTOR];
      sectorBuf := PutLe32(sectorBuf, 4 * (c % PER_SECTOR), v);
      disk.Write28(g.fatStart + c / PER_SECTOR, sectorBuf);
      assert Padded(sectorBuf) == sectorBuf;
      assert disk.sectors == WithEntry(g, d, c, v);
      table := table[c := v];
    }

    method LinkNextCluster(current: nat, next: uint32)
      requires Valid() && current < |table|
      modifies this`sectorBuf, this`table, disk
      ensures Valid() && table == old(table)[current := next]
    {
      PutEntry(current, next);
    }

    method UnlinkCluster(prev: nat, current: nat)
      requires Valid() && prev < |table|
      modifies this`sectorBuf, this`table, disk
      ensures Valid() && table == old(table)[prev := 0x0F_FFFF]
    {
      PutEntry(prev, CUT);
    }

    method DeallocateCluster(del: nat)
      requires Valid() && del < |table|
      modifies this`sectorBuf, this`table, disk
      ensures Valid() && table == old(table)[del := 0]
    {
      PutEntry(del, 0);
    }

    /** Rewrites the sector image the allocator found a free word in, with that word marked. */
    method Claim(c: nat, sector: seq<byte>)
      requires Valid() && c <= g.Entries()
      requires g.fatStart + c / PER_SECTOR < |disk.sectors| && sector == disk.sectors[g.fatStart + c / PER_SECTOR]
      modifies this`table, this`clusters, this`past, disk
      ensures Valid()
      ensures c < g.Entries() ==> table == old(table)[c := 0x0FFF_FFFF] && clusters == old(clusters) && past == old(past)
      ensures c == g.Entries() ==>
                && table == old(table) && past == 0x0FFF_FFFF
                && clusters == if g.fatCopies == 1 then old(clusters)[2 := PutLe32(old(clusters)[2], 0, 0x0FFF_FFFF)]
                               else old(clusters)
    {
      hide TableOf, ClustersOf, EntryAt, PutLe32;
      ghost var d := disk.sectors;
      var patched := PutLe32(sector, 4 * (c % PER_SECTOR), ALLOCATED);
      disk.Write28(g.fatStart + c / PER_SECTOR, patched);
      assert Padded(patched) == patched;
      assert disk.sectors == WithEntry(g, d, c, ALLOCATED);
      if c < g.Entries() {
        WithEntryEffect(g, d, c, ALLOCATED);
        table := table[c := ALLOCATED];
      } else {
        PastEntryEffect(g, d, ALLOCATED);
        past := ALLOCATED;
        clusters := ClustersOf(g, disk.sectors);
      }
    }

    /** Takes the lowest free cluster. The scan also looks at the word just past the table, so when
        no entry is free the answer is 0 exactly when that word is not free either. */
    method AllocateCluster() returns (r: nat)
      requires Valid()
      modifies this`table, this`clusters, this`past, disk
      ensures Valid()
      ensures r == Allocation(old(table), old(past))
      ensures var f := LowestFree(old(table));
              if f < |old(table)| then
                && FirstFree(old(table), f) && r == f
                && table == old(table)[f := 0x0FFF_FFFF]
                && clusters == old(clusters) && past == old(past)
              else if old(past) % 0x1000_0000 != 0 then
                && NoneFree(old(table)) && r == 0
                && table == old(table) && clusters == old(clusters) && past == old(past)
                && disk.sectors == old(disk.sectors)
              else
                && NoneFree(old(table)) && r == g.Entries() == |table|
                && table == old(table) && past == 0x0FFF_FFFF
                && clusters == if g.fatCopies == 1 then old(clusters)[2 := PutLe32(old(clusters)[2], 0, ALLOCATED)]
                               else old(clusters)
    {
      hide TableOf, ClustersOf, EntryAt;
      var cluster := 2;
      while cluster <= g.Entries()
        invariant 2 <= cluster <= g.Entries() + 1
        invariant disk.sectors == old(disk.sectors)
        invariant table == old(table) && clusters == old(clusters) && past == old(past)
        invariant forall e :: 2 <= e < cluster && e < |table| ==> Next(table, e) != 0
        invariant cluster > g.Entries() ==> past % ENTRY_MASK != 0
      {
        var fatSector, fatOffset := cluster / PER_SECTOR, cluster % PER_SECTOR;
        EntryInSector(g, disk.sectors, cluster);
        var sector := disk.Read28(g.fatStart + fatSector, SECTOR);
        assert sector == disk.sectors[g.fatStart + fatSector];
        if Le32(sector, 4 * fatOffset) % ENTRY_MASK == 0 {
          LowestFreeIs(table, cluster);
          FirstFreeIs(table);
          Claim(cluster, sector);
          return cluster;
        }
        cluster := cluster + 1;
      }
      LowestFreeIs(table, |table|);
      FirstFreeIs(table);
      r := 0;
    }

    /** Fills `buffer` from index `at` with bytes `offset..` of the cluster; nothing else changes. */
    method ReadCluster(cluster: nat, buffer: array<byte>, at: nat, offset: nat, size: nat)
      requires Valid() && 2 <= cluster < |table| && clusters[cluster] != []
      requires offset + Min(size, g.ClusterSize()) <= g.ClusterSize()
      requires at + Min(size, g.ClusterSize()) <= buffer.Length
      modifies buffer
      ensures forall k :: 0 <= k < buffer.Length ==>
                buffer[k] == if at <= k < at + Min(size, g.ClusterSize()) then clusters[cluster][offset + k - at] else old(buffer[k])
    {
      hide TableOf, ClustersOf, EntryAt, Geometry.First, Geometry.OnDisk;
      var total := Min(size, g.ClusterSize());
      var first := g.First(cluster);
      var start, sectorOffset := offset / SECTOR, offset % SECTOR;
      var bytesRead: nat, rest: nat := 0, total;
      if sectorOffset != 0 {
        var n := Min(SECTOR - sectorOffset, rest);
        NextSector(offset, SECTOR - sectorOffset);
        CopySector(cluster, first + start, SECTOR, sectorOffset, buffer, at, offset, n);
        bytesRead, rest := n, rest - n;
        start := start + 1;
      }
      while rest >= SECTOR
        invariant bytesRead + rest == total
        invariant forall k :: 0 <= k < buffer.Length ==>
                    buffer[k] == if at <= k < at + bytesRead then clusters[cluster][offset + k - at] else old(buffer[k])
        invariant rest > 0 ==> (offset + bytesRead) % SECTOR == 0 && start == (offset + bytesRead) / SECTOR
      {
        NextSector(offset + bytesRead, SECTOR);
        CopySector(cluster, first + start, SECTOR, 0, buffer, at + bytesRead, offset + bytesRead, SECTOR);
        bytesRead, rest := bytesRead + SECTOR, rest - SECTOR;
        start := start + 1;
      }
      if rest > 0 {
        CopySector(cluster, first + start, rest, 0, buffer, at + bytesRead, offset + bytesRead, rest);
      }
    }

    /** Reads `count` bytes of a sector and copies those from `o % SECTOR` on into the buffer. */
    method CopySector(ghost cluster: nat, sector: nat, count: nat, sectorOffset: nat, buffer: array<byte>, at: nat,
                      ghost o: nat, n: nat)
      requires Valid() && 2 <= cluster < |table| && clusters[cluster] != [] && o + n <= g.ClusterSize() && at + n <= buffer.Length
      requires sector == g.First(cluster) + o / SECTOR && sectorOffset == o % SECTOR && sectorOffset + n <= count <= SECTOR
      modifies buffer
      ensures forall k :: 0 <= k < buffer.Length ==>
                buffer[k] == if at <= k < at + n then clusters[cluster][o + k - at] else old(buffer[k])
    {
      hide TableOf, ClustersOf, EntryAt;
      if n == 0 { return; }
      SectorSlice(g, disk.sectors, cluster, o, n, count);
      var temp := disk.Read28(sector, count);
      temp := temp[sectorOffset..sectorOffset + n];
      ghost var cl := clusters[cluster];
      for i := 0 to n
        invariant forall k :: 0 <= k < buffer.Length ==>
                    buffer[k] == if at <= k < at + i then cl[o + k - at] else old(buffer[k])
      {
        buffer[at + i] := temp[i];
        assert temp[i] == cl[o..o + n][i];
      }
    }

    /** Writes `size` bytes of `buffer` at `offset` of the cluster, sector by sector. */
    method WriteCluster(cluster: nat, buffer: seq<byte>, offset: nat, size: nat)
      requires Valid() && 2 <= cluster < |table| && clusters[cluster] != [] && size <= |buffer|
      requires offset + Min(size, g.ClusterSize()) <= g.ClusterSize()
      modifies this`clusters, this`past, disk
      ensures Valid()
      ensures clusters == old(clusters)[cluster := Overwrite(old(clusters)[cluster], offset, buffer[..Min(size, g.ClusterSize())])]
      ensures g.fatCopies >= 2 || cluster != 2 ==> past == old(past)
    {
      hide Overwrite, TableOf, ClustersOf;
      var total := Min(size, g.ClusterSize());
      var first := g.First(cluster);
      var start, sectorOffset := offset / SECTOR, offset % SECTOR;
      var bytesWritten: nat, rest: nat := 0, total;
      ghost var was := clusters[cluster];
      OverwriteNothing(was, offset);
      while rest > 0
        invariant bytesWritten + rest == total
        invariant Valid()
        invariant clusters == old(clusters)[cluster := Overwrite(was, offset, buffer[..bytesWritten])]
        invariant g.fatCopies >= 2 || cluster != 2 ==> past == old(past)
        invariant rest > 0 ==> sectorOffset == (offset + bytesWritten) % SECTOR && start == (offset + bytesWritten) / SECTOR
        invariant rest > 0 && bytesWritten > 0 ==> sectorOffset == 0
      {
        var numBytes := Min(SECTOR - sectorOffset, rest);
        ghost var before := clusters;
        WriteSector(cluster, first + start, sectorOffset, buffer, bytesWritten, numBytes, offset, was);
        SameAs(old(clusters), before, cluster, before[cluster], clusters[cluster]);
        if numBytes < rest { NextSector(offset + bytesWritten, numBytes); }
        bytesWritten, rest := bytesWritten + numBytes, rest - numBytes;
        start, sectorOffset := start + 1, 0;
      }
    }

    /** One sector of a cluster write: a partial first sector keeps its head, the tail is zeroed. */
    method WriteSector(ghost cluster: nat, sector: nat, sectorOffset: nat, buffer: seq<byte>, written: nat, numBytes: nat,
                       ghost offset: nat, ghost was: seq<byte>)
      requires Valid() && 2 <= cluster < |table| && clusters[cluster] != []
      requires |was| == g.ClusterSize() && written + numBytes <= |buffer| && offset + written + numBytes <= |was|
      requires clusters[cluster] == Overwrite(was, offset, buffer[..written])
      requires sectorOffset == (offset + written) % SECTOR && sector == g.First(cluster) + (offset + written) / SECTOR
      requires sectorOffset > 0 ==> written == 0
      requires 0 < numBytes && sectorOffset + numBytes <= SECTOR
      modifies this`clusters, this`past, disk
      ensures Valid()
      ensures clusters == old(clusters)[cluster := Overwrite(was, offset, buffer[..written + numBytes])]
      ensures g.fatCopies >= 2 || cluster != 2 ==> past == old(past)
    {
      hide Overwrite, TableOf, ClustersOf, EntryAt;
      ghost var d := disk.sectors;
      ghost var j := (offset + written) / SECTOR;
      SectorOfCluster(g, d, cluster, j);
      var piece := buffer[written..written + numBytes];
      if sectorOffset > 0 {
        var head := disk.Read28(sector, sectorOffset);
        assert buffer[..numBytes] == piece;
        disk.Write28(sector, head + buffer[..numBytes]);
      } else {
        assert d[sector][..0] + piece == piece;
        disk.Write28(sector, piece);
      }
      StepDisk(g, d, cluster, was, offset, buffer[..written], piece, j, disk.sectors[sector]);
      clusters := ClustersOf(g, disk.sectors);
      past := EntryAt(g, disk.sectors, g.Entries());
      SlicesJoin(buffer, written, numBytes);
    }
  }
}
