/** Where a FAT32 volume keeps its table and its clusters, and the abstract view of both. */
module Layout {
  import opened Bytes
  import opened Disks

  /** Table entries per sector. */
  const PER_SECTOR: nat := 128
  /** Low 28 bits of an entry carry the cluster number. */
  const ENTRY_MASK: nat := 0x1000_0000
  /** Values from here on end a chain for the writing code (IS_END_OF_CHAIN). */
  const CHAIN_END: nat := 0x0FFFF8

  /** Product by repeated addition, so that sector arithmetic stays linear in proofs. */
  function Times(a: nat, b: nat): (p: nat) {
    if b == 0 then 0 else a + Times(a, b - 1)
  }

  lemma {:induction false} TimesIsProduct(a: nat, b: nat)
    ensures Times(a, b) == a * b
  {
    if b > 0 {
      TimesIsProduct(a, b - 1);
      assert a * b == a + a * (b - 1);
    }
  }

  lemma {:induction false} TimesMono(a: nat, b: nat, c: nat)
    requires b <= c
    ensures Times(a, b) <= Times(a, c)
  {
    if b < c { TimesMono(a, b, c - 1); }
  }

  /** Values from here on end a chain for the reading code and the directory iterator. */
  const READ_END: nat := 0x0FFF_FFF8

  /** The boot-sector fields the cluster code uses, after mounting. */
  datatype Geometry = Geometry(fatStart: nat, tableSize: nat, fatCopies: nat, perCluster: nat, root: nat) {
    function Entries(): nat { tableSize * PER_SECTOR }

    function ClusterSize(): (s: nat)
      ensures s % SECTOR == 0
    {
      perCluster * SECTOR
    }

    function DataStart(): nat { fatStart + Times(tableSize, fatCopies) }

    /** First sector of a cluster's data. */
    function First(c: nat): nat
      requires 2 <= c
    {
      DataStart() + Times(perCluster, c - 2)
    }

    /** The disk holds the table copies and at least one cluster. The table may name more clusters than there are. */
    ghost predicate Fits(sectorCount: nat) {
      && 1 <= perCluster
      && 1 <= tableSize && 1 <= fatCopies
      && Entries() <= CHAIN_END
      && fatStart + tableSize <= DataStart()
      && OnDisk(sectorCount, 2)
    }

    /** All sectors of cluster `c` exist. */
    predicate OnDisk(sectorCount: nat, c: nat)
      requires 2 <= c
    {
      First(c) + perCluster <= sectorCount
    }
  }

  /** The volume of the repository's tests: a table of 2048 entries, and clusters up to number 123 on the disk. */
  lemma TestVolume()
    ensures var g := Geometry(32, 16, 1, 8, 2);
            && g.Fits(1024) && g.Entries() == 2048 && g.ClusterSize() == 4096 && g.First(2) == 48 && g.First(3) == 56
            && forall c :: 2 <= c ==> (g.OnDisk(1024, c) <==> c <= 123)
  {
    var g := Geometry(32, 16, 1, 8, 2);
    TimesIsProduct(16, 1);
    forall c | 2 <= c
      ensures g.OnDisk(1024, c) <==> c <= 123
    {
      TimesIsProduct(8, c - 2);
    }
    TimesIsProduct(8, 0);
    TimesIsProduct(8, 1);
  }

  /** The raw 32-bit entry of cluster `c`; `c == Entries()` is the word just past the table. */
  ghost function EntryAt(g: Geometry, d: seq<Sector>, c: nat): (v: uint32)
    requires g.Fits(|d|) && c <= g.Entries()
  {
    SectorBounds(g, |d|, c);
    Le32(d[g.fatStart + c / PER_SECTOR], 4 * (c % PER_SECTOR))
  }

  lemma SectorBounds(g: Geometry, n: nat, c: nat)
    requires g.Fits(n) && c <= g.Entries()
    ensures g.fatStart + c / PER_SECTOR < n
    ensures c < g.Entries() ==> c / PER_SECTOR < g.tableSize
    ensures c == g.Entries() ==> c / PER_SECTOR == g.tableSize && c % PER_SECTOR == 0
  {
  }

  /** The bytes of consecutive sectors. */
  ghost function Flatten(ss: seq<Sector>): (r: seq<byte>)
    ensures |r| == SECTOR * |ss|
  {
    seq(SECTOR * |ss|, i requires 0 <= i < SECTOR * |ss| => ss[i / SECTOR][i % SECTOR])
  }

  ghost function ClusterAt(g: Geometry, d: seq<Sector>, c: nat): (r: seq<byte>)
    requires g.Fits(|d|) && 2 <= c < g.Entries() && g.OnDisk(|d|, c)
    ensures |r| == g.ClusterSize()
  {
    FirstBounds(g, |d|, c);
    Flatten(d[g.First(c)..g.First(c) + g.perCluster])
  }

  lemma FirstBounds(g: Geometry, n: nat, c: nat)
    requires g.Fits(n) && 2 <= c < g.Entries()
    ensures g.fatStart + g.tableSize <= g.DataStart() <= g.First(c)
  {
  }

  /** The clusters on the disk are the first ones. */
  lemma OnDiskBelow(g: Geometry, n: nat, c: nat, e: nat)
    requires 2 <= c <= e && g.OnDisk(n, e)
    ensures g.OnDisk(n, c)
  {
    TimesMono(g.perCluster, c - 2, e - 2);
  }

  /** Different clusters occupy different sectors. */
  lemma FirstApart(g: Geometry, c: nat, e: nat)
    requires 2 <= c < e
    ensures g.First(c) + g.perCluster <= g.First(e)
  {
    TimesMono(g.perCluster, c - 1, e - 2);
  }

  /** The table as an array of raw entries. */
  ghost function TableOf(g: Geometry, d: seq<Sector>): (t: seq<uint32>)
    requires g.Fits(|d|)
    ensures |t| == g.Entries()
  {
    seq(g.Entries(), c requires 0 <= c < g.Entries() => EntryAt(g, d, c))
  }

  /** The data area as an array of clusters; entries 0 and 1 name no cluster, and a cluster that the disk has
      no sectors for is empty. */
  ghost function ClustersOf(g: Geometry, d: seq<Sector>): (cs: seq<seq<byte>>)
    requires g.Fits(|d|)
    ensures |cs| == g.Entries()
    ensures forall c :: 2 <= c < |cs| ==> |cs[c]| == if g.OnDisk(|d|, c) then g.ClusterSize() else 0
  {
    seq(g.Entries(), c requires 0 <= c < g.Entries() => if c < 2 || !g.OnDisk(|d|, c) then [] else ClusterAt(g, d, c))
  }

  /** Entry `c` of the table is kept little-endian at byte 4c of the first copy. */
  lemma EntryOnDisk(g: Geometry, d: seq<Sector>, c: nat)
    requires g.Fits(|d|) && c < 128 * g.tableSize
    ensures g.fatStart + c / 128 < |d|
    ensures var s, i := d[g.fatStart + c / 128], 4 * (c % 128);
            TableOf(g, d)[c] == (s[i] as int) + 0x100 * (s[i + 1] as int) + 0x10000 * (s[i + 2] as int) + 0x1000000 * (s[i + 3] as int)
  {
    SectorBounds(g, |d|, c);
  }

  /** The clusters follow all copies of the table, `perCluster` sectors of 512 bytes for each number from 2 on. */
  lemma ClusterOnDisk(g: Geometry, d: seq<Sector>, c: nat, o: nat)
    requires g.Fits(|d|) && 2 <= c < 128 * g.tableSize && o < 512 * g.perCluster
    ensures g.First(c) == g.fatStart + g.tableSize * g.fatCopies + g.perCluster * (c - 2)
    ensures ClustersOf(g, d)[c] != [] <==> g.First(c) + g.perCluster <= |d|
    ensures ClustersOf(g, d)[c] != [] ==>
              && |ClustersOf(g, d)[c]| == 512 * g.perCluster && g.First(c) + o / 512 < |d|
              && ClustersOf(g, d)[c][o] == d[g.First(c) + o / 512][o % 512]
  {
    FirstIs(g, c);
    hide Geometry.First;
    if g.OnDisk(|d|, c) { ByteOnDisk(g, d, c, o); }
  }

  lemma FirstIs(g: Geometry, c: nat)
    requires 2 <= c
    ensures g.First(c) == g.fatStart + g.tableSize * g.fatCopies + g.perCluster * (c - 2)
  {
    TimesIsProduct(g.tableSize, g.fatCopies);
    TimesIsProduct(g.perCluster, c - 2);
  }

  lemma ByteOnDisk(g: Geometry, d: seq<Sector>, c: nat, o: nat)
    requires g.Fits(|d|) && 2 <= c < g.Entries() && g.OnDisk(|d|, c) && o < g.ClusterSize()
    ensures g.First(c) + o / SECTOR < |d| && ClusterAt(g, d, c)[o] == d[g.First(c) + o / SECTOR][o % SECTOR]
  {
    hide Geometry.First, Geometry.Fits;
    FirstBounds(g, |d|, c);
    var own := d[g.First(c)..g.First(c) + g.perCluster];
    assert own[o / SECTOR] == d[g.First(c) + o / SECTOR];
  }

  /** `cl` with its `j`-th sector replaced. */
  function ReplaceSector(cl: seq<byte>, j: nat, s: Sector): (r: seq<byte>)
    requires SECTOR * (j + 1) <= |cl|
    ensures |r| == |cl|
  {
    cl[..SECTOR * j] + s + cl[SECTOR * (j + 1)..]
  }

  /** The disk after entry `c` has been rewritten in its sector. */
  ghost function WithEntry(g: Geometry, d: seq<Sector>, c: nat, v: uint32): (r: seq<Sector>)
    requires g.Fits(|d|) && c <= g.Entries()
    ensures |r| == |d|
  {
    SectorBounds(g, |d|, c);
    var s := g.fatStart + c / PER_SECTOR;
    d[s := PutLe32(d[s], 4 * (c % PER_SECTOR), v)]
  }

  /** Rewriting one entry through its sector changes that entry and nothing else on the volume. */
  lemma WithEntryEffect(g: Geometry, d: seq<Sector>, c: nat, v: uint32)
    requires g.Fits(|d|) && c < g.Entries()
    ensures TableOf(g, WithEntry(g, d, c, v)) == TableOf(g, d)[c := v]
    ensures ClustersOf(g, WithEntry(g, d, c, v)) == ClustersOf(g, d)
    ensures EntryAt(g, WithEntry(g, d, c, v), g.Entries()) == EntryAt(g, d, g.Entries())
  {
    var r := WithEntry(g, d, c, v);
    SectorBounds(g, |d|, c);
    forall e: nat | e <= g.Entries()
      ensures EntryAt(g, r, e) == if e == c then v else EntryAt(g, d, e)
    {
      OneEntry(g, d, c, v, e);
    }
    forall e: nat | 2 <= e < g.Entries() && g.OnDisk(|d|, e)
      ensures ClusterAt(g, r, e) == ClusterAt(g, d, e)
    {
      FirstBounds(g, |d|, e);
      assert r[g.First(e)..g.First(e) + g.perCluster] == d[g.First(e)..g.First(e) + g.perCluster];
    }
  }

  lemma OneEntry(g: Geometry, d: seq<Sector>, c: nat, v: uint32, e: nat)
    requires g.Fits(|d|) && c <= g.Entries() && e <= g.Entries()
    ensures EntryAt(g, WithEntry(g, d, c, v), e) == if e == c then v else EntryAt(g, d, e)
  {
    SectorBounds(g, |d|, c);
    SectorBounds(g, |d|, e);
    if c / PER_SECTOR == e / PER_SECTOR {
      PutThenGet(d[g.fatStart + c / PER_SECTOR], 4 * (c % PER_SECTOR), v, 4 * (e % PER_SECTOR));
    }
  }

  /** The word past the table is in the second table copy, or is the head of cluster 2. */
  lemma PastEntryEffect(g: Geometry, d: seq<Sector>, v: uint32)
    requires g.Fits(|d|)
    ensures var r := WithEntry(g, d, g.Entries(), v);
            && TableOf(g, r) == TableOf(g, d)
            && EntryAt(g, r, g.Entries()) == v
            && ClustersOf(g, r) == if g.fatCopies == 1 then ClustersOf(g, d)[2 := PutLe32(ClustersOf(g, d)[2], 0, v)]
                                   else ClustersOf(g, d)
  {
    var r := WithEntry(g, d, g.Entries(), v);
    var n := g.Entries();
    SectorBounds(g, |d|, n);
    forall e: nat | e <= n
      ensures EntryAt(g, r, e) == if e == n then v else EntryAt(g, d, e)
    {
      OneEntry(g, d, n, v, e);
    }
    forall e: nat | 2 <= e < n && g.OnDisk(|d|, e)
      ensures ClusterAt(g, r, e) == if g.fatCopies == 1 && e == 2 then PutLe32(ClusterAt(g, d, 2), 0, v) else ClusterAt(g, d, e)
    {
      PastEntryCluster(g, d, v, e);
    }
  }

  lemma PastEntryCluster(g: Geometry, d: seq<Sector>, v: uint32, e: nat)
    requires g.Fits(|d|) && 2 <= e < g.Entries() && g.OnDisk(|d|, e)
    ensures ClusterAt(g, WithEntry(g, d, g.Entries(), v), e)
         == if g.fatCopies == 1 && e == 2 then PutLe32(ClusterAt(g, d, 2), 0, v) else ClusterAt(g, d, e)
  {
    var r := WithEntry(g, d, g.Entries(), v);
    SectorBounds(g, |d|, g.Entries());
    FirstBounds(g, |d|, e);
    var f := g.First(e);
    if g.fatCopies == 1 {
      FirstBounds(g, |d|, 2);
      var s := PutLe32(d[g.First(2)], 0, v);
      assert r == d[g.First(2) + 0 := s];
      if e > 2 {
        OtherCluster(g, d, 2, 0, s, e);
      } else {
        OwnCluster(g, d, 2, 0, s);
        var own := d[g.First(2)..g.First(2) + g.perCluster];
        assert own[0] == d[g.First(2)];
        assert forall i :: 0 <= i < SECTOR ==> Flatten(own)[i] == own[i / SECTOR][i % SECTOR] == own[0][i];
        HeadWord(ClusterAt(g, d, 2), d[g.First(2)], v);
      }
    } else {
      TimesMono(g.tableSize, 2, g.fatCopies);
      assert Times(g.tableSize, 2) == g.tableSize + Times(g.tableSize, 1);
      assert r[f..f + g.perCluster] == d[f..f + g.perCluster];
    }
  }

  lemma HeadWord(cl: seq<byte>, s: Sector, v: uint32)
    requires |cl| >= SECTOR && cl[..SECTOR] == s
    ensures ReplaceSector(cl, 0, PutLe32(s, 0, v)) == PutLe32(cl, 0, v)
  {
    var a, b := ReplaceSector(cl, 0, PutLe32(s, 0, v)), PutLe32(cl, 0, v);
    assert forall i :: SECTOR <= i < |cl| ==> a[i] == cl[i] == b[i];
    assert forall i :: 4 <= i < SECTOR ==> cl[i] == cl[..SECTOR][i] == a[i] == b[i];
  }

  /** Rewriting sector `j` of cluster `c` changes that sector of that cluster and no table entry. */
  lemma DataWriteEffect(g: Geometry, d: seq<Sector>, c: nat, j: nat, s: Sector)
    requires g.Fits(|d|) && 2 <= c < g.Entries() && j < g.perCluster && g.OnDisk(|d|, c)
    ensures var r := d[g.First(c) + j := s];
            && TableOf(g, r) == TableOf(g, d)
            && SECTOR * (j + 1) <= |ClustersOf(g, d)[c]|
            && ClustersOf(g, r) == ClustersOf(g, d)[c := ReplaceSector(ClustersOf(g, d)[c], j, s)]
            && (g.fatCopies >= 2 || c != 2 ==> EntryAt(g, r, g.Entries()) == EntryAt(g, d, g.Entries()))
  {
    var r := d[g.First(c) + j := s];
    FirstBounds(g, |d|, c);
    forall e: nat | e < g.Entries()
      ensures EntryAt(g, r, e) == EntryAt(g, d, e)
    {
      SectorBounds(g, |d|, e);
    }
    forall e: nat | 2 <= e < g.Entries() && e != c && g.OnDisk(|d|, e)
      ensures ClusterAt(g, r, e) == ClusterAt(g, d, e)
    {
      OtherCluster(g, d, c, j, s, e);
    }
    OwnCluster(g, d, c, j, s);
    SectorBounds(g, |d|, g.Entries());
    if g.fatCopies >= 2 {
      TimesMono(g.tableSize, 2, g.fatCopies);
      assert Times(g.tableSize, 2) == g.tableSize + Times(g.tableSize, 1);
    } else if c != 2 {
      FirstApart(g, 2, c);
    }
  }

  lemma OtherCluster(g: Geometry, d: seq<Sector>, c: nat, j: nat, s: Sector, e: nat)
    requires g.Fits(|d|) && 2 <= c < g.Entries() && 2 <= e < g.Entries() && e != c && j < g.perCluster
    requires g.OnDisk(|d|, c) && g.OnDisk(|d|, e)
    ensures ClusterAt(g, d[g.First(c) + j := s], e) == ClusterAt(g, d, e)
  {
    if c < e { FirstApart(g, c, e); } else { FirstApart(g, e, c); }
    FirstBounds(g, |d|, e);
    var r := d[g.First(c) + j := s];
    var f := g.First(e);
    assert r[f..f + g.perCluster] == d[f..f + g.perCluster];
  }

  lemma OwnCluster(g: Geometry, d: seq<Sector>, c: nat, j: nat, s: Sector)
    requires g.Fits(|d|) && 2 <= c < g.Entries() && j < g.perCluster && g.OnDisk(|d|, c)
    ensures SECTOR * (j + 1) <= g.ClusterSize()
    ensures ClusterAt(g, d[g.First(c) + j := s], c) == ReplaceSector(ClusterAt(g, d, c), j, s)
  {
    FirstBounds(g, |d|, c);
    var r := d[g.First(c) + j := s];
    var f := g.First(c);
    var a, b := ClusterAt(g, r, c), ReplaceSector(ClusterAt(g, d, c), j, s);
    forall i | 0 <= i < |a|
      ensures a[i] == b[i]
    {
      assert r[f..f + g.perCluster][i / SECTOR] == r[f + i / SECTOR];
      assert d[f..f + g.perCluster][i / SECTOR] == d[f + i / SECTOR];
    }
  }
}
