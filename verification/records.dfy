/** Directory records: 32 bytes each, several to a cluster. */
module Records {
  import opened Bytes
  import opened Disks
  import opened Content

  const RECORD: nat := 32

  function Count(cl: seq<byte>): nat { |cl| / RECORD }

  function Record(cl: seq<byte>, i: nat): (rec: seq<byte>)
    requires i < Count(cl)
    ensures |rec| == RECORD
  {
    cl[RECORD * i..RECORD * (i + 1)]
  }

  function FirstCluster(rec: seq<byte>): nat
    requires |rec| == RECORD
  {
    ((rec[20] as int) + 0x100 * (rec[21] as int)) * 0x10000 + (rec[26] as int) + 0x100 * (rec[27] as int)
  }

  function FileSize(rec: seq<byte>): uint32
    requires |rec| == RECORD
  {
    Le32(rec, 28)
  }

  function WithSize(rec: seq<byte>, size: uint32): (r: seq<byte>)
    requires |rec| == RECORD
    ensures |r| == RECORD
  {
    PutLe32(rec, 28, size)
  }

  // ----- finding the record of a file by its first cluster

  /** First record from `i` on that names `start`, or the record count. */
  function MatchFrom(cl: seq<byte>, start: nat, i: nat): (r: nat)
    requires i <= Count(cl)
    ensures i <= r <= Count(cl)
    ensures r < Count(cl) ==> FirstCluster(Record(cl, r)) == start
    ensures forall k :: i <= k < r ==> FirstCluster(Record(cl, k)) != start
    decreases Count(cl) - i
  {
    if i == Count(cl) || FirstCluster(Record(cl, i)) == start then i else MatchFrom(cl, start, i + 1)
  }

  predicate HasMatch(cl: seq<byte>, start: nat) { MatchFrom(cl, start, 0) < Count(cl) }

  /** First position on the directory path whose cluster names `start`, or the path length. */
  function MatchOnPath(cl: seq<seq<byte>>, path: seq<nat>, start: nat): (k: nat)
    requires forall i :: 0 <= i < |path| ==> path[i] < |cl|
    ensures k <= |path|
    ensures k < |path| ==> HasMatch(cl[path[k]], start)
    ensures forall i :: 0 <= i < k ==> !HasMatch(cl[path[i]], start)
  {
    if path == [] || HasMatch(cl[path[0]], start) then 0 else 1 + MatchOnPath(cl, path[1..], start)
  }

  datatype Slot = Slot(cluster: nat, index: nat)

  /** Where on the directory path the record naming `start` is. */
  function SlotOf(cl: seq<seq<byte>>, path: seq<nat>, start: nat): (s: Slot)
    requires forall i :: 0 <= i < |path| ==> path[i] < |cl|
    requires MatchOnPath(cl, path, start) < |path|
    ensures s.cluster in path && s.cluster < |cl| && s.index < Count(cl[s.cluster])
    ensures FirstCluster(Record(cl[s.cluster], s.index)) == start
  {
    var c := path[MatchOnPath(cl, path, start)];
    Slot(c, MatchFrom(cl[c], start, 0))
  }

  // ----- writing one record back

  /** The directory cluster after record `i` was written back with a new size. */
  function Updated(cl: seq<byte>, i: nat, size: uint32): (r: seq<byte>)
    requires |cl| % SECTOR == 0 && i < Count(cl)
    ensures |r| == |cl|
  {
    Overwrite(cl, RECORD * i, WithSize(Record(cl, i), size))
  }

  /** Nothing but zeros follows record `i` in its sector. */
  predicate TailClear(cl: seq<byte>, i: nat)
    requires |cl| % SECTOR == 0 && i < Count(cl)
  {
    RoundUpWithin(RECORD * (i + 1), |cl|);
    forall k :: RECORD * (i + 1) <= k < RoundUp(RECORD * (i + 1)) ==> cl[k] == 0
  }

  lemma UpdatedOwn(cl: seq<byte>, i: nat, size: uint32)
    requires |cl| % SECTOR == 0 && i < Count(cl)
    ensures Record(Updated(cl, i, size), i) == WithSize(Record(cl, i), size)
    ensures FileSize(Record(Updated(cl, i, size), i)) == size
  {
    OverwriteRoundTrip(cl, RECORD * i, WithSize(Record(cl, i), size));
    PutThenGet(Record(cl, i), 28, size, 28);
  }

  /** The written-back cluster, byte by byte, outside the record itself. */
  lemma UpdatedElsewhere(cl: seq<byte>, i: nat, size: uint32, k: nat)
    requires |cl| % SECTOR == 0 && i < Count(cl) && k < |cl| && !(RECORD * i <= k < RECORD * (i + 1))
    ensures Updated(cl, i, size)[k] == if RECORD * (i + 1) <= k < RoundUp(RECORD * (i + 1)) then 0 else cl[k]
  {
    OverwriteAt(cl, RECORD * i, WithSize(Record(cl, i), size), k);
  }

  lemma NeighbourKept(cl: seq<byte>, i: nat, size: uint32, j: nat)
    requires |cl| % SECTOR == 0 && i < Count(cl) && j < Count(cl) && j != i && TailClear(cl, i)
    ensures Record(Updated(cl, i, size), j) == Record(cl, j)
  {
    RoundUpWithin(RECORD * (i + 1), |cl|);
    forall k | RECORD * j <= k < RECORD * (j + 1)
      ensures Updated(cl, i, size)[k] == cl[k]
    {
      UpdatedElsewhere(cl, i, size, k);
    }
  }

  /** Writing a record back leaves the other records of the cluster alone exactly when the rest of
      its sector was already clear: the short write zeroes that rest. */
  lemma NeighboursKeptIff(cl: seq<byte>, i: nat, size: uint32)
    requires |cl| % SECTOR == 0 && i < Count(cl)
    ensures (forall j :: 0 <= j < Count(cl) && j != i ==> Record(Updated(cl, i, size), j) == Record(cl, j))
       <==> TailClear(cl, i)
  {
    hide Updated, TailClear;
    if TailClear(cl, i) {
      forall j | 0 <= j < Count(cl) && j != i
        ensures Record(Updated(cl, i, size), j) == Record(cl, j)
      {
        NeighbourKept(cl, i, size, j);
      }
    } else {
      var k := Dirt(cl, i);
      UpdatedElsewhere(cl, i, size, k);
      var j := k / RECORD;
      ByteOfRecord(cl, k);
      ByteOfRecord(Updated(cl, i, size), k);
      assert j != i;
    }
  }

  lemma ByteOfRecord(cl: seq<byte>, k: nat)
    requires |cl| % SECTOR == 0 && k < |cl|
    ensures k / RECORD < Count(cl) && Record(cl, k / RECORD)[k % RECORD] == cl[k]
  {
  }

  lemma Dirt(cl: seq<byte>, i: nat) returns (k: nat)
    requires |cl| % SECTOR == 0 && i < Count(cl) && !TailClear(cl, i)
    ensures RECORD * (i + 1) <= k < RoundUp(RECORD * (i + 1)) && k < |cl| && cl[k] != 0
  {
    RoundUpWithin(RECORD * (i + 1), |cl|);
    k :| RECORD * (i + 1) <= k < RoundUp(RECORD * (i + 1)) && cl[k] != 0;
  }

  /** Records per sector. */
  const IN_SECTOR: nat := 16

  lemma SectorEnd(i: nat, j: nat)
    requires j / IN_SECTOR == i / IN_SECTOR
    ensures RECORD * (j + 1) <= RoundUp(RECORD * (i + 1))
  {
    var q, a, b := i / IN_SECTOR, i % IN_SECTOR, j % IN_SECTOR;
    assert i == IN_SECTOR * q + a && j == IN_SECTOR * q + b;
    WholeSectors(RECORD * (i + 1), q, RECORD * (a + 1));
  }

  lemma WholeSectors(n: nat, q: nat, r: nat)
    requires n == SECTOR * q + r && 0 < r <= SECTOR
    ensures RoundUp(n) == SECTOR * (q + 1)
  {
    var x := n + SECTOR - 1;
    assert x == SECTOR * (q + 1) + (r - 1);
    assert x / SECTOR == q + 1;
  }

  /** The write-back of a record clears every record behind it in the same sector. */
  lemma BehindWiped(cl: seq<byte>, i: nat, size: uint32, j: nat)
    requires |cl| % SECTOR == 0 && i < j < Count(cl) && j / IN_SECTOR == i / IN_SECTOR
    ensures Record(Updated(cl, i, size), j) == Zeros(RECORD)
  {
    hide Updated, RoundUp;
    SectorEnd(i, j);
    forall k: nat | RECORD * j <= k < RECORD * (j + 1)
      ensures Updated(cl, i, size)[k] == 0
    {
      UpdatedElsewhere(cl, i, size, k);
    }
  }
}
