/** A disk of 512-byte sectors, with the contract the file system is written against. */
module Disks {
  import opened Bytes

  const SECTOR: nat := 512

  type Sector = s: seq<byte> | |s| == SECTOR witness seq(SECTOR, _ => 0)

  function Zeros(n: nat): (z: seq<byte>)
    ensures |z| == n && forall i :: 0 <= i < n ==> z[i] == 0
  {
    seq(n, _ => 0)
  }

  /** A short transfer fills the rest of the sector with zeros. */
  function Padded(data: seq<byte>): (s: Sector)
    requires |data| <= SECTOR
    ensures s[..|data|] == data && forall i :: |data| <= i < SECTOR ==> s[i] == 0
  {
    data + Zeros(SECTOR - |data|)
  }

  class Disk {
    var sectors: seq<Sector>

    /** Transfers the first `count` bytes of one sector. */
    method Read28(sector: nat, count: nat) returns (data: seq<byte>)
      requires sector < |sectors| && count <= SECTOR
      ensures data == sectors[sector][..count]
    {
      data := sectors[sector][..count];
    }

    /** Writes one sector; the bytes past the buffer become zero. */
    method Write28(sector: nat, data: seq<byte>)
      requires sector < |sectors| && |data| <= SECTOR
      modifies this
      ensures sectors == old(sectors)[sector := Padded(data)]
    {
      sectors := sectors[sector := Padded(data)];
    }
  }
}
