/** Bytes, 32-bit words and their little-endian layout. */
module Bytes {
  type byte = x: int | 0 <= x < 0x100
  type uint32 = x: int | 0 <= x < 0x1_0000_0000

  /** The word stored little-endian at offset `i`. */
  function Le32(s: seq<byte>, i: nat): (v: uint32)
    requires i + 4 <= |s|
  {
    (s[i] as int) + 0x100 * (s[i + 1] as int) + 0x10000 * (s[i + 2] as int) + 0x1000000 * (s[i + 3] as int)
  }

  function Le32Bytes(v: uint32): (s: seq<byte>)
    ensures |s| == 4
  {
    [v % 0x100, (v / 0x100) % 0x100, (v / 0x10000) % 0x100, v / 0x1000000]
  }

  /** `s` with the word at offset `i` replaced by `v`. */
  function PutLe32(s: seq<byte>, i: nat, v: uint32): (r: seq<byte>)
    requires i + 4 <= |s|
    ensures |r| == |s|
  {
    s[..i] + Le32Bytes(v) + s[i + 4..]
  }

  lemma Le32OfBytes(v: uint32)
    ensures Le32(Le32Bytes(v), 0) == v
  {
    var a, b := v / 0x100, v / 0x10000;
    assert v == a * 0x100 + v % 0x100;
    assert a == b * 0x100 + a % 0x100;
    assert b == (v / 0x1000000) * 0x100 + b % 0x100;
    assert v / 0x100 / 0x100 == b;
  }

  /** Storing a word is read back, and disturbs no other word of the buffer. */
  lemma PutThenGet(s: seq<byte>, i: nat, v: uint32, j: nat)
    requires i + 4 <= |s| && j + 4 <= |s|
    requires i == j || i + 4 <= j || j + 4 <= i
    ensures Le32(PutLe32(s, i, v), j) == if i == j then v else Le32(s, j)
  {
    var r := PutLe32(s, i, v);
    if i == j {
      var w := Le32Bytes(v);
      assert r[i] == w[0] && r[i + 1] == w[1] && r[i + 2] == w[2] && r[i + 3] == w[3];
      Le32OfBytes(v);
    } else {
      assert r[j] == s[j] && r[j + 1] == s[j + 1] && r[j + 2] == s[j + 2] && r[j + 3] == s[j + 3];
    }
  }
}
