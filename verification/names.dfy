/** 8.3 directory names: how a file name is stored in a record and what is read back. */
module Names {
  import opened Bytes
  import opened Content
  import opened Paths

  const NAME_SIZE: nat := 11

  /** The bytes that are not padding. */
  function Strip(s: seq<byte>): (r: seq<byte>)
    ensures |r| <= |s|
  {
    if s == [] then [] else (if s[0] == SPACE then [] else [s[0]]) + Strip(s[1..])
  }

  lemma {:induction false} StripClean(s: seq<byte>, c: byte)
    ensures SPACE !in Strip(s)
    ensures SPACE !in s ==> Strip(s) == s
    ensures c !in s ==> c !in Strip(s)
  {
    if s != [] { StripClean(s[1..], c); }
  }

  lemma Associative(a: seq<byte>, b: seq<byte>, c: seq<byte>)
    ensures a + (b + c) == (a + b) + c
  {
  }

  lemma {:induction false} StripConcat(a: seq<byte>, b: seq<byte>)
    ensures Strip(a + b) == Strip(a) + Strip(b)
  {
    if a == [] {
      assert a + b == b;
    } else {
      StripConcat(a[1..], b);
      var h := if a[0] == SPACE then [] else [a[0]];
      assert (a + b)[0] == a[0] && (a + b)[1..] == a[1..] + b;
      Associative(h, Strip(a[1..]), Strip(b));
    }
  }

  function Spaces(n: nat): (s: seq<byte>)
    ensures |s| == n && forall i :: 0 <= i < n ==> s[i] == SPACE
  {
    seq(n, _ => SPACE)
  }

  lemma {:induction false} StripSpaces(n: nat)
    ensures Strip(Spaces(n)) == []
  {
    if n > 0 {
      StripSpaces(n - 1);
      assert Spaces(n)[1..] == Spaces(n - 1);
    }
  }

  lemma StripOne(c: byte)
    ensures c != SPACE ==> Strip([c]) == [c]
    ensures c == SPACE ==> Strip([c]) == []
  {
    assert [c][1..] == [];
  }

  /** A space is left out wherever it stands, and any other byte stays. */
  lemma StripAround(a: seq<byte>, c: byte, b: seq<byte>)
    ensures Strip(a + [c] + b) == if c == 32 then Strip(a) + Strip(b) else Strip(a) + [c] + Strip(b)
    ensures Strip([]) == []
  {
    hide Strip;
    StripConcat(a + [c], b);
    StripConcat(a, [c]);
    StripOne(c);
    StripSpaces(0);
  }

  // ----- name and extension

  function Dot(n: seq<byte>): int { LastIndex(n, DOT) }

  /** Everything before the last dot, or the whole name. */
  function Base(n: seq<byte>): seq<byte> { if Dot(n) < 0 then n else n[..Dot(n)] }

  /** Everything after the last dot. */
  function Ext(n: seq<byte>): (e: seq<byte>)
    ensures DOT !in e
  {
    if Dot(n) < 0 then [] else n[Dot(n) + 1..]
  }

  /** The 11 name bytes of a record: the base padded with spaces; the extension right-aligned, with
      one terminator byte behind it when it is shorter than three. */
  function Encoded(n: seq<byte>): (r: seq<byte>)
    ensures |r| == NAME_SIZE
  {
    var b := UpTo(Base(n), 8);
    var e := StoredExt(n);
    b + Spaces(8 - |b|) + Spaces(3 - |e|) + e
  }

  /** What convert_entry makes of 11 name bytes, with its terminator. */
  function Decoded(name: seq<byte>): (r: seq<byte>)
    requires |name| == NAME_SIZE
    ensures Terminated(r)
  {
    var r := Strip(name[..8]) + [DOT] + Strip(name[8..]) + [NUL];
    assert r[|r| - 1] == NUL;
    r
  }

  /** The name a file gets: base and extension cut and without spaces, always with a dot. */
  function Normal(n: seq<byte>): seq<byte> {
    Strip(UpTo(Base(n), 8)) + [DOT] + Strip(UpTo(Ext(n), 3))
  }

  /** The extension bytes of a record. */
  function StoredExt(n: seq<byte>): (e: seq<byte>)
    ensures |e| <= 3
  {
    if Dot(n) < 0 then [] else if |Ext(n)| >= 3 then Ext(n)[..3] else Ext(n) + [NUL]
  }

  /** Storing a name and reading it back gives its normal form, for every name. */
  lemma DecodeEncode(n: seq<byte>)
    requires NUL !in n
    ensures CStr(Decoded(Encoded(n))) == Normal(n)
  {
    hide Strip, CStr, Encoded, StoredExt, Normal, UpTo;
    var b, e, name := UpTo(Base(n), 8), StoredExt(n), Encoded(n);
    EncodedHalves(n);
    StripConcat(b, Spaces(8 - |b|));
    StripConcat(Spaces(3 - |e|), e);
    StripSpaces(8 - |b|);
    StripSpaces(3 - |e|);
    assert Strip(name[..8]) == Strip(b) && Strip(name[8..]) == Strip(e);
    NormalClean(n);
    DecodedTail(n);
    CStrIs(Decoded(name), |Normal(n)|);
  }

  lemma EncodedHalves(n: seq<byte>)
    ensures var b, e := UpTo(Base(n), 8), StoredExt(n);
            Encoded(n)[..8] == b + Spaces(8 - |b|) && Encoded(n)[8..] == Spaces(3 - |e|) + e
  {
  }

  /** Decoding gives the normal form followed by terminators. */
  lemma DecodedTail(n: seq<byte>)
    requires Strip(Encoded(n)[..8]) == Strip(UpTo(Base(n), 8)) && Strip(Encoded(n)[8..]) == Strip(StoredExt(n))
    ensures Decoded(Encoded(n)) == Normal(n) + [NUL] || Decoded(Encoded(n)) == Normal(n) + [NUL] + [NUL]
  {
    hide Strip, Encoded, StoredExt, UpTo;
    StripStoredExt(n);
    var a, b := Strip(UpTo(Base(n), 8)), Strip(UpTo(Ext(n), 3));
    assert a + [DOT] + (b + [NUL]) + [NUL] == a + [DOT] + b + [NUL] + [NUL];
  }

  lemma StripStoredExt(n: seq<byte>)
    ensures Strip(StoredExt(n)) == Strip(UpTo(Ext(n), 3)) || Strip(StoredExt(n)) == Strip(UpTo(Ext(n), 3)) + [NUL]
  {
    if Dot(n) >= 0 && |Ext(n)| < 3 {
      StripConcat(Ext(n), [NUL]);
      StripOne(NUL);
    }
  }

  lemma NormalClean(n: seq<byte>)
    requires NUL !in n
    ensures NUL !in Normal(n)
  {
    StripClean(UpTo(Base(n), 8), NUL);
    StripClean(UpTo(Ext(n), 3), NUL);
  }

  lemma LastDot(n: seq<byte>, a: seq<byte>, b: seq<byte>)
    requires n == a + [DOT] + b && DOT !in b
    ensures Dot(n) == |a| && Base(n) == a && Ext(n) == b
  {
    assert n[|a|] == DOT;
    assert forall k :: |a| < k < |n| ==> n[k] == b[k - |a| - 1];
  }

  /** Base at most 8, extension at most 3, a dot between them and no spaces. */
  predicate IsNormal(n: seq<byte>) {
    Dot(n) >= 0 && |Base(n)| <= 8 && |Ext(n)| <= 3 && SPACE !in n
  }

  /** A name reads back as itself exactly when it is a normal 8.3 name; one without a dot never does. */
  lemma NormalIff(n: seq<byte>)
    ensures Normal(n) == n <==> IsNormal(n)
  {
    hide UpTo, Strip, Dot, Base, Ext;
    var a, b := UpTo(Base(n), 8), UpTo(Ext(n), 3);
    StripClean(a, DOT);
    StripClean(b, DOT);
    if Normal(n) == n {
      LastDot(n, Strip(a), Strip(b));
      Spaceless(Strip(a), Strip(b));
    }
    if IsNormal(n) { NormalParts(n); }
  }

  lemma Spaceless(a: seq<byte>, b: seq<byte>)
    requires SPACE !in a && SPACE !in b
    ensures SPACE !in a + [DOT] + b
  {
  }

  lemma NormalParts(n: seq<byte>)
    requires Dot(n) >= 0
    ensures n == Base(n) + [DOT] + Ext(n)
    ensures SPACE !in n ==> SPACE !in Base(n) && SPACE !in Ext(n)
  {
    assert forall i :: 0 <= i < |Base(n)| ==> Base(n)[i] == n[i];
    assert forall i :: 0 <= i < |Ext(n)| ==> Ext(n)[i] == n[Dot(n) + 1 + i];
  }

  /** The normal form is a normal name, so normalising once is enough. */
  lemma NormalIdempotent(n: seq<byte>)
    ensures IsNormal(Normal(n)) && Normal(Normal(n)) == Normal(n)
  {
    var a, b := Strip(UpTo(Base(n), 8)), Strip(UpTo(Ext(n), 3));
    StripClean(UpTo(Base(n), 8), DOT);
    StripClean(UpTo(Ext(n), 3), DOT);
    LastDot(Normal(n), a, b);
    NormalIff(Normal(n));
  }

  /** The names that read back as they were given: a dot with at most 8 bytes before it and at most 3 behind it, the last
      one in the name, and no space. */
  lemma ReadsBackIff(n: seq<byte>)
    requires 0 !in n
    ensures CStr(Decoded(Encoded(n))) == n <==>
              32 !in n && exists k :: 0 <= k < |n| && n[k] == 46 && 46 !in n[k + 1..] && k <= 8 && |n| - k - 1 <= 3
  {
    hide Encoded, Decoded, Normal, CStr, IsNormal;
    DecodeEncode(n);
    NormalIff(n);
    NormalSpelled(n);
  }

  lemma NormalSpelled(n: seq<byte>)
    ensures IsNormal(n) <==> 32 !in n && exists k :: 0 <= k < |n| && n[k] == 46 && 46 !in n[k + 1..] && k <= 8 && |n| - k - 1 <= 3
  {
    hide LastIndex;
    var k := Dot(n);
    if k >= 0 { assert Ext(n) == n[k + 1..] && |Base(n)| == k; }
    forall q | 0 <= q < |n| && n[q] == 46 && 46 !in n[q + 1..]
      ensures q == k
    {
      DotAt(n, q);
    }
  }

  lemma DotAt(n: seq<byte>, q: nat)
    requires q < |n| && n[q] == 46 && 46 !in n[q + 1..]
    ensures Dot(n) == q
  {
    assert n == n[..q] + [DOT] + n[q + 1..];
    LastDot(n, n[..q], n[q + 1..]);
  }

  /** The 11 bytes stored for a name whose last dot is at `k`. */
  lemma StoredBytes(n: seq<byte>, k: nat, j: nat)
    requires 0 !in n && k < |n| && n[k] == 46 && 46 !in n[k + 1..] && j < 11
    ensures var e := Min(|n| - k, 3);
            Encoded(n)[j] == if j < Min(k, 8) then n[j]
                             else if j < 11 - e then 32
                             else (n + [0])[k + 1 + j - (11 - e)]
  {
    hide Encoded;
    DotAt(n, k);
    EncodedAt(n + [NUL], n, j);
  }

  /** Without a dot, up to 8 bytes of the name are stored. */
  lemma StoredWithoutDot(n: seq<byte>, j: nat)
    requires 0 !in n && 46 !in n && j < 11
    ensures Encoded(n)[j] == if j < Min(|n|, 8) then n[j] else 32
  {
    hide Encoded;
    EncodedAt(n + [NUL], n, j);
  }

  // ----- the loops

  /** Copies the 11 name bytes without padding, with a dot before the extension. */
  method ConvertName(name: seq<byte>) returns (r: seq<byte>)
    requires |name| == NAME_SIZE
    ensures r == Decoded(name) == Strip(name[..8]) + [46] + Strip(name[8..]) + [0]
  {
    hide Strip;
    r := [];
    StripSpaces(0);
    for i := 0 to NAME_SIZE
      invariant r == PartlyDecoded(name, i)
    {
      DecodeStep(name, i);
      if i == 8 {
        r := r + [DOT];
      }
      if name[i] != SPACE {
        r := r + [name[i]];
      }
    }
    assert name[8..NAME_SIZE] == name[8..];
    r := r + [NUL];
  }

  function PartlyDecoded(name: seq<byte>, i: nat): seq<byte>
    requires |name| == NAME_SIZE && i <= NAME_SIZE
  {
    if i <= 8 then Strip(name[..i]) else Strip(name[..8]) + [DOT] + Strip(name[8..i])
  }

  lemma StripSnoc(s: seq<byte>, lo: nat, hi: nat)
    requires lo <= hi < |s|
    ensures Strip(s[lo..hi + 1]) == Strip(s[lo..hi]) + (if s[hi] == SPACE then [] else [s[hi]])
  {
    assert s[lo..hi + 1] == s[lo..hi] + [s[hi]];
    StripConcat(s[lo..hi], [s[hi]]);
    StripOne(s[hi]);
  }

  lemma DecodeStep(name: seq<byte>, i: nat)
    requires |name| == NAME_SIZE && i < NAME_SIZE
    ensures PartlyDecoded(name, i + 1)
         == PartlyDecoded(name, i) + (if i == 8 then [DOT] else []) + (if name[i] == SPACE then [] else [name[i]])
  {
    hide Strip;
    if i < 8 {
      StripSnoc(name, 0, i);
      assert name[0..i] == name[..i] && name[0..i + 1] == name[..i + 1];
    } else {
      StripSnoc(name, 8, i);
      StripSpaces(0);
      Associative(Strip(name[..8]) + [DOT], Strip(name[8..i]), if name[i] == SPACE then [] else [name[i]]);
    }
  }

  /** Bytes a stored name takes from the base and from the terminated buffer behind the dot. */
  function BaseSize(n: seq<byte>): (k: nat)
    ensures k <= |n| && k <= 8
  {
    if Dot(n) < 0 then Min(|n|, 8) else Min(Dot(n), 8)
  }

  function ExtSize(n: seq<byte>): (k: nat)
    ensures k <= 3 && (k > 0 ==> Dot(n) >= 0 && Dot(n) + k <= |n|)
  {
    if Dot(n) < 0 then 0 else Min(|n| - Dot(n), 3)
  }

  lemma BaseAt(name: seq<byte>, n: seq<byte>)
    requires |n| < |name| && name[..|n|] == n
    ensures var b := UpTo(Base(n), 8);
            |b| == BaseSize(n) && forall i :: 0 <= i < |b| ==> b[i] == name[i]
  {
    assert forall i :: 0 <= i < |n| ==> n[i] == name[..|n|][i];
  }

  lemma ExtAt(name: seq<byte>, n: seq<byte>)
    requires |n| < |name| && name[..|n|] == n && name[|n|] == NUL
    ensures var e := StoredExt(n);
            |e| == ExtSize(n) && forall i :: 0 <= i < |e| ==> e[i] == name[Dot(n) + 1 + i]
  {
    var e := StoredExt(n);
    if Dot(n) >= 0 {
      forall i | 0 <= i < |e|
        ensures e[i] == name[Dot(n) + 1 + i]
      {
        if Dot(n) + 1 + i < |n| { assert Ext(n)[i] == name[..|n|][Dot(n) + 1 + i]; }
      }
    }
  }

  /** The stored bytes, one by one, in terms of the terminated name. */
  lemma EncodedAt(name: seq<byte>, n: seq<byte>, j: nat)
    requires |n| < |name| && name[..|n|] == n && name[|n|] == NUL && j < NAME_SIZE
    ensures Encoded(n)[j] == if j < BaseSize(n) then name[j]
                             else if j < NAME_SIZE - ExtSize(n) then SPACE
                             else name[Dot(n) + 1 + j - (NAME_SIZE - ExtSize(n))]
  {
    hide UpTo, StoredExt, Base, Dot, BaseSize, ExtSize;
    BaseAt(name, n);
    ExtAt(name, n);
  }

  /** Stores a name in the 11 bytes of `buf` from `at` on. */
  method StoreName(buf: array<byte>, at: nat, name: seq<byte>)
    requires Terminated(name) && at + NAME_SIZE <= buf.Length
    modifies buf
    ensures forall k :: 0 <= k < buf.Length ==>
              buf[k] == if at <= k < at + NAME_SIZE then Encoded(CStr(name))[k - at] else old(buf[k])
  {
    hide Encoded, CStr, LastIndex;
    ghost var n := CStr(name);
    var filenameSize := Strlen(name);
    var dotIdx := GetIndex(name, DOT);
    var nameSize := if dotIdx == -1 then filenameSize else dotIdx;
    if nameSize > 8 { nameSize := 8; }
    var extSize := if dotIdx == -1 then 0 else filenameSize - dotIdx;
    if extSize > 3 { extSize := 3; }
    for s := 0 to NAME_SIZE
      invariant forall k :: 0 <= k < buf.Length ==> buf[k] == if at <= k < at + s then SPACE else old(buf[k])
    {
      buf[at + s] := SPACE;
    }
    for s := 0 to nameSize
      invariant forall k :: 0 <= k < buf.Length ==>
                  buf[k] == if at <= k < at + s then name[k - at] else if at <= k < at + NAME_SIZE then SPACE else old(buf[k])
    {
      buf[at + s] := name[s];
    }
    ghost var x := at + NAME_SIZE - extSize;
    for s := 0 to extSize
      invariant forall k :: 0 <= k < buf.Length ==>
                  buf[k] == if at <= k < at + nameSize then name[k - at]
                            else if x <= k < x + s then name[dotIdx + 1 + k - x]
                            else if at <= k < at + NAME_SIZE then SPACE else old(buf[k])
    {
      buf[at + NAME_SIZE - extSize + s] := name[dotIdx + 1 + s];
    }
    forall k | at <= k < at + NAME_SIZE
      ensures buf[k] == Encoded(n)[k - at]
    {
      EncodedAt(name, n, k - at);
    }
  }
}
