/** NUL-terminated strings and slash-separated paths. */
module Paths {
  import opened Bytes

  const NUL: byte := 0
  const SLASH: byte := 47
  const DOT: byte := 46
  const SPACE: byte := 32

  /** Longest component, without its terminator. */
  const MAX_COMPONENT: nat := 255

  // ----- strings in buffers

  predicate Terminated(s: seq<byte>) { NUL in s }

  /** The string a buffer holds: everything before its first NUL. */
  function CStr(s: seq<byte>): (r: seq<byte>)
    requires Terminated(s)
    ensures |r| < |s| && r == s[..|r|] && s[|r|] == NUL && NUL !in r
  {
    if s[0] == NUL then [] else [s[0]] + CStr(s[1..])
  }

  /** A NUL-free prefix followed by a NUL is the whole string. */
  lemma {:induction false} CStrIs(s: seq<byte>, n: nat)
    requires n < |s| && s[n] == NUL && NUL !in s[..n]
    ensures Terminated(s) && CStr(s) == s[..n]
  {
    assert s[n] in s;
    var r := CStr(s);
    assert forall i :: 0 <= i < n ==> s[i] == s[..n][i] && s[..n][i] in s[..n];
    assert forall i :: 0 <= i < |r| ==> s[i] == r[i] && r[i] in r;
  }

  method Strcmp(a: seq<byte>, b: seq<byte>) returns (same: bool)
    requires Terminated(a) && Terminated(b)
    ensures same <==> CStr(a) == CStr(b)
  {
    var i := 0;
    while a[i] != NUL && b[i] != NUL
      invariant i <= |CStr(a)| && i <= |CStr(b)|
      invariant a[..i] == b[..i]
      decreases |a| - i
    {
      StillInside(a, i);
      StillInside(b, i);
      if a[i] != b[i] {
        assert CStr(a)[i] != CStr(b)[i];
        return false;
      }
      i := i + 1;
    }
    Ends(a, i);
    Ends(b, i);
    return a[i] == b[i];
  }

  lemma StillInside(s: seq<byte>, i: nat)
    requires Terminated(s) && i <= |CStr(s)| && s[i] != NUL
    ensures i < |CStr(s)| && CStr(s)[i] == s[i]
  {
  }

  lemma Ends(s: seq<byte>, i: nat)
    requires Terminated(s) && i <= |CStr(s)|
    ensures s[i] == NUL <==> i == |CStr(s)|
    ensures CStr(s)[..i] == s[..i]
  {
    if i < |CStr(s)| { assert CStr(s)[i] == s[i] && CStr(s)[i] in CStr(s); }
  }

  method Strlen(s: seq<byte>) returns (n: nat)
    requires Terminated(s)
    ensures n == |CStr(s)|
  {
    n := 0;
    while s[n] != NUL
      invariant n <= |CStr(s)|
      decreases |s| - n
    {
      StillInside(s, n);
      n := n + 1;
    }
    Ends(s, n);
  }

  /** Index of the last occurrence of `c`, or -1. */
  function LastIndex(s: seq<byte>, c: byte): (i: int)
    ensures -1 <= i < |s|
    ensures i >= 0 ==> s[i] == c
    ensures forall k :: i < k < |s| ==> s[k] != c
  {
    if s == [] then -1
    else if s[|s| - 1] == c then |s| - 1
    else LastIndex(s[..|s| - 1], c)
  }

  method GetIndex(s: seq<byte>, c: byte) returns (index: int)
    requires Terminated(s)
    ensures index == LastIndex(CStr(s), c)
  {
    var i := 0;
    index := -1;
    while s[i] != NUL
      invariant i <= |CStr(s)|
      invariant -1 <= index < i
      invariant index == LastIndex(CStr(s)[..i], c)
      decreases |s| - i
    {
      StillInside(s, i);
      assert CStr(s)[..i + 1][..i] == CStr(s)[..i];
      if s[i] == c {
        index := i;
      }
      i := i + 1;
    }
    Ends(s, i);
    assert CStr(s)[..i] == CStr(s);
  }

  // ----- splitting

  /** The non-empty segments of `s`, given that `cur` was read since the last slash. */
  function SegmentsFrom(s: seq<byte>, cur: seq<byte>): (r: seq<seq<byte>>)
    decreases |s|
  {
    if s == [] then (if cur == [] then [] else [cur])
    else if s[0] == SLASH then (if cur == [] then [] else [cur]) + SegmentsFrom(s[1..], [])
    else SegmentsFrom(s[1..], cur + [s[0]])
  }

  /** The non-empty slash-separated segments of a string. */
  function Segments(s: seq<byte>): seq<seq<byte>> {
    SegmentsFrom(s, [])
  }

  function Cut(seg: seq<byte>): (r: seq<byte>)
    ensures r <= seg && |r| <= MAX_COMPONENT
    ensures |seg| <= MAX_COMPONENT ==> r == seg
  {
    if |seg| <= MAX_COMPONENT then seg else seg[..MAX_COMPONENT]
  }

  function CutAll(segs: seq<seq<byte>>): (r: seq<seq<byte>>)
    ensures |r| == |segs| && forall i :: 0 <= i < |r| ==> r[i] == Cut(segs[i])
  {
    seq(|segs|, i requires 0 <= i < |segs| => Cut(segs[i]))
  }

  function Take<T>(s: seq<T>, n: nat): (r: seq<T>) {
    if |s| <= n then s else s[..n]
  }

  /** What split_path yields for an absolute path: its first `n` segments, each cut to 255 bytes. */
  function Components(path: seq<byte>, n: nat): (r: seq<seq<byte>>)
    requires path != []
    ensures |r| <= n
  {
    Take(CutAll(Segments(path[1..])), n)
  }

  ghost function Row(a: array2<byte>, r: nat): (s: seq<byte>)
    requires r < a.Length0
    reads a
    ensures |s| == a.Length1
  {
    seq(a.Length1, j requires 0 <= j < a.Length1 reads a => a[r, j])
  }

  /** Rows `0..|done|` hold the finished components, and row `|done|` starts with `cur`. */
  ghost predicate Holds(a: array2<byte>, done: seq<seq<byte>>, cur: seq<byte>)
    reads a
  {
    && a.Length1 == MAX_COMPONENT + 1 && |done| <= a.Length0
    && (forall r :: 0 <= r < |done| ==> Terminated(Row(a, r)) && CStr(Row(a, r)) == done[r])
    && |cur| <= MAX_COMPONENT && (cur != [] ==> |done| < a.Length0)
    && (forall j :: 0 <= j < |cur| ==> a[|done|, j] == cur[j])
  }

  lemma HeldRow(a: array2<byte>, done: seq<seq<byte>>, r: nat)
    requires Holds(a, done, []) && r < |done|
    ensures a.Length1 == MAX_COMPONENT + 1 && r < a.Length0 && Terminated(Row(a, r)) && CStr(Row(a, r)) == done[r]
  {
  }

  /** Terminates the component being read. */
  method CloseComponent(a: array2<byte>, count: nat, compIdx: nat, ghost done: seq<seq<byte>>, ghost cur: seq<byte>)
    requires Holds(a, done, cur) && count == |done| && compIdx == |cur| && cur != [] && NUL !in cur
    modifies a
    ensures Holds(a, done + [cur], [])
  {
    a[count, compIdx] := NUL;
    assert Row(a, count)[..compIdx] == cur;
    CStrIs(Row(a, count), compIdx);
    forall r | 0 <= r < count
      ensures Row(a, r) == old(Row(a, r))
    {
    }
  }

  /** Appends one byte to the component being read. */
  method PutByte(a: array2<byte>, count: nat, compIdx: nat, c: byte, ghost done: seq<seq<byte>>, ghost cur: seq<byte>)
    requires Holds(a, done, cur) && count == |done| < a.Length0 && compIdx == |cur| < MAX_COMPONENT
    modifies a
    ensures Holds(a, done, cur + [c])
  {
    a[count, compIdx] := c;
    forall r | 0 <= r < count
      ensures Row(a, r) == old(Row(a, r))
    {
    }
  }

  lemma CutAllCons(seg: seq<byte>, rest: seq<seq<byte>>)
    ensures CutAll([seg] + rest) == [Cut(seg)] + CutAll(rest)
  {
  }

  /** One byte of the path: what remains to be produced. */
  lemma SegmentsStep(s: seq<byte>, full: seq<byte>)
    requires s != []
    ensures s[0] == SLASH && full != [] ==>
              CutAll(SegmentsFrom(s, full)) == [Cut(full)] + CutAll(SegmentsFrom(s[1..], []))
    ensures s[0] == SLASH && full == [] ==> SegmentsFrom(s, full) == SegmentsFrom(s[1..], [])
    ensures s[0] != SLASH ==> SegmentsFrom(s, full) == SegmentsFrom(s[1..], full + [s[0]])
    ensures s[0] != SLASH ==>
              Cut(full + [s[0]]) == if |Cut(full)| < MAX_COMPONENT then Cut(full) + [s[0]] else Cut(full)
  {
    hide CutAll;
    CutAllCons(full, SegmentsFrom(s[1..], []));
  }

  lemma NothingLeft(full: seq<byte>)
    ensures CutAll(SegmentsFrom([], full)) == if full == [] then [] else [Cut(full)]
    ensures full == [] <==> Cut(full) == []
    ensures NUL !in full ==> NUL !in Cut(full)
  {
  }

  lemma HoldsNothing(a: array2<byte>)
    requires a.Length1 == MAX_COMPONENT + 1
    ensures Holds(a, [], Cut([])) && Cut([]) == []
  {
  }

  method SplitPath(path: seq<byte>, components: array2<byte>, maxComponents: nat) returns (ok: bool, count: nat)
    requires Terminated(path)
    requires components.Length0 == maxComponents && components.Length1 == MAX_COMPONENT + 1
    modifies components
    ensures ok <==> path[0] == 47
    ensures ok ==> Holds(components, Components(CStr(path), maxComponents), []) && count == |Components(CStr(path), maxComponents)|
    ensures !ok ==> count == 0
  {
    hide CutAll, Cut, SegmentsFrom, Holds, CStr, Take, Components;
    count := 0;
    if path[0] != SLASH { return false, count; }
    ghost var s := CStr(path);
    ghost var all := CutAll(Segments(s[1..]));
    ghost var done: seq<seq<byte>>, full: seq<byte> := [], [];
    var i, compIdx := 1, 0;
    HoldsNothing(components);
    while path[i] != NUL && count < maxComponents
      invariant 1 <= i <= |s| && count == |done| <= maxComponents && compIdx == |Cut(full)| && NUL !in full
      invariant Holds(components, done, Cut(full))
      invariant all == done + CutAll(SegmentsFrom(s[i..], full))
      invariant count == maxComponents ==> full == []
      decreases |s| - i
    {
      StillInside(path, i);
      SegmentsStep(s[i..], full);
      NothingLeft(full);
      assert s[i..][1..] == s[i + 1..];
      if path[i] == SLASH {
        if compIdx > 0 {
          CloseComponent(components, count, compIdx, done, Cut(full));
          done, full := done + [Cut(full)], [];
          count := count + 1;
          compIdx := 0;
        }
        i := i + 1;
      } else {
        if compIdx < MAX_COMPONENT {
          PutByte(components, count, compIdx, path[i], done, Cut(full));
          compIdx := compIdx + 1;
        }
        full := full + [path[i]];
        i := i + 1;
      }
    }
    Ends(path, i);
    NothingLeft(full);
    if compIdx > 0 && count < maxComponents {
      CloseComponent(components, count, compIdx, done, Cut(full));
      done, full := done + [Cut(full)], [];
      count := count + 1;
    }
    assert path[i] == NUL ==> s[i..] == [] && done == all;
    SplitDone(s, maxComponents, done);
    ok := true;
  }

  /** Either all segments were taken or as many as there is room for. */
  lemma SplitDone(s: seq<byte>, n: nat, done: seq<seq<byte>>)
    requires s != []
    requires var all := CutAll(Segments(s[1..])); (|done| <= n && done == all) || (|done| == n && done <= all)
    ensures Components(s, n) == done
  {
  }

  // ----- merging

  function Merged(p: seq<byte>, f: seq<byte>): (r: seq<byte>)
    requires p != []
    ensures p <= r
  {
    p + (if p[|p| - 1] == SLASH then [] else [SLASH]) + f
  }

  method MergePath(first: seq<byte>, second: seq<byte>, dest: array<byte>)
    requires Terminated(first) && Terminated(second) && CStr(first) != []
    requires |Merged(CStr(first), CStr(second))| < dest.Length
    modifies dest
    ensures Terminated(dest[..]) && CStr(dest[..]) == Merged(CStr(first), CStr(second))
    ensures var p, f := CStr(first), CStr(second);
            CStr(dest[..]) == if p[|p| - 1] == 47 then p + f else p + [47] + f
  {
    hide CStr;
    ghost var p, f := CStr(first), CStr(second);
    ghost var all := Merged(p, f);
    var len, i := 0, 0;
    while first[i] != NUL
      invariant len == i <= |p|
      invariant forall k :: 0 <= k < len ==> dest[k] == all[k]
      decreases |first| - i
    {
      StillInside(first, i);
      dest[len] := first[i];
      len, i := len + 1, i + 1;
    }
    Ends(first, i);
    if dest[len - 1] != SLASH {
      dest[len] := SLASH;
      len := len + 1;
    }
    var s := 0;
    while second[s] != NUL
      invariant s <= |f| && len + |f| == |all| + s
      invariant forall k :: 0 <= k < len ==> dest[k] == all[k]
      decreases |second| - s
    {
      StillInside(second, s);
      dest[len] := second[s];
      len, s := len + 1, s + 1;
    }
    Ends(second, s);
    dest[len] := NUL;
    assert dest[..][..len] == all && NUL !in all;
    CStrIs(dest[..], len);
  }

  // ----- what splitting means

  predicate IsName(f: seq<byte>) { f != [] && SLASH !in f }

  lemma {:induction false} SegmentsJoin(a: seq<byte>, b: seq<byte>, cur: seq<byte>)
    ensures SegmentsFrom(a + [SLASH] + b, cur) == SegmentsFrom(a, cur) + SegmentsFrom(b, [])
    decreases |a|
  {
    var s := a + [SLASH] + b;
    if a == [] {
      assert s[1..] == b;
    } else {
      assert s[1..] == a[1..] + [SLASH] + b;
      SegmentsJoin(a[1..], b, if a[0] == SLASH then [] else cur + [a[0]]);
    }
  }

  lemma {:induction false} OneSegment(f: seq<byte>, cur: seq<byte>)
    requires SLASH !in f && cur + f != []
    ensures SegmentsFrom(f, cur) == [cur + f]
    decreases |f|
  {
    if f == [] {
      assert cur + f == cur;
    } else {
      assert cur + [f[0]] + f[1..] == cur + f;
      OneSegment(f[1..], cur + [f[0]]);
    }
  }

  lemma LastApart(p: seq<byte>)
    requires |p| >= 2
    ensures p[1..] == p[1..|p| - 1] + [p[|p| - 1]]
  {
  }

  /** Merging a name onto a path adds exactly that name as the last segment. */
  lemma SegmentsOfMerged(p: seq<byte>, f: seq<byte>)
    requires p != [] && p[0] == SLASH && IsName(f)
    ensures Segments(Merged(p, f)[1..]) == Segments(p[1..]) + [f]
  {
    var n := |p| - 1;
    OneSegment(f, []);
    assert [] + f == f;
    if p[n] != SLASH {
      assert Merged(p, f)[1..] == p[1..] + [SLASH] + f;
      SegmentsJoin(p[1..], f, []);
    } else if n == 0 {
      assert Merged(p, f)[1..] == f;
    } else {
      LastApart(p);
      assert p[1..n] + [SLASH] + [] == p[1..n] + [SLASH];
      assert Merged(p, f)[1..] == p[1..] + f;
      SegmentsJoin(p[1..n], f, []);
      SegmentsJoin(p[1..n], [], []);
    }
  }

  /** Splitting a merged path yields the components of the path and then the name, as long as the
      name fits a component and the component limit is not reached. */
  lemma SplitMerged(p: seq<byte>, f: seq<byte>, n: nat)
    requires p != [] && p[0] == SLASH && IsName(f) && |f| <= MAX_COMPONENT
    requires |Segments(p[1..])| < n
    ensures Components(Merged(p, f), n) == Components(p, n) + [f]
  {
    SegmentsOfMerged(p, f);
    assert CutAll(Segments(p[1..]) + [f]) == CutAll(Segments(p[1..])) + [f];
  }

  /** The absolute path that names a list of segments. */
  function PathOf(segs: seq<seq<byte>>): (p: seq<byte>)
    ensures p != [] && p[0] == SLASH
  {
    if segs == [] then [SLASH] else Merged(PathOf(segs[..|segs| - 1]), segs[|segs| - 1])
  }

  /** Splitting undoes joining, for every list of names. */
  lemma {:induction false} SplitPathOf(segs: seq<seq<byte>>)
    requires forall i :: 0 <= i < |segs| ==> IsName(segs[i])
    ensures Segments(PathOf(segs)[1..]) == segs
    decreases |segs|
  {
    if segs != [] {
      var n := |segs| - 1;
      SplitPathOf(segs[..n]);
      SegmentsOfMerged(PathOf(segs[..n]), segs[n]);
      assert segs == segs[..n] + [segs[n]];
    }
  }

  /** Splitting a joined path gives its first `n` names, each cut to 255 bytes. */
  lemma SplitPathAt(segs: seq<seq<byte>>, n: nat, i: nat)
    requires forall j :: 0 <= j < |segs| ==> IsName(segs[j])
    ensures |Components(PathOf(segs), n)| == if |segs| <= n then |segs| else n
    ensures i < |segs| && i < n ==>
              Components(PathOf(segs), n)[i] == if |segs[i]| <= 255 then segs[i] else segs[i][..255]
  {
    SplitPathOf(segs);
  }

  /** Up to a slash, what was read is a segment unless it is empty; so slashes in a row or at an end separate nothing. */
  lemma SegmentsSplit(f: seq<byte>, b: seq<byte>)
    requires 47 !in f
    ensures Segments(f + [47] + b) == (if f == [] then [] else [f]) + Segments(b)
    ensures Segments(f) == if f == [] then [] else [f]
  {
    SegmentsJoin(f, b, []);
    if f != [] {
      OneSegment(f, []);
      assert [] + f == f;
    }
  }

  /** Every segment splitting produces is a name. */
  lemma {:induction false} SegmentsAreNames(s: seq<byte>, cur: seq<byte>)
    requires SLASH !in cur
    ensures forall i :: 0 <= i < |SegmentsFrom(s, cur)| ==> IsName(SegmentsFrom(s, cur)[i])
    decreases |s|
  {
    if s != [] {
      SegmentsAreNames(s[1..], if s[0] == SLASH then [] else cur + [s[0]]);
    }
  }
}
