/** The handful of Python `str` operations the core relies on, over `seq<char>`.
    Each is defined the way CPython computes it and specified by what it means,
    so that the modules above can reason about markers and separators. */
module Strings {
  import opened Wrappers

  /** Python's `str.isspace()` for one character: the ASCII controls
      `\t \n \v \f \r` (9-13), the information separators 0x1C-0x1F and the
      space (28-32), and the Unicode spaces above 0x80. */
  predicate IsSpace(c: char) {
    var n := c as int;
    (n <= 32 && (9 <= n <= 13 || 28 <= n)) || (0x85 <= n && IsWideSpace(n))
  }

  /** The code points above 0x80 that `str.isspace()` accepts. */
  predicate IsWideSpace(n: int) {
    n == 0x85 || n == 0xA0 || n == 0x1680 || 0x2000 <= n <= 0x200A
    || n == 0x2028 || n == 0x2029 || n == 0x202F || n == 0x205F || n == 0x3000
  }

  predicate AllSpace(s: string) {
    forall i :: 0 <= i < |s| ==> IsSpace(s[i])
  }

  /** True when `s.strip()` is empty, i.e. Python treats the text as blank. */
  predicate IsBlank(s: string) {
    AllSpace(s)
  }

  /** Neither end of `s` is whitespace: `s == s.strip()`. */
  predicate IsStripped(s: string) {
    s == [] || (!IsSpace(s[0]) && !IsSpace(s[|s| - 1]))
  }

  /** The first position at or after `k` that does not hold whitespace, or
      `|s|`. */
  function SkipSpace(s: string, k: nat): (a: nat)
    requires k <= |s|
    ensures k <= a <= |s|
    ensures a < |s| ==> !IsSpace(s[a])
    ensures forall i :: k <= i < a ==> IsSpace(s[i])
    decreases |s| - k
  {
    if k < |s| && IsSpace(s[k]) then SkipSpace(s, k + 1) else k
  }

  /** Where `s[lo..hi]` ends once its trailing whitespace is dropped. */
  function BackSpace(s: string, lo: nat, hi: nat): (z: nat)
    requires lo <= hi <= |s|
    ensures lo <= z <= hi
    ensures lo < z ==> !IsSpace(s[z - 1])
    ensures forall i :: z <= i < hi ==> IsSpace(s[i])
    decreases hi - lo
  {
    if lo < hi && IsSpace(s[hi - 1]) then BackSpace(s, lo, hi - 1) else hi
  }

  /** `s.strip()`: the infix of `s` between its leading and trailing whitespace. */
  function Strip(s: string): (r: string)
    ensures IsStripped(r)
    ensures exists i :: 0 <= i && i + |r| <= |s| && r == s[i..i + |r|]
                        && AllSpace(s[..i]) && AllSpace(s[i + |r|..])
    ensures r == [] <==> AllSpace(s)
  {
    var a := SkipSpace(s, 0);
    var z := BackSpace(s, a, |s|);
    StripCore(s, a, z);
    s[a..z]
  }

  /** The facts `Strip` promises, about the positions it cuts at. */
  lemma StripCore(s: string, a: nat, z: nat)
    requires a == SkipSpace(s, 0) && z == BackSpace(s, a, |s|)
    ensures a <= z <= |s|
    ensures IsStripped(s[a..z])
    ensures AllSpace(s[..a]) && AllSpace(s[z..])
    ensures s[a..z] == [] <==> AllSpace(s)
  {
    var r := s[a..z];
    if a < |s| {
      assert a < z;
      assert r[0] == s[a] && r[|r| - 1] == s[z - 1];
      assert !AllSpace(s) by {
        assert !IsSpace(s[a]);
      }
    }
    var u, v := s[..a], s[z..];
    forall i | 0 <= i < |u|
      ensures IsSpace(u[i])
    {
      assert u[i] == s[i];
    }
    forall i | 0 <= i < |v|
      ensures IsSpace(v[i])
    {
      assert v[i] == s[z + i];
    }
  }

  /** The first non-space position is the one after the leading run. */
  lemma SkipSpaceIs(s: string, n: nat)
    requires n <= |s| && (forall i :: 0 <= i < n ==> IsSpace(s[i])) && (n < |s| ==> !IsSpace(s[n]))
    ensures SkipSpace(s, 0) == n
  {
  }

  /** Likewise for the end of the trailing run. */
  lemma BackSpaceIs(s: string, lo: nat, n: nat)
    requires lo <= n <= |s| && (forall i :: n <= i < |s| ==> IsSpace(s[i])) && (lo < n ==> !IsSpace(s[n - 1]))
    ensures BackSpace(s, lo, |s|) == n
  {
  }

  /** Text made of whitespace, a stripped non-empty core, and whitespace
      strips to that core. */
  lemma StripIs(s: string, p: string, r: string, q: string)
    requires s == p + r + q && AllSpace(p) && AllSpace(q) && r != [] && IsStripped(r)
    ensures Strip(s) == r
  {
    var m := |p| + |r|;
    forall i | 0 <= i < |p|
      ensures IsSpace(s[i])
    {
      assert s[i] == p[i];
    }
    assert s[|p|] == r[0];
    SkipSpaceIs(s, |p|);
    forall i | m <= i < |s|
      ensures IsSpace(s[i])
    {
      assert s[i] == q[i - m];
    }
    assert s[m - 1] == r[|r| - 1];
    BackSpaceIs(s, |p|, m);
    assert s[|p|..m] == r;
  }

  lemma AllSpaceConcat(a: string, b: string)
    requires AllSpace(a) && AllSpace(b)
    ensures AllSpace(a + b)
  {
    forall i | 0 <= i < |a + b|
      ensures IsSpace((a + b)[i])
    {
      if i >= |a| {
        assert (a + b)[i] == b[i - |a|];
      }
    }
  }

  /** Text is its leading whitespace, its strip and its trailing whitespace. */
  lemma StripParts(s: string) returns (pre: string, post: string)
    ensures s == pre + Strip(s) + post && AllSpace(pre) && AllSpace(post)
  {
    var a := SkipSpace(s, 0);
    var z := BackSpace(s, a, |s|);
    StripCore(s, a, z);
    StripIsSlice(s, a, z);
    ThreeParts(s, a, z);
    pre, post := s[..a], s[z..];
  }

  lemma StripIsSlice(s: string, a: nat, z: nat)
    requires a == SkipSpace(s, 0) && z == BackSpace(s, a, |s|)
    ensures a <= z <= |s| && Strip(s) == s[a..z]
  {
  }

  lemma ThreeParts<T>(s: seq<T>, a: nat, z: nat)
    requires a <= z <= |s|
    ensures s == s[..a] + s[a..z] + s[z..]
  {
    assert s[..z] == s[..a] + s[a..z];
  }

  lemma ConsOfConcat<T>(xs: seq<T>, ys: seq<T>)
    requires xs != []
    ensures (xs + ys)[0] == xs[0] && (xs + ys)[1..] == xs[1..] + ys
  {
  }

  lemma ConcatAssoc<T>(a: seq<T>, b: seq<T>, c: seq<T>)
    ensures a + (b + c) == (a + b) + c
  {
  }

  lemma Regroup(p: string, a: string, b: string, c: string, q: string)
    ensures p + (a + b + c) + q == (p + a) + b + (c + q)
  {
  }

  /** Whitespace around text does not change its strip. */
  lemma StripAround(p: string, s: string, q: string)
    requires AllSpace(p) && AllSpace(q)
    ensures Strip(p + s + q) == Strip(s)
  {
    var r := Strip(s);
    if r == [] {
      AllSpaceConcat(p, s);
      AllSpaceConcat(p + s, q);
    } else {
      var pre, post := StripParts(s);
      Regroup(p, pre, r, post, q);
      AllSpaceConcat(p, pre);
      AllSpaceConcat(post, q);
      StripIs(p + s + q, p + pre, r, post + q);
    }
  }

  /** Whitespace on one side only. */
  lemma StripAfter(p: string, s: string)
    requires AllSpace(p)
    ensures Strip(p + s) == Strip(s)
  {
    assert p + s + [] == p + s;
    StripAround(p, s, []);
  }

  lemma StripBefore(s: string, q: string)
    requires AllSpace(q)
    ensures Strip(s + q) == Strip(s)
  {
    assert [] + s + q == s + q;
    StripAround([], s, q);
  }

  /** Slicing a suffix is slicing the whole text further along. */
  lemma SliceOfSuffix(s: string, i: nat, n: nat)
    requires i + n <= |s|
    ensures s[i..][..n] == s[i..i + n] && s[i..][n..] == s[i + n..]
  {
  }

  /** `pat` occurs in `s` starting at index `i`. */
  predicate OccursAt(s: string, pat: string, i: int) {
    0 <= i && i + |pat| <= |s| && s[i..i + |pat|] == pat
  }

  /** `s.find(pat, start)`: the first index at or after `start` where `pat`
      occurs, or -1. */
  function FindFrom(s: string, pat: string, start: nat): (r: int)
    requires start <= |s|
    decreases |s| - start
    ensures r == -1 || (start <= r <= |s| && OccursAt(s, pat, r))
    ensures forall k :: start <= k && (r == -1 || k < r) ==> !OccursAt(s, pat, k)
  {
    if OccursAt(s, pat, start) then start
    else if start == |s| then -1
    else FindFrom(s, pat, start + 1)
  }

  /** `s.find(pat)`. */
  function Find(s: string, pat: string): (r: int)
    ensures r == -1 || (0 <= r <= |s| && OccursAt(s, pat, r))
    ensures forall k :: r == -1 || k < r ==> !OccursAt(s, pat, k)
  {
    FindFrom(s, pat, 0)
  }

  /** `pat in s`. */
  predicate Contains(s: string, pat: string) {
    Find(s, pat) >= 0
  }

  /** `s.rfind(pat)` restricted to starting indices below `n`. */
  function RFindBelow(s: string, pat: string, n: nat): (r: int)
    ensures r == -1 || (0 <= r < n && OccursAt(s, pat, r))
    ensures forall k :: r < k < n ==> !OccursAt(s, pat, k)
  {
    if n == 0 then -1
    else if OccursAt(s, pat, n - 1) then n - 1
    else RFindBelow(s, pat, n - 1)
  }

  /** `s.rfind(pat)`: the last index where `pat` occurs, or -1. */
  function RFind(s: string, pat: string): (r: int)
    ensures r == -1 || OccursAt(s, pat, r)
    ensures forall k :: r < k ==> !OccursAt(s, pat, k)
  {
    RFindBelow(s, pat, |s| + 1)
  }

  /** `s.split(sep, 1)` when it has two parts: the text before the first
      `sep` and the text after it; `None` when `sep` does not occur. */
  function SplitOnce(s: string, sep: string): (r: Option<(string, string)>)
    requires |sep| > 0
    ensures r.Some? <==> Contains(s, sep)
    ensures r.Some? ==> s == r.value.0 + sep + r.value.1 && !Contains(r.value.0, sep)
  {
    var i := Find(s, sep);
    if i < 0 then None
    else
      assert s == s[..i] + sep + s[i + |sep|..];
      PrefixBeforeFirst(s, sep, i);
      Some((s[..i], s[i + |sep|..]))
  }

  /** `s.rsplit(sep, 1)[0]`: everything before the last `sep`, or all of `s`. */
  function BeforeLast(s: string, sep: string): (r: string)
    ensures !Contains(s, sep) ==> r == s
    ensures Contains(s, sep) ==> OccursAt(s, sep, |r|) && r == s[..|r|]
                                 && forall k :: |r| < k ==> !OccursAt(s, sep, k)
  {
    var i := RFind(s, sep);
    if i < 0 then
      assert Find(s, sep) >= 0 ==> OccursAt(s, sep, Find(s, sep));
      s
    else s[..i]
  }

  /** An occurrence inside a prefix is an occurrence in the whole string. */
  lemma OccursInPrefix(s: string, pat: string, n: nat, k: int)
    requires n <= |s|
    requires OccursAt(s[..n], pat, k)
    ensures OccursAt(s, pat, k)
  {
    assert s[..n][k..k + |pat|] == s[k..k + |pat|];
  }

  /** No occurrence in a prefix that ends where the first occurrence starts. */
  lemma PrefixBeforeFirst(s: string, sep: string, i: int)
    requires |sep| > 0
    requires i == Find(s, sep) && i >= 0
    ensures !Contains(s[..i], sep)
  {
    var j := Find(s[..i], sep);
    if j >= 0 {
      OccursInPrefix(s, sep, i, j);
    }
  }

  /** `sep.join(xs)`. */
  function Join(xs: seq<string>, sep: string): string
  {
    if |xs| == 0 then ""
    else if |xs| == 1 then xs[0]
    else xs[0] + sep + Join(xs[1..], sep)
  }

  /** `s.split(sep)` for a non-empty separator. */
  function Split(s: string, sep: string): (r: seq<string>)
    requires |sep| > 0
    decreases |s|
    ensures |r| >= 1
    ensures Join(r, sep) == s
    ensures forall k :: 0 <= k < |r| ==> !Contains(r[k], sep)
    ensures |r| == 1 <==> !Contains(s, sep)
  {
    match SplitOnce(s, sep)
    case None => [s]
    case Some((before, after)) => [before] + Split(after, sep)
  }

  /** Text without the separator splits into itself alone. */
  lemma SplitAlone(s: string, sep: string)
    requires |sep| > 0 && !Contains(s, sep)
    ensures Split(s, sep) == [s]
  {
    var r := Split(s, sep);
    assert Join(r, sep) == r[0];
  }

  /** `s.replace(target, replacement)` for a non-empty `target`: every non-overlapping
      occurrence, scanning left to right, is replaced. */
  function Replace(s: string, target: string, replacement: string): (r: string)
    requires |target| > 0
    ensures !Contains(s, target) ==> r == s
  {
    Join(Split(s, target), replacement)
  }

  /** `s.upper()` restricted to ASCII letters. */
  function UpperChar(c: char): char {
    if 'a' <= c <= 'z' then (c as int - 32) as char else c
  }

  function Upper(s: string): (r: string)
    ensures |r| == |s|
    ensures forall i :: 0 <= i < |s| ==> r[i] == UpperChar(s[i])
  {
    if s == [] then [] else [UpperChar(s[0])] + Upper(s[1..])
  }

  /** `s.lower()` restricted to ASCII letters. */
  function LowerChar(c: char): char {
    if 'A' <= c <= 'Z' then (c as int + 32) as char else c
  }

  function Lower(s: string): (r: string)
    ensures |r| == |s|
    ensures forall i :: 0 <= i < |s| ==> r[i] == LowerChar(s[i])
  {
    seq(|s|, i requires 0 <= i < |s| => LowerChar(s[i]))
  }

  /** Python slicing `s[a:b]` for non-negative bounds: both are clamped to the
      length, and a range with `b <= a` is empty. */
  function Slice(s: string, a: nat, b: nat): (r: string)
    ensures |r| <= |s|
  {
    var lo := if a < |s| then a else |s|;
    var hi := if b < lo then lo else if b < |s| then b else |s|;
    s[lo..hi]
  }

  /** Python slicing `s[a:]` for a non-negative `a`. */
  function Drop(s: string, a: nat): string {
    if a < |s| then s[a..] else ""
  }

  // Facts about occurrences, used to locate markers inside concatenations.

  /** A mismatching character rules out an occurrence. */
  lemma NotOccursAt(s: string, pat: string, k: int, j: int)
    requires 0 <= j < |pat| && 0 <= k && k + j < |s| && s[k + j] != pat[j]
    ensures !OccursAt(s, pat, k)
  {
  }

  /** A pattern with a character that never appears in `s` does not occur in it. */
  lemma AbsentChar(s: string, pat: string, j: int)
    requires 0 <= j < |pat| && pat[j] !in s
    ensures forall k :: !OccursAt(s, pat, k)
    ensures Find(s, pat) == -1 && !Contains(s, pat)
  {
  }

  /** `a` starts `a + b`. */
  lemma OccursAtFront(a: string, b: string)
    ensures OccursAt(a + b, a, 0)
  {
    assert (a + b)[..|a|] == a;
  }

  /** An occurrence in `a` is one in `a + b`. */
  lemma OccursExtends(a: string, b: string, pat: string, j: int)
    requires OccursAt(a, pat, j)
    ensures OccursAt(a + b, pat, j)
  {
    assert (a + b)[j..j + |pat|] == a[j..j + |pat|];
  }

  /** Occurrences in `b` are the occurrences in `a + b` shifted by `|a|`. */
  lemma OccursAtShift(a: string, b: string, pat: string, j: int)
    requires 0 <= j
    ensures OccursAt(a + b, pat, |a| + j) <==> OccursAt(b, pat, j)
  {
    if j + |pat| <= |b| {
      assert (a + b)[|a| + j..|a| + j + |pat|] == b[j..j + |pat|];
    }
  }

  /** When no occurrence starts inside `a`, searching `a + b` is searching `b`. */
  lemma FindPastPrefix(a: string, b: string, pat: string)
    requires forall k :: 0 <= k < |a| ==> !OccursAt(a + b, pat, k)
    ensures Find(a + b, pat) == if Find(b, pat) < 0 then -1 else |a| + Find(b, pat)
  {
    var r := Find(a + b, pat);
    var q := Find(b, pat);
    if q >= 0 {
      OccursAtShift(a, b, pat, q);
      if r >= 0 && r < |a| + q {
        OccursAtShift(a, b, pat, r - |a|);
      }
    } else if r >= 0 {
      OccursAtShift(a, b, pat, r - |a|);
    }
  }

  /** Text free of the pattern's first character can be skipped when searching. */
  lemma FindPastFreePrefix(a: string, b: string, pat: string)
    requires |pat| > 0 && pat[0] !in a
    ensures Find(a + b, pat) == if Find(b, pat) < 0 then -1 else |a| + Find(b, pat)
  {
    forall k | 0 <= k < |a|
      ensures !OccursAt(a + b, pat, k)
    {
      NotOccursAt(a + b, pat, k, 0);
    }
    FindPastPrefix(a, b, pat);
  }

  /** A pattern that is `<<<` followed by no further `<` is first found right
      after text that does not contain it: no occurrence can straddle the
      text's end, because the pattern's own `<<<` would have to overlap it. */
  lemma MarkerAfterText(c: string, pat: string, t: string)
    requires |pat| > 3 && pat[..3] == "<<<" && '<' !in pat[3..]
    requires !Contains(c, pat)
    ensures Find(c + (pat + t), pat) == |c|
  {
    var s := c + (pat + t);
    assert pat[0] == pat[..3][0] && pat[1] == pat[..3][1] && pat[2] == pat[..3][2];
    forall i | 0 <= i < |c|
      ensures !OccursAt(s, pat, i)
    {
      if i + |pat| <= |c| {
        assert !OccursAt(c, pat, i);
        assert s[i..i + |pat|] == c[i..i + |pat|];
      } else if |c| - i >= 3 {
        var d := |c| - i;
        assert pat[d] == pat[3..][d - 3];
        NotOccursAt(s, pat, i, d);
      } else {
        assert s[i + 3] == pat[i + 3 - |c|];
        assert pat[3] == pat[3..][0];
        NotOccursAt(s, pat, i, 3);
      }
    }
    FindPastPrefix(c, pat + t, pat);
    OccursAtFront(pat, t);
  }

  /** A pattern that is `<<<` followed by no further `<` does not begin in
      text free of it when the text after opens with `<<<`: an occurrence
      running on past the text's end would need a `<` where the pattern has
      none. */
  lemma NoMarkerAcross(c: string, pat: string, t: string)
    requires |pat| > 3 && pat[..3] == "<<<" && '<' !in pat[3..]
    requires !Contains(c, pat)
    requires |t| >= 3 && t[..3] == "<<<"
    ensures forall i :: 0 <= i < |c| ==> !OccursAt(c + t, pat, i)
  {
    var s := c + t;
    assert t[0] == t[..3][0] && t[1] == t[..3][1] && t[2] == t[..3][2];
    forall i | 0 <= i < |c|
      ensures !OccursAt(s, pat, i)
    {
      if i + |pat| <= |c| {
        assert !OccursAt(c, pat, i);
        assert s[i..i + |pat|] == c[i..i + |pat|];
      } else if |c| - i >= 3 {
        var d := |c| - i;
        assert pat[d] == pat[3..][d - 3];
        NotOccursAt(s, pat, i, d);
      } else {
        assert s[i + 3] == t[i + 3 - |c|];
        assert pat[3] == pat[3..][0];
        NotOccursAt(s, pat, i, 3);
      }
    }
  }

  /** Text free of the separator's first character stays at the front of
      the first piece of a split. */
  lemma FirstPieceAfterFree(a: string, b: string, sep: string)
    requires |sep| > 0 && sep[0] !in a
    ensures Split(a + b, sep)[0] == a + Split(b, sep)[0]
  {
    FindPastFreePrefix(a, b, sep);
    var q := Find(b, sep);
    if q >= 0 {
      assert (a + b)[..|a| + q] == a + b[..q];
    }
  }

  /** Slicing commutes with prepending text. */
  lemma SliceShift(a: string, b: string, lo: nat, hi: nat)
    ensures Slice(a + b, |a| + lo, |a| + hi) == Slice(b, lo, hi)
    ensures Drop(a + b, |a| + lo) == Drop(b, lo)
  {
    var l := if lo < |b| then lo else |b|;
    var h := if hi < l then l else if hi < |b| then hi else |b|;
    assert (a + b)[|a| + l..|a| + h] == b[l..h];
    if lo < |b| {
      assert (a + b)[|a| + lo..] == b[lo..];
    }
  }

  /** Stripping is idempotent: stripped text is its own strip. */
  lemma StripStripped(s: string)
    requires IsStripped(s)
    ensures Strip(s) == s
  {
  }

  /** Splitting at a separator whose first character the leading text lacks. */
  lemma SplitAtFree(a: string, sep: string, b: string)
    requires |sep| > 0 && sep[0] !in a
    ensures SplitOnce(a + sep + b, sep) == Some((a, b))
    ensures Split(a + sep + b, sep) == [a] + Split(b, sep)
  {
    var s := a + sep + b;
    assert s == a + (sep + b);
    OccursAtFront(sep, b);
    FindPastFreePrefix(a, sep + b, sep);
    assert s[..|a|] == a;
    assert s[|a| + |sep|..] == b;
  }

  /** The second piece of a split that starts with the separator. */
  lemma SplitSecondPiece(a: string, sep: string, b: string)
    requires |sep| > 0 && sep[0] !in a
    ensures Split(sep + a + sep + b, sep)[1] == a
  {
    assert sep + a + sep + b == "" + sep + (a + sep + b);
    SplitAtFree("", sep, a + sep + b);
    SplitAtFree(a, sep, b);
  }

  /** `rsplit(sep, 1)[0]` of `a + b` is `a` when `b` holds `sep` only at its front. */
  lemma BeforeLastOf(a: string, b: string, sep: string)
    requires OccursAt(b, sep, 0)
    requires forall k :: 0 < k ==> !OccursAt(b, sep, k)
    ensures BeforeLast(a + b, sep) == a
  {
    var s := a + b;
    OccursAtShift(a, b, sep, 0);
    var r := BeforeLast(s, sep);
    if |r| > |a| {
      OccursAtShift(a, b, sep, |r| - |a|);
    }
    assert s[..|a|] == a;
  }

  /** Splitting joined pieces that hold no separator character gives the pieces back. */
  lemma {:induction false} SplitJoin(xs: seq<string>, c: char)
    requires |xs| >= 1 && forall i :: 0 <= i < |xs| ==> c !in xs[i]
    ensures Split(Join(xs, [c]), [c]) == xs
    decreases |xs|
  {
    if |xs| == 1 {
      AbsentChar(xs[0], [c], 0);
      SplitAlone(xs[0], [c]);
    } else {
      SplitAtFree(xs[0], [c], Join(xs[1..], [c]));
      SplitJoin(xs[1..], c);
    }
  }

  /** The index of the first `c` in `s`, or -1. */
  function IndexOfChar(s: string, c: char): (r: int)
    ensures r == -1 ==> c !in s
    ensures r >= 0 ==> r < |s| && s[r] == c && c !in s[..r]
  {
    var r := IndexFrom(s, c, 0);
    if r < 0 then -1
    else
      assert forall i :: 0 <= i < r ==> s[..r][i] != c;
      r
  }

  /** The index of the first `c` at or after position `k`, or -1. */
  function IndexFrom(s: string, c: char, k: nat): (r: int)
    requires k <= |s|
    ensures r == -1 || (k <= r < |s| && s[r] == c)
    ensures forall j :: k <= j < |s| && (r == -1 || j < r) ==> s[j] != c
    decreases |s| - k
  {
    if k == |s| then -1
    else if s[k] == c then k
    else IndexFrom(s, c, k + 1)
  }

  /** The pieces glued together without separator. */
  function Concat(xs: seq<string>): string
    decreases |xs|
  {
    if xs == [] then "" else xs[0] + Concat(xs[1..])
  }

  /** Joining non-empty pieces starts with the first piece's first character
      and ends with the last piece's last character. */
  lemma {:induction false} JoinEnds(xs: seq<string>, sep: string)
    requires forall i :: 0 <= i < |xs| ==> xs[i] != []
    ensures |xs| >= 1 ==> |Join(xs, sep)| > 0 && Join(xs, sep)[0] == xs[0][0]
                          && Join(xs, sep)[|Join(xs, sep)| - 1] == xs[|xs| - 1][|xs[|xs| - 1]| - 1]
    decreases |xs|
  {
    if |xs| > 1 {
      JoinEnds(xs[1..], sep);
    }
  }
}
