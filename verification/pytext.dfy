/**
 The handful of Python `str` and slicing operations the pipeline uses, written out
 over `seq<char>`: `strip`, `find`/`rfind`, `startswith`/`endswith`, `in`,
 `split`/`join` on one separator character, `replace`, slicing with negative
 indices, and the ordering of `sorted()` on strings.
 */
module PyText {

  import opened Base

  /** `c.isspace()` for Python 3 strings (Unicode whitespace). */
  predicate IsSpace(c: char) {
    c == ' ' || ('\t' <= c <= '\r') || ('\U{1C}' <= c <= '\U{1F}')
    || c == '\U{85}' || c == '\U{A0}' || c == '\U{1680}'
    || ('\U{2000}' <= c <= '\U{200A}') || c == '\U{2028}' || c == '\U{2029}'
    || c == '\U{202F}' || c == '\U{205F}' || c == '\U{3000}'
  }

  /** `s.lstrip()` */
  function StripLeft(s: string): string {
    if |s| > 0 && IsSpace(s[0]) then StripLeft(s[1..]) else s
  }

  /** `s.rstrip()` */
  function StripRight(s: string): string {
    if |s| > 0 && IsSpace(s[|s| - 1]) then StripRight(s[..|s| - 1]) else s
  }

  /** `lstrip` keeps a suffix that does not open with whitespace, and all it cuts is
      whitespace. */
  lemma {:induction false} StripLeftCuts(s: string)
    ensures var r := StripLeft(s);
            && |r| <= |s| && r == s[|s| - |r|..]
            && (|r| > 0 ==> !IsSpace(r[0]))
            && (forall k :: 0 <= k < |s| - |r| ==> IsSpace(s[k]))
  {
    if |s| > 0 && IsSpace(s[0]) {
      var t := s[1..];
      StripLeftCuts(t);
      var r := StripLeft(t);
      assert t[|t| - |r|..] == s[|s| - |r|..];
      forall k | 0 <= k < |s| - |r|
        ensures IsSpace(s[k])
      {
        if k > 0 {
          assert s[k] == t[k - 1];
        }
      }
    }
  }

  /** `rstrip` keeps a prefix that does not close with whitespace, and all it cuts is
      whitespace. */
  lemma {:induction false} StripRightCuts(s: string)
    ensures var r := StripRight(s);
            && |r| <= |s| && r == s[..|r|]
            && (|r| > 0 ==> !IsSpace(r[|r| - 1]))
            && (forall k :: |r| <= k < |s| ==> IsSpace(s[k]))
  {
    if |s| > 0 && IsSpace(s[|s| - 1]) {
      var t := s[..|s| - 1];
      StripRightCuts(t);
      var r := StripRight(t);
      assert t[..|r|] == s[..|r|];
      forall k | |r| <= k < |s|
        ensures IsSpace(s[k])
      {
        if k < |t| {
          assert s[k] == t[k];
        }
      }
    }
  }

  /** `r` is the window of `s` starting at `i`, and everything outside it is whitespace. */
  predicate Window(s: string, r: string, i: nat) {
    && i + |r| <= |s| && s[i..i + |r|] == r
    && (forall k :: 0 <= k < i ==> IsSpace(s[k]))
    && (forall k :: i + |r| <= k < |s| ==> IsSpace(s[k]))
  }

  /** `s.strip()` */
  function Strip(s: string): string {
    StripRight(StripLeft(s))
  }

  /** The stripped string is a window of `s` with no whitespace at either end, and
      everything cut away is whitespace. */
  lemma StripTrims(s: string)
    ensures var r := Strip(s);
            && (|r| > 0 ==> !IsSpace(r[0]) && !IsSpace(r[|r| - 1]))
            && exists i: nat :: Window(s, r, i)
  {
    var l := StripLeft(s);
    var r := StripRight(l);
    StripLeftCuts(s);
    StripRightCuts(l);
    StripsWindow(s, l, r);
  }

  /** Cutting whitespace off the front and then off the back leaves a window. */
  lemma StripsWindow(s: string, l: string, r: string)
    requires |l| <= |s| && l == s[|s| - |l|..]
    requires forall k :: 0 <= k < |s| - |l| ==> IsSpace(s[k])
    requires |r| <= |l| && r == l[..|r|]
    requires forall k :: |r| <= k < |l| ==> IsSpace(l[k])
    ensures Window(s, r, |s| - |l|)
  {
    var i := |s| - |l|;
    assert s[i..i + |r|] == r;
    forall k | i + |r| <= k < |s|
      ensures IsSpace(s[k])
    {
      assert s[k] == l[k - i];
    }
  }

  /** A string already free of outer whitespace is its own strip. */
  lemma StripUnchanged(s: string)
    requires |s| == 0 || (!IsSpace(s[0]) && !IsSpace(s[|s| - 1]))
    ensures Strip(s) == s
  {
  }

  predicate StartsWith(s: string, p: string) {
    |p| <= |s| && s[..|p|] == p
  }

  predicate EndsWith(s: string, p: string) {
    |p| <= |s| && s[|s| - |p|..] == p
  }

  /** `p` occurs in `s` at position `i`. */
  predicate OccursAt<T(==)>(s: seq<T>, p: seq<T>, i: int) {
    0 <= i && i + |p| <= |s| && s[i..i + |p|] == p
  }

  /** A mismatch at the first character rules an occurrence out. */
  lemma NotOccursAt<T>(s: seq<T>, p: seq<T>, k: int)
    requires 0 <= k < |s| && |p| > 0 && s[k] != p[0]
    ensures !OccursAt(s, p, k)
  {
  }

  /** `s.find(c)` for one character, `None` standing for -1. */
  function IndexOf(s: string, c: char): (r: Option<nat>)
    ensures r.None? <==> c !in s
    ensures r.Some? ==> r.value < |s| && s[r.value] == c && c !in s[..r.value]
    ensures r.Some? ==> forall k :: 0 <= k < r.value ==> s[k] != c
  {
    if |s| == 0 then None
    else if s[0] == c then Some(0)
    else match IndexOf(s[1..], c)
      case None => None
      case Some(i) => assert s[..i + 1] == [s[0]] + s[1..][..i]; Some(i + 1)
  }

  /** `s.rfind(c)` for one character, `None` standing for -1. */
  function LastIndexOf(s: string, c: char): (r: Option<nat>)
    ensures r.None? <==> c !in s
    ensures r.Some? ==> r.value < |s| && s[r.value] == c && c !in s[r.value + 1..]
  {
    if |s| == 0 then None
    else if s[|s| - 1] == c then Some(|s| - 1)
    else
      var r := LastIndexOf(s[..|s| - 1], c);
      assert r.Some? ==> s[r.value + 1..] == s[..|s| - 1][r.value + 1..] + [s[|s| - 1]];
      r
  }

  /** `rfind` returns the occurrence after which the character no longer appears. */
  lemma LastIndexOfIs(s: string, c: char, i: nat)
    requires i < |s| && s[i] == c && c !in s[i + 1..]
    ensures LastIndexOf(s, c) == Some(i)
  {
    assert c in s;
    var j := LastIndexOf(s, c).value;
    assert forall k :: i < k < |s| ==> s[k] == s[i + 1..][k - i - 1];
    assert forall k :: j < k < |s| ==> s[k] == s[j + 1..][k - j - 1];
  }

  /** `s.find(p, start)`: the first occurrence of `p` at or after `start`. */
  function FindFrom(s: string, p: string, start: nat): (r: Option<nat>)
    decreases |s| - start
    ensures r.Some? ==> start <= r.value && OccursAt(s, p, r.value)
    ensures r.Some? ==> forall k :: start <= k < r.value ==> !OccursAt(s, p, k)
    ensures r.None? ==> forall k :: start <= k ==> !OccursAt(s, p, k)
  {
    if start + |p| > |s| then None
    else if s[start..start + |p|] == p then Some(start)
    else FindFrom(s, p, start + 1)
  }

  /** `p in s` */
  predicate Contains(s: string, p: string) {
    FindFrom(s, p, 0).Some?
  }

  /** `sep.join(parts)` for a one-character separator. */
  function Join(parts: seq<string>, sep: char): string {
    if |parts| == 0 then ""
    else if |parts| == 1 then parts[0]
    else parts[0] + [sep] + Join(parts[1..], sep)
  }

  /** `s.split(sep)` for a one-character separator: never empty, no piece contains
      the separator, and joining the pieces back gives `s`. */
  function Split(s: string, sep: char): (parts: seq<string>)
    ensures |parts| >= 1
    ensures forall k :: 0 <= k < |parts| ==> sep !in parts[k]
    ensures Join(parts, sep) == s
  {
    match IndexOf(s, sep)
    case None => [s]
    case Some(i) =>
      var rest := Split(s[i + 1..], sep);
      assert s == s[..i] + [sep] + s[i + 1..];
      [s[..i]] + rest
  }

  /** Splitting a join of separator-free pieces gives the pieces back. */
  lemma {:induction false} SplitJoin(parts: seq<string>, sep: char)
    requires |parts| >= 1
    requires forall k :: 0 <= k < |parts| ==> sep !in parts[k]
    ensures Split(Join(parts, sep), sep) == parts
  {
    if |parts| > 1 {
      var p0 := parts[0];
      var tail := Join(parts[1..], sep);
      assert Join(parts, sep) == p0 + [sep] + tail;
      SplitAtFirst(p0, tail, sep);
      SplitJoin(parts[1..], sep);
      assert parts == [p0] + parts[1..];
    }
  }

  /** A separator-free piece followed by the separator splits right after the piece. */
  lemma SplitAtFirst(p0: string, tail: string, sep: char)
    requires sep !in p0
    ensures Split(p0 + [sep] + tail, sep) == [p0] + Split(tail, sep)
  {
    var s := p0 + [sep] + tail;
    assert s[|p0|] == sep;
    assert forall k :: 0 <= k < |p0| ==> s[k] == p0[k];
    assert IndexOf(s, sep) == Some(|p0|);
    assert s[..|p0|] == p0 && s[|p0| + 1..] == tail;
  }

  /** Number of occurrences of `c` in `s`. */
  function Count(s: string, c: char): nat {
    if |s| == 0 then 0 else (if s[0] == c then 1 else 0) + Count(s[1..], c)
  }

  lemma {:induction false} CountAppend(a: string, b: string, c: char)
    ensures Count(a + b, c) == Count(a, c) + Count(b, c)
  {
    if |a| > 0 {
      assert (a + b)[1..] == a[1..] + b;
      CountAppend(a[1..], b, c);
    } else {
      assert a + b == b;
    }
  }

  lemma {:induction false} CountAbsent(s: string, c: char)
    requires c !in s
    ensures Count(s, c) == 0
  {
    if |s| > 0 {
      assert c !in s[1..];
      CountAbsent(s[1..], c);
    }
  }

  /** Joining `n` separator-free pieces puts exactly `n - 1` separators in. */
  lemma {:induction false} CountJoin(parts: seq<string>, sep: char)
    requires |parts| >= 1
    requires forall k :: 0 <= k < |parts| ==> sep !in parts[k]
    ensures Count(Join(parts, sep), sep) == |parts| - 1
  {
    CountAbsent(parts[0], sep);
    if |parts| > 1 {
      CountJoin(parts[1..], sep);
      CountAppend(parts[0], [sep], sep);
      CountAppend(parts[0] + [sep], Join(parts[1..], sep), sep);
    }
  }

  /** A join starts with its first piece and ends with its last. */
  lemma {:induction false} JoinEnds(parts: seq<string>, sep: char)
    requires |parts| >= 1
    ensures StartsWith(Join(parts, sep), parts[0])
    ensures EndsWith(Join(parts, sep), parts[|parts| - 1])
  {
    if |parts| > 1 {
      JoinEnds(parts[1..], sep);
    }
  }

  /** Joining two non-empty lists of pieces is joining each and putting one separator
      between the results. */
  lemma {:induction false} JoinAppend(a: seq<string>, b: seq<string>, sep: char)
    requires |a| >= 1 && |b| >= 1
    ensures Join(a + b, sep) == Join(a, sep) + [sep] + Join(b, sep)
    decreases |a|
  {
    if |a| == 1 {
      assert (a + b)[1..] == b;
    } else {
      assert (a + b)[1..] == a[1..] + b;
      JoinAppend(a[1..], b, sep);
    }
  }

  /** Python slice normalisation of one index against a length `n`. */
  function Clamp(i: int, n: nat): (r: nat)
    ensures r <= n
    ensures 0 <= i <= n ==> r == i
    ensures i > n ==> r == n
    ensures i < 0 ==> r == if i + n < 0 then 0 else i + n
  {
    if i < 0 then (if i + n < 0 then 0 else i + n) else if i > n then n else i
  }

  /** `s[a:b]` with Python's treatment of negative and out-of-range indices. */
  function PySlice<T>(s: seq<T>, a: int, b: int): (r: seq<T>)
    ensures 0 <= a <= b <= |s| ==> r == s[a..b]
    ensures a == 0 && 0 <= b ==> r == s[..if b < |s| then b else |s|]
    ensures a == 0 && b < 0 ==> r == s[..if |s| + b < 0 then 0 else |s| + b]
    ensures 0 <= b <= a ==> r == []
  {
    var lo := Clamp(a, |s|);
    var hi := Clamp(b, |s|);
    if lo < hi then s[lo..hi] else []
  }

  /** A normalised index is already normal, and normalisation keeps the order of
      indices of the same sign. */
  lemma ClampNormal(i: int, j: int, n: nat)
    ensures Clamp(Clamp(i, n), n) == Clamp(i, n)
    ensures (0 <= i <= j || i <= j < 0) ==> Clamp(i, n) <= Clamp(j, n)
  {
  }

  /** A negative index names the same place as that index plus the length: `s[a - len(s):b]`
      is `s[a:b]` and `s[a:b - len(s)]` is `s[a:b]` for `a` and `b` below the length
      (at the length itself `-0` is `0`, the start). */
  lemma NegativeIndexFromEnd<T>(s: seq<T>, a: int, b: int)
    ensures 0 <= a < |s| ==> PySlice(s, a - |s|, b) == PySlice(s, a, b)
    ensures 0 <= b < |s| ==> PySlice(s, a, b - |s|) == PySlice(s, a, b)
  {
  }

  /** Splitting a slice at any point in between, past the end included, loses and
      duplicates nothing: `s[a:m] + s[m:b] == s[a:b]`. */
  lemma PySliceSplit<T>(s: seq<T>, a: int, m: int, b: int)
    requires 0 <= a <= m <= b
    ensures PySlice(s, a, m) + PySlice(s, m, b) == PySlice(s, a, b)
  {
    var lo, mid, hi := Clamp(a, |s|), Clamp(m, |s|), Clamp(b, |s|);
    assert lo <= mid <= hi;
    if lo < mid && mid < hi {
      assert s[lo..mid] + s[mid..hi] == s[lo..hi];
    }
  }

  /** `s.replace(pat, rep)`: leftmost, non-overlapping, left to right. */
  function ReplaceAll(s: string, pat: string, rep: string): string
    requires |pat| > 0
    decreases |s|
  {
    if |s| < |pat| then s
    else if s[..|pat|] == pat then rep + ReplaceAll(s[|pat|..], pat, rep)
    else [s[0]] + ReplaceAll(s[1..], pat, rep)
  }

  /** `a < b` on Python strings: lexicographic by code point. */
  predicate LexLess(a: string, b: string) {
    if |a| == 0 then |b| > 0
    else |b| > 0 && (a[0] < b[0] || (a[0] == b[0] && LexLess(a[1..], b[1..])))
  }

  lemma {:induction false} LexLessIrreflexive(a: string)
    ensures !LexLess(a, a)
  {
    if |a| > 0 {
      LexLessIrreflexive(a[1..]);
    }
  }

  lemma {:induction false} LexLessTransitive(a: string, b: string, c: string)
    requires LexLess(a, b) && LexLess(b, c)
    ensures LexLess(a, c)
  {
    if |a| > 0 && a[0] == b[0] && b[0] == c[0] {
      LexLessTransitive(a[1..], b[1..], c[1..]);
    }
  }

  lemma {:induction false} LexLessTotal(a: string, b: string)
    requires a != b
    ensures LexLess(a, b) || LexLess(b, a)
  {
    if |a| > 0 && |b| > 0 && a[0] == b[0] {
      assert a == [a[0]] + a[1..] && b == [b[0]] + b[1..];
      LexLessTotal(a[1..], b[1..]);
    }
  }
}
