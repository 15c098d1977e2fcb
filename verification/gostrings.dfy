/**
 * The functions of Go's `strings` package that the core uses.
 *
 * A Go string is a sequence of bytes; it is modelled as a `string` whose
 * characters each stand for one byte (the character with the byte's code).
 * Every pattern the core looks for is ASCII, so searching bytes and
 * searching characters agree.
 */
module GoStrings {
  import opened Wrappers

  /** `sub` occurs in `s` starting at index `p`. */
  predicate OccursAt(s: string, sub: string, p: int)
  {
    0 <= p && p + |sub| <= |s| && s[p..p + |sub|] == sub
  }

  /** strings.Contains */
  predicate Contains(s: string, sub: string)
  {
    exists p :: 0 <= p <= |s| && OccursAt(s, sub, p)
  }

  /** The first index at or after `from` where `sub` occurs, if any. */
  function IndexFrom(s: string, sub: string, from: nat): (r: Option<nat>)
    requires from <= |s|
    ensures r.Some? ==> from <= r.value && OccursAt(s, sub, r.value)
    ensures r.Some? ==> forall q :: from <= q < r.value ==> !OccursAt(s, sub, q)
    ensures r.None? ==> forall q :: from <= q ==> !OccursAt(s, sub, q)
    decreases |s| - from
  {
    if OccursAt(s, sub, from) then Some(from)
    else if from == |s| then None
    else IndexFrom(s, sub, from + 1)
  }

  /** strings.Index: the first occurrence of `sub` in `s`. */
  function Index(s: string, sub: string): (r: Option<nat>)
    ensures r.Some? ==> OccursAt(s, sub, r.value)
    ensures r.Some? ==> forall q :: 0 <= q < r.value ==> !OccursAt(s, sub, q)
    ensures r.None? ==> forall q :: !OccursAt(s, sub, q)
    ensures r.Some? <==> Contains(s, sub)
  {
    IndexFrom(s, sub, 0)
  }

  /** strings.Split(s, sep)[0]: everything before the first `sep`, or all of `s`. */
  function Before(s: string, sep: string): (r: string)
    requires sep != []
    ensures |r| <= |s| && r == s[..|r|]
    ensures !Contains(s, sep) ==> r == s
    ensures Contains(s, sep) ==> OccursAt(s, sep, |r|) && forall q :: 0 <= q < |r| ==> !OccursAt(s, sep, q)
  {
    match Index(s, sep)
    case None => s
    case Some(p) => s[..p]
  }

  /** Everything after the first `sep` (strings.SplitN(s, sep, 2)[1]). */
  function After(s: string, sep: string): (r: string)
    requires sep != [] && Contains(s, sep)
    ensures |r| <= |s| - |sep|
  {
    s[Index(s, sep).value + |sep|..]
  }

  /** `s` is the text before its first `sep`, that `sep`, and the text after it. */
  lemma AfterSplits(s: string, sep: string)
    requires sep != [] && Contains(s, sep)
    ensures s == Before(s, sep) + sep + After(s, sep)
  {
    var p := Index(s, sep).value;
    assert s == s[..p] + s[p..p + |sep|] + s[p + |sep|..];
  }

  /** strings.Split(s, sep)[1]: the text between the first and the second `sep`. */
  function SecondField(s: string, sep: string): (r: string)
    requires sep != [] && Contains(s, sep)
    ensures !Contains(r, sep)
    ensures |r| <= |After(s, sep)| && r == After(s, sep)[..|r|]
  {
    var a := After(s, sep);
    var r := Before(a, sep);
    PrefixKeepsOccurrences(a, r, sep);
    r
  }

  /** Splitting `a + sep + b` at its first `sep`, when `a` holds none, gives back `a` and `b`. */
  lemma SplitJoin(a: string, sep: string, b: string)
    requires sep != []
    requires forall q :: 0 <= q < |a| ==> !OccursAt(a + sep + b, sep, q)
    ensures Before(a + sep + b, sep) == a
    ensures After(a + sep + b, sep) == b
  {
    var s := a + sep + b;
    assert s[|a|..|a| + |sep|] == sep;
    assert OccursAt(s, sep, |a|);
    var p := Index(s, sep).value;
    assert p == |a|;
    assert s[..|a|] == a;
    assert s[|a| + |sep|..] == b;
  }

  /** The second field of `a + sep + b` is `b` when neither `a` nor `b` holds `sep`. */
  lemma SecondFieldJoin(a: string, sep: string, b: string)
    requires sep != [] && !Contains(b, sep)
    requires forall q :: 0 <= q < |a| ==> !OccursAt(a + sep + b, sep, q)
    ensures Contains(a + sep + b, sep) && SecondField(a + sep + b, sep) == b
  {
    SplitJoin(a, sep, b);
    assert OccursAt(a + sep + b, sep, |a|) by {
      assert (a + sep + b)[|a|..|a| + |sep|] == sep;
    }
  }

  /** An occurrence inside a prefix is an occurrence in the whole string. */
  lemma PrefixKeepsOccurrences(a: string, r: string, sub: string)
    requires |r| <= |a| && r == a[..|r|]
    requires forall q :: 0 <= q < |r| ==> !OccursAt(a, sub, q)
    ensures !Contains(r, sub) || sub == []
  {
    if sub != [] {
      forall q | 0 <= q <= |r|
        ensures !OccursAt(r, sub, q)
      {
        if q + |sub| <= |r| {
          assert !OccursAt(a, sub, q);
          assert a[q..q + |sub|] == r[q..q + |sub|];
        }
      }
    }
  }

  /** The index just after the last `c` in `s[..end]`, or 0 when there is none. */
  function AfterLast(s: string, c: char, end: nat): (i: nat)
    requires end <= |s|
    ensures i <= end
    ensures i > 0 ==> s[i - 1] == c
    ensures forall j :: i <= j < end ==> s[j] != c
  {
    if end == 0 then 0
    else if s[end - 1] == c then end
    else AfterLast(s, c, end - 1)
  }

  /** strings.Split(s, "/")[len - 1]: the text after the last `/`, or all of `s`. */
  function LastSegment(s: string): (r: string)
    ensures '/' !in r
    ensures |r| <= |s| && r == s[|s| - |r|..]
  {
    s[AfterLast(s, '/', |s|)..]
  }

  /** A last segment shorter than `s` follows a `/`. */
  lemma LastSegmentFollowsSlash(s: string)
    ensures |LastSegment(s)| < |s| ==> s[|s| - |LastSegment(s)| - 1] == '/'
  {
  }

  /** The last segment of `prefix/segment` is `segment` when it holds no `/`. */
  lemma LastSegmentOfJoin(prefix: string, segment: string)
    requires '/' !in segment
    ensures LastSegment(prefix + "/" + segment) == segment
  {
    var s := prefix + "/" + segment;
    assert s[|prefix|] == '/';
    assert forall j :: 0 <= j < |segment| ==> s[|prefix| + 1 + j] == segment[j];
    assert s[|s| - |segment|..] == segment;
  }

  /** Text without the character `c` is its own first field when split at `c`. */
  lemma BeforeNoSeparator(s: string, c: char)
    requires c !in s
    ensures Before(s, [c]) == s
  {
    forall p | 0 <= p <= |s|
      ensures !OccursAt(s, [c], p)
    {
      if p + 1 <= |s| {
        assert s[p..p + 1][0] == s[p];
      }
    }
  }

  /** strings.TrimPrefix */
  function TrimPrefix(s: string, prefix: string): (r: string)
    ensures OccursAt(s, prefix, 0) ==> s == prefix + r
    ensures !OccursAt(s, prefix, 0) ==> r == s
  {
    if OccursAt(s, prefix, 0) then s[|prefix|..] else s
  }

  /** strings.ReplaceAll: replaces the non-overlapping occurrences of `pat`, left to right. */
  function ReplaceAll(s: string, pat: string, rep: string): (r: string)
    requires |pat| > 0
    ensures |rep| <= |pat| ==> |r| <= |s|
    decreases |s|
  {
    if |s| < |pat| then s
    else if s[..|pat|] == pat then rep + ReplaceAll(s[|pat|..], pat, rep)
    else [s[0]] + ReplaceAll(s[1..], pat, rep)
  }

  /** strings.FieldsFunc(s, func(r) bool { return r == sep }): the non-empty runs between separators. */
  function Fields(s: string, sep: char): (r: seq<string>)
    ensures forall i :: 0 <= i < |r| ==> r[i] != [] && sep !in r[i]
    decreases |s|
  {
    if s == [] then []
    else if s[0] == sep then Fields(s[1..], sep)
    else
      var n := RunLength(s, 0, sep);
      [s[..n]] + Fields(s[n..], sep)
  }

  /** The length of the longest run of `s` starting at `from` that contains no `c`. */
  function RunLength(s: string, from: nat, c: char): (n: nat)
    requires from <= |s|
    ensures from + n <= |s|
    ensures forall j :: from <= j < from + n ==> s[j] != c
    ensures from + n == |s| || s[from + n] == c
    decreases |s| - from
  {
    if from == |s| || s[from] == c then 0 else 1 + RunLength(s, from + 1, c)
  }

  /** A run that stops at `c` (or the end) has the length RunLength computes. */
  lemma RunLengthExact(s: string, from: nat, c: char, k: nat)
    requires from + k <= |s|
    requires forall j :: from <= j < from + k ==> s[j] != c
    requires from + k == |s| || s[from + k] == c
    ensures RunLength(s, from, c) == k
  {
  }

  /** A non-empty run without the separator is one field. */
  lemma FieldsRun(a: string, sep: char)
    requires a != [] && sep !in a
    ensures Fields(a, sep) == [a]
  {
    RunLengthExact(a, 0, sep, |a|);
    assert a[..|a|] == a;
  }

  /** A run at the start of `a` ends where it ends in `a + [sep] + b`. */
  lemma RunLengthJoin(a: string, b: string, sep: char)
    ensures RunLength(a + [sep] + b, 0, sep) == RunLength(a, 0, sep)
  {
    var s := a + [sep] + b;
    var n := RunLength(a, 0, sep);
    assert s[n] == sep by {
      if n < |a| { assert s[n] == a[n]; }
    }
    assert forall j :: 0 <= j < n ==> s[j] == a[j];
    RunLengthExact(s, 0, sep, n);
  }

  /** The fields on either side of a separator, in order: the fields are the segments of the text. */
  lemma {:induction false} FieldsJoin(a: string, b: string, sep: char)
    ensures Fields(a + [sep] + b, sep) == Fields(a, sep) + Fields(b, sep)
    decreases |a|
  {
    var s := a + [sep] + b;
    if a == [] {
      assert s[0] == sep && s[1..] == b;
    } else if a[0] == sep {
      assert s[0] == sep && s[1..] == a[1..] + [sep] + b;
      FieldsJoin(a[1..], b, sep);
    } else {
      var n := RunLength(a, 0, sep);
      RunLengthJoin(a, b, sep);
      assert s[..n] == a[..n];
      assert s[n..] == a[n..] + [sep] + b;
      FieldsJoin(a[n..], b, sep);
    }
  }

  /** Byte-wise lexicographic order, as Go's `<` on strings. */
  predicate LexLess(a: string, b: string)
    decreases |a|
  {
    if a == [] then b != []
    else if b == [] then false
    else if a[0] != b[0] then a[0] < b[0]
    else LexLess(a[1..], b[1..])
  }

  lemma {:induction false} LexLessIrreflexive(a: string)
    ensures !LexLess(a, a)
    decreases |a|
  {
    if a != [] {
      LexLessIrreflexive(a[1..]);
    }
  }

  lemma {:induction false} LexLessTransitive(a: string, b: string, c: string)
    requires LexLess(a, b) && LexLess(b, c)
    ensures LexLess(a, c)
    decreases |a|
  {
    if a != [] && a[0] == b[0] && b[0] == c[0] {
      LexLessTransitive(a[1..], b[1..], c[1..]);
    }
  }

  lemma {:induction false} LexLessTotal(a: string, b: string)
    requires a != b
    ensures LexLess(a, b) || LexLess(b, a)
    decreases |a|
  {
    if a != [] && b != [] && a[0] == b[0] {
      assert a == [a[0]] + a[1..] && b == [b[0]] + b[1..];
      LexLessTotal(a[1..], b[1..]);
    }
  }
}
