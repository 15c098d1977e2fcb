/**
 * logic/aggregate/packages.go: the package name of a package URL is its
 * last path segment, without the query string, query-unescaped.
 *
 * Characters stand for bytes here: every decoded escape `%XY` becomes the
 * character whose code is the byte 0xXY. Go's url.QueryEscape is modelled
 * as the partner of url.QueryUnescape so that the decoder can be stated as
 * its inverse.
 */
module PackageName {
  import opened Wrappers
  import opened GoStrings

  /** Every character stands for one byte. */
  predicate IsByteString(s: string)
  {
    forall i :: 0 <= i < |s| ==> s[i] as int < 256
  }

  predicate IsHex(c: char)
  {
    ('0' <= c <= '9') || ('a' <= c <= 'f') || ('A' <= c <= 'F')
  }

  function UnHex(c: char): (d: nat)
    requires IsHex(c)
    ensures d < 16
  {
    if '0' <= c <= '9' then (c - '0') as nat
    else if 'a' <= c <= 'f' then (c - 'a') as nat + 10
    else (c - 'A') as nat + 10
  }

  const UpperHex: string := "0123456789ABCDEF"

  /** The upper-case hex digit QueryEscape writes for `d`. */
  function HexDigit(d: nat): (c: char)
    requires d < 16
    ensures IsHex(c) && UnHex(c) == d
  {
    UpperHex[d]
  }

  /** `%` at `i` does not start a valid escape (url.QueryUnescape's first pass). */
  predicate BadEscapeAt(s: string, i: int)
  {
    0 <= i < |s| && s[i] == '%' && (i + 2 >= |s| || !IsHex(s[i + 1]) || !IsHex(s[i + 2]))
  }

  /** Every `%` is followed by two hex digits. */
  predicate WellEscaped(s: string)
  {
    forall i :: 0 <= i < |s| ==> !BadEscapeAt(s, i)
  }

  function Min(a: int, b: int): int
  {
    if a < b then a else b
  }

  /**
   * url.QueryUnescape: `%XY` decodes to the byte 0xXY and `+` to a space;
   * the first `%` not followed by two hex digits is an error that carries
   * that `%` and at most the two characters after it.
   */
  function QueryUnescape(s: string): (r: Result<string, string>)
    ensures r.Success? ==> |r.value| <= |s|
    decreases |s|
  {
    if s == [] then Success([])
    else if s[0] == '%' then
      if |s| < 3 || !IsHex(s[1]) || !IsHex(s[2]) then Failure(s[..Min(3, |s|)])
      else
        match QueryUnescape(s[3..])
        case Success(t) => Success([(16 * UnHex(s[1]) + UnHex(s[2])) as char] + t)
        case Failure(e) => Failure(e)
    else
      match QueryUnescape(s[1..])
      case Success(t) => Success([if s[0] == '+' then ' ' else s[0]] + t)
      case Failure(e) => Failure(e)
  }

  /** Dropping `k` characters moves every bad escape after them left by `k`. */
  lemma ShiftEscapes(s: string, k: nat)
    requires k <= |s|
    ensures forall i :: 0 <= i ==> (BadEscapeAt(s[k..], i) <==> BadEscapeAt(s, i + k))
  {
    forall i | 0 <= i
      ensures BadEscapeAt(s[k..], i) <==> BadEscapeAt(s, i + k)
    {
      if i < |s| - k {
        assert s[k..][i] == s[i + k];
        if i + 2 < |s| - k {
          assert s[k..][i + 1] == s[i + k + 1] && s[k..][i + 2] == s[i + k + 2];
        }
      }
    }
  }

  /** url.QueryUnescape succeeds exactly when every `%` starts a valid escape. */
  lemma {:induction false} UnescapeSucceedsIff(s: string)
    ensures QueryUnescape(s).Success? <==> WellEscaped(s)
    decreases |s|
  {
    if s == [] {
    } else if s[0] == '%' && (|s| < 3 || !IsHex(s[1]) || !IsHex(s[2])) {
      assert BadEscapeAt(s, 0);
    } else {
      var k := if s[0] == '%' then 3 else 1;
      UnescapeSucceedsIff(s[k..]);
      ShiftEscapes(s, k);
      assert forall j :: 0 <= j < k ==> !BadEscapeAt(s, j);
      if WellEscaped(s[k..]) {
        forall j | 0 <= j < |s| ensures !BadEscapeAt(s, j) {
          if j >= k { assert !BadEscapeAt(s[k..], j - k); }
        }
      }
    }
  }

  /** `i` is the first bad `%` of `s`. */
  predicate FirstBadEscape(s: string, i: int)
  {
    BadEscapeAt(s, i) && forall j :: 0 <= j < i ==> !BadEscapeAt(s, j)
  }

  /** The first bad `%` after `k` good leading characters, seen from `s` and from `s[k..]`. */
  lemma ShiftFirstBad(s: string, k: nat, i: nat)
    requires k <= |s| && FirstBadEscape(s[k..], i)
    requires forall j :: 0 <= j < k ==> !BadEscapeAt(s, j)
    ensures FirstBadEscape(s, i + k)
    ensures s[k..][i..Min(i + 3, |s| - k)] == s[i + k..Min(i + k + 3, |s|)]
  {
    ShiftEscapes(s, k);
    forall j | k <= j < i + k
      ensures !BadEscapeAt(s, j)
    {
      assert !BadEscapeAt(s[k..], j - k);
    }
  }

  /** The error names the first bad `%` and what follows it, at most three characters in all. */
  lemma {:induction false} UnescapeError(s: string)
    requires QueryUnescape(s).Failure?
    ensures exists i :: FirstBadEscape(s, i) && QueryUnescape(s).error == s[i..Min(i + 3, |s|)]
    decreases |s|
  {
    if s[0] == '%' && (|s| < 3 || !IsHex(s[1]) || !IsHex(s[2])) {
      assert FirstBadEscape(s, 0);
    } else {
      var k := if s[0] == '%' then 3 else 1;
      assert QueryUnescape(s[k..]).error == QueryUnescape(s).error;
      UnescapeError(s[k..]);
      var i :| FirstBadEscape(s[k..], i) && QueryUnescape(s[k..]).error == s[k..][i..Min(i + 3, |s| - k)];
      assert forall j :: 0 <= j < k ==> !BadEscapeAt(s, j);
      ShiftFirstBad(s, k, i);
    }
  }

  /** Bytes url.QueryEscape leaves as they are. */
  predicate Unreserved(c: char)
  {
    ('a' <= c <= 'z') || ('A' <= c <= 'Z') || ('0' <= c <= '9')
    || c == '-' || c == '_' || c == '.' || c == '~'
  }

  /** url.QueryEscape on one byte: kept, `+` for a space, `%XY` otherwise. */
  function EscapeByte(c: char): (e: string)
    requires c as int < 256
    ensures Unreserved(c) ==> e == [c]
    ensures c == ' ' ==> e == "+"
    ensures !Unreserved(c) && c != ' ' ==> |e| == 3 && e[0] == '%' && IsHex(e[1]) && IsHex(e[2])
                                           && 16 * UnHex(e[1]) + UnHex(e[2]) == c as int
  {
    if Unreserved(c) then [c]
    else if c == ' ' then "+"
    else "%" + [HexDigit(c as int / 16), HexDigit(c as int % 16)]
  }

  /** url.QueryEscape: the escape of each byte in turn. */
  function QueryEscape(s: string): (e: string)
    requires IsByteString(s)
    ensures '/' !in e && '?' !in e
  {
    if s == [] then [] else EscapeByte(s[0]) + QueryEscape(s[1..])
  }

  /** One escaped byte in front of decodable text decodes to that byte. */
  lemma UnescapeEscapedByte(c: char, t: string)
    requires c as int < 256 && QueryUnescape(t).Success?
    ensures QueryUnescape(EscapeByte(c) + t) == Success([c] + QueryUnescape(t).value)
  {
    var e := EscapeByte(c);
    var u := e + t;
    if Unreserved(c) || c == ' ' {
      assert u[0] == e[0] && u[1..] == t;
    } else {
      assert u[0] == '%' && u[1] == e[1] && u[2] == e[2] && u[3..] == t;
      assert (16 * UnHex(u[1]) + UnHex(u[2])) as char == c;
    }
  }

  /** url.QueryUnescape undoes url.QueryEscape on every byte string. */
  lemma {:induction false} UnescapeEscape(s: string)
    requires IsByteString(s)
    ensures QueryUnescape(QueryEscape(s)) == Success(s)
  {
    if s != [] {
      UnescapeEscape(s[1..]);
      UnescapeEscapedByte(s[0], QueryEscape(s[1..]));
      assert s == [s[0]] + s[1..];
    }
  }

  /** url.QueryUnescape leaves a string with no `%` and no `+` as it is. */
  lemma {:induction false} UnescapePlain(s: string)
    requires '%' !in s && '+' !in s
    ensures QueryUnescape(s) == Success(s)
  {
    if s != [] {
      assert s[0] != '%' && s[0] != '+';
      assert '%' !in s[1..] && '+' !in s[1..];
      UnescapePlain(s[1..]);
      assert s == [s[0]] + s[1..];
    }
  }

  /**
   * DetectPackageName: the part of the last `/`-separated segment before
   * the first `?`, query-unescaped; "" when that does not unescape.
   */
  function DetectPackageName(pkgURL: string): (name: string)
    ensures |name| <= |LastSegment(pkgURL)|
  {
    match QueryUnescape(Before(LastSegment(pkgURL), "?"))
    case Success(decoded) => decoded
    case Failure(_) => ""
  }

  /** The query string starts at the first `?`. */
  lemma QueryAfterSegment(segment: string, query: string)
    requires '?' !in segment
    ensures Before(segment + "?" + query, "?") == segment
  {
    var full := segment + "?" + query;
    assert OccursAt(full, "?", |segment|);
    forall q | 0 <= q < |segment|
      ensures !OccursAt(full, "?", q)
    {
      assert full[q..q + 1][0] == full[q] == segment[q];
    }
    assert full[..|segment|] == segment;
  }

  /** Everything up to the last `/` plays no part in the name. */
  lemma NameIsLastSegmentOnly(prefix: string, other: string, segment: string)
    requires '/' !in segment
    ensures DetectPackageName(prefix + "/" + segment) == DetectPackageName(other + "/" + segment)
  {
    LastSegmentOfJoin(prefix, segment);
    LastSegmentOfJoin(other, segment);
  }

  /** The name a package URL was built from by query-escaping is recovered exactly. */
  lemma DetectEscapedName(prefix: string, name: string)
    requires IsByteString(name)
    ensures DetectPackageName(prefix + "/" + QueryEscape(name)) == name
  {
    var e := QueryEscape(name);
    LastSegmentOfJoin(prefix, e);
    BeforeNoSeparator(e, '?');
    UnescapeEscape(name);
  }

  /** A segment with none of `/`, `?`, `%`, `+` is the name as it stands. */
  lemma DetectPlainName(prefix: string, segment: string)
    requires '/' !in segment && '?' !in segment && '%' !in segment && '+' !in segment
    ensures DetectPackageName(prefix + "/" + segment) == segment
  {
    LastSegmentOfJoin(prefix, segment);
    BeforeNoSeparator(segment, '?');
    UnescapePlain(segment);
  }

  /** The query string after `?` is dropped before unescaping. */
  lemma DetectDropsQuery(prefix: string, segment: string, query: string)
    requires '/' !in segment && '?' !in segment && '/' !in query
    ensures DetectPackageName(prefix + "/" + segment + "?" + query)
            == DetectPackageName(prefix + "/" + segment)
  {
    var full := segment + "?" + query;
    assert prefix + "/" + segment + "?" + query == prefix + "/" + full;
    assert '/' !in full;
    LastSegmentOfJoin(prefix, full);
    LastSegmentOfJoin(prefix, segment);
    BeforeNoSeparator(segment, '?');
    QueryAfterSegment(segment, query);
  }

  /**
   * The URL is split at `/` before the query is cut off, so a `/` inside
   * the query starts a new last segment, and the text after it is the name.
   */
  lemma DetectQueryWithSlash(prefix: string, segment: string, query: string, tail: string)
    requires '/' !in tail && '?' !in tail && '%' !in tail && '+' !in tail
    ensures DetectPackageName(prefix + "/" + segment + "?" + query + "/" + tail) == tail
  {
    var head := prefix + "/" + segment + "?" + query;
    assert prefix + "/" + segment + "?" + query + "/" + tail == head + "/" + tail;
    DetectPlainName(head, tail);
  }

  /** An escape that is cut short makes the whole name "". */
  lemma DetectBadEscape(prefix: string, segment: string)
    requires '/' !in segment && '?' !in segment && !WellEscaped(segment)
    ensures DetectPackageName(prefix + "/" + segment) == ""
  {
    LastSegmentOfJoin(prefix, segment);
    BeforeNoSeparator(segment, '?');
    UnescapeSucceedsIff(segment);
  }

  /** A leading run with no `%` and no `+` comes through url.QueryUnescape unchanged. */
  lemma {:induction false} UnescapePlainPrefix(a: string, t: string)
    requires '%' !in a && '+' !in a && QueryUnescape(t).Success?
    ensures QueryUnescape(a + t) == Success(a + QueryUnescape(t).value)
  {
    if a != [] {
      assert a[0] != '%' && a[0] != '+';
      assert '%' !in a[1..] && '+' !in a[1..];
      UnescapePlainPrefix(a[1..], t);
      UnescapePlainChar(a[0], a[1..] + t);
      assert a + t == [a[0]] + (a[1..] + t);
      assert [a[0]] + (a[1..] + QueryUnescape(t).value) == a + QueryUnescape(t).value;
    } else {
      assert a + t == t;
      assert a + QueryUnescape(t).value == QueryUnescape(t).value;
    }
  }

  /** A character other than `%` and `+` decodes to itself. */
  lemma UnescapePlainChar(c: char, s: string)
    requires c != '%' && c != '+' && QueryUnescape(s).Success?
    ensures QueryUnescape([c] + s) == Success([c] + QueryUnescape(s).value)
  {
    assert ([c] + s)[0] == c && ([c] + s)[1..] == s;
  }

  /** ... and an error in what follows such a run is reported as it is. */
  lemma {:induction false} UnescapePlainPrefixError(a: string, t: string)
    requires '%' !in a && '+' !in a && QueryUnescape(t).Failure?
    ensures QueryUnescape(a + t) == QueryUnescape(t)
  {
    if a != [] {
      assert a[0] != '%' && a[0] != '+';
      assert '%' !in a[1..] && '+' !in a[1..];
      UnescapePlainPrefixError(a[1..], t);
      assert (a + t)[0] == a[0] && (a + t)[1..] == a[1..] + t;
    } else {
      assert a + t == t;
    }
  }

  /** Segments that differ only in an escaped or a bare `+` between plain parts. */
  predicate PlainPart(s: string)
  {
    '/' !in s && '?' !in s && '%' !in s && '+' !in s
  }

  /** The name of `prefix/segment`, for a segment with no `/` and no `?`, is the segment unescaped. */
  lemma SegmentName(prefix: string, segment: string)
    requires '/' !in segment && '?' !in segment && QueryUnescape(segment).Success?
    ensures DetectPackageName(prefix + "/" + segment) == QueryUnescape(segment).value
  {
    LastSegmentOfJoin(prefix, segment);
    BeforeNoSeparator(segment, '?');
  }

  lemma UnescapeEscapedPlus(b: string)
    requires '%' !in b && '+' !in b
    ensures QueryUnescape("%2B" + b) == Success("+" + b)
  {
    var t := "%2B" + b;
    UnescapePlain(b);
    assert t[0] == '%' && t[1] == '2' && t[2] == 'B' && t[3..] == b;
  }

  lemma UnescapeBarePlus(b: string)
    requires '%' !in b && '+' !in b
    ensures QueryUnescape("+" + b) == Success(" " + b)
  {
    var t := "+" + b;
    UnescapePlain(b);
    assert t[0] == '+' && t[1..] == b;
  }

  /** `%2B` decodes to `+`: `pkg:npm/foo%2Bbar@1.0.0` names `foo+bar@1.0.0`. */
  lemma DetectEscapedPlus(prefix: string, a: string, b: string)
    requires PlainPart(a) && PlainPart(b)
    ensures DetectPackageName(prefix + "/" + a + "%2B" + b) == a + "+" + b
  {
    var t := "%2B" + b;
    UnescapeEscapedPlus(b);
    UnescapePlainPrefix(a, t);
    assert prefix + "/" + a + "%2B" + b == prefix + "/" + (a + t);
    assert a + ("+" + b) == a + "+" + b;
    SegmentName(prefix, a + t);
  }

  /** A bare `+` decodes to a space: `pkg:pypi/a+b@1` names `a b@1`. */
  lemma DetectBarePlus(prefix: string, a: string, b: string)
    requires PlainPart(a) && PlainPart(b)
    ensures DetectPackageName(prefix + "/" + a + "+" + b) == a + " " + b
  {
    var t := "+" + b;
    UnescapeBarePlus(b);
    UnescapePlainPrefix(a, t);
    assert prefix + "/" + a + "+" + b == prefix + "/" + (a + t);
    assert a + (" " + b) == a + " " + b;
    SegmentName(prefix, a + t);
  }
}
