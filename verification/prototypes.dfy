/**
 * The single-file analyzers oci-analyzer.go and syft-analyzer.go. Both
 * define the same three helpers, letter for letter: the OS name and
 * version of a distro string, a language-and-runtime counter, and a
 * package-name cleaner. They are modelled once.
 */
module Prototypes {
  import opened Wrappers
  import opened GoStrings
  import opened BaseOS
  import opened PurlRuntime

  /**
   * extractOSNameAndVersion: the two groups of the leftmost match of
   * `pkg:generic/([^@]+)@([^?]+)`, or two empty strings when the pattern
   * matches nowhere.
   */
  function ExtractOSNameAndVersion(distro: string): (r: (string, string))
    ensures (forall q :: NoMatchAt(distro, q)) <==> r == ("", "")
    ensures r != ("", "") ==> r.0 != [] && '@' !in r.0 && r.1 != [] && '?' !in r.1
    ensures forall p, name, version :: IsLeftmostMatch(distro, p, name, version) ==> r == (name, version)
  {
    match FindOS(distro)
    case None => ("", "")
    case Some(m) =>
      assert !NoMatchAt(distro, m.pos);
      (m.name, m.version)
  }

  /** The newer base-OS identity is the prototype's two groups joined by `:`. */
  lemma OSIdentityJoinsGroups(distro: string)
    ensures var (name, version) := ExtractOSNameAndVersion(distro);
      DetectOSNameWithVersion(distro) == if name == "" then "" else name + ":" + version
  {
  }

  /** The language family of a package URL; the Java test is decided first. */
  function LanguageOf(pkgURL: string): (language: string)
    ensures language in {"", "Java", "Python"}
    ensures language == "Java" <==> IsJavaFamily(pkgURL)
    ensures language == "Python" <==> !IsJavaFamily(pkgURL) && IsPythonFamily(pkgURL)
  {
    if IsJavaFamily(pkgURL) then "Java" else if IsPythonFamily(pkgURL) then "Python" else ""
  }

  /** A runtime is only ever counted together with the language of the same name. */
  lemma RuntimeImpliesLanguage(pkgURL: string)
    ensures RuntimeOf(pkgURL) != "" ==> LanguageOf(pkgURL) == RuntimeOf(pkgURL)
    ensures LanguageOf(pkgURL) == "" ==> RuntimeOf(pkgURL) == ""
  {
  }

  /** A Go `map[string]int` that a callee increments in place. */
  class CountMap {
    var counts: map<string, int>

    constructor ()
      ensures counts == map[]
    {
      counts := map[];
    }
  }

  /** `m[key]++` on a Go map: an absent key reads as 0. */
  function Increment(m: map<string, int>, key: string): (r: map<string, int>)
    ensures r.Keys == m.Keys + {key}
    ensures r[key] == (if key in m then m[key] else 0) + 1
    ensures forall k :: k in m && k != key ==> r[k] == m[k]
  {
    m[key := (if key in m then m[key] else 0) + 1]
  }

  /** Counting nothing when `key` is "" leaves the map alone. */
  function IncrementIf(m: map<string, int>, key: string): map<string, int>
  {
    if key == "" then m else Increment(m, key)
  }

  /**
   * detectLanguageAndRuntime: counts the URL's language, if any, once, and
   * its runtime, if any, once. When the caller passes one map for both,
   * both increments land in it.
   */
  method DetectLanguageAndRuntime(pkgURL: string, languages: CountMap, runtimes: CountMap)
    modifies languages, runtimes
    ensures languages != runtimes ==>
              && languages.counts == IncrementIf(old(languages.counts), LanguageOf(pkgURL))
              && runtimes.counts == IncrementIf(old(runtimes.counts), RuntimeOf(pkgURL))
    ensures languages == runtimes ==>
              languages.counts == IncrementIf(IncrementIf(old(languages.counts), LanguageOf(pkgURL)), RuntimeOf(pkgURL))
  {
    if Contains(pkgURL, "pkg:generic/java/") || Contains(pkgURL, "pkg:maven/") {
      languages.counts := Increment(languages.counts, "Java");
      if Contains(pkgURL, "jre") || Contains(pkgURL, "jdk") {
        runtimes.counts := Increment(runtimes.counts, "Java");
      }
    } else if Contains(pkgURL, "pkg:python/") {
      languages.counts := Increment(languages.counts, "Python");
      if Contains(pkgURL, "cpython") {
        runtimes.counts := Increment(runtimes.counts, "Python");
      }
    }
  }

  /**
   * One call raises at most one language count, by exactly one, and
   * changes no other language.
   */
  lemma OneLanguagePerCall(m: map<string, int>, pkgURL: string, k: string)
    requires k in m
    ensures k in IncrementIf(m, LanguageOf(pkgURL))
    ensures var r := IncrementIf(m, LanguageOf(pkgURL));
      r[k] == m[k] || (k == LanguageOf(pkgURL) && r[k] == m[k] + 1)
  {
  }

  /**
   * extractPackageName: the URL up to its first `?`, without one leading
   * `pkg:`, with `%2B` turned into `+` and then `%2F` into `/`.
   */
  function ExtractPackageName(pkgURL: string): (name: string)
  {
    var cleanURL := Before(pkgURL, "?");
    var cleanURL := TrimPrefix(cleanURL, "pkg:");
    var cleanURL := ReplaceAll(cleanURL, "%2B", "+");
    ReplaceAll(cleanURL, "%2F", "/")
  }

  /** Replacing never brings in a character that neither the text nor the replacement holds. */
  lemma {:induction false} ReplaceAllKeepsOut(s: string, pat: string, rep: string, c: char)
    requires |pat| > 0 && c !in s && c !in rep
    ensures c !in ReplaceAll(s, pat, rep)
    decreases |s|
  {
    if |s| >= |pat| {
      if s[..|pat|] == pat {
        ReplaceAllKeepsOut(s[|pat|..], pat, rep, c);
      } else {
        ReplaceAllKeepsOut(s[1..], pat, rep, c);
      }
    }
  }

  /** Text without the pattern's first character is left as it is. */
  lemma {:induction false} ReplaceAllAbsent(s: string, pat: string, rep: string)
    requires |pat| > 0 && pat[0] !in s
    ensures ReplaceAll(s, pat, rep) == s
    decreases |s|
  {
    if |s| >= |pat| {
      assert s[..|pat|][0] == s[0];
      ReplaceAllAbsent(s[1..], pat, rep);
      assert s == [s[0]] + s[1..];
    }
  }

  /** A prefix without the pattern's first character passes through unchanged. */
  lemma {:induction false} ReplaceAllPlainPrefix(a: string, b: string, pat: string, rep: string)
    requires |pat| > 0 && pat[0] !in a
    ensures ReplaceAll(a + b, pat, rep) == a + ReplaceAll(b, pat, rep)
    decreases |a|
  {
    if a != [] {
      var s := a + b;
      if |s| >= |pat| {
        assert s[..|pat|] != pat by {
          assert s[..|pat|][0] == a[0];
        }
        assert ReplaceAll(s, pat, rep) == [a[0]] + ReplaceAll(s[1..], pat, rep);
        assert s[1..] == a[1..] + b;
        ReplaceAllPlainPrefix(a[1..], b, pat, rep);
        assert a == [a[0]] + a[1..];
      } else {
        assert ReplaceAll(b, pat, rep) == b;
        assert ReplaceAll(s, pat, rep) == s;
      }
    } else {
      assert a + b == b;
    }
  }

  /** The cleaned name never holds a `?`. */
  lemma ExtractHasNoQuery(pkgURL: string)
    ensures '?' !in ExtractPackageName(pkgURL)
  {
    var cleanURL := Before(pkgURL, "?");
    forall q | 0 <= q < |cleanURL|
      ensures cleanURL[q] != '?'
    {
      assert pkgURL[q..q + 1] == [cleanURL[q]];
      assert !OccursAt(pkgURL, "?", q);
    }
    var trimmed := TrimPrefix(cleanURL, "pkg:");
    assert '?' !in trimmed;
    ReplaceAllKeepsOut(trimmed, "%2B", "+", '?');
    ReplaceAllKeepsOut(ReplaceAll(trimmed, "%2B", "+"), "%2F", "/", '?');
  }

  /** A URL with no `?`, no leading `pkg:` and no `%` comes back unchanged. */
  lemma ExtractPlain(pkgURL: string)
    requires '?' !in pkgURL && '%' !in pkgURL && !OccursAt(pkgURL, "pkg:", 0)
    ensures ExtractPackageName(pkgURL) == pkgURL
  {
    BeforeNoSeparator(pkgURL, '?');
    ReplaceAllAbsent(pkgURL, "%2B", "+");
    ReplaceAllAbsent(pkgURL, "%2F", "/");
  }

  /** The query-free text of a `pkg:` URL, with `pkg:` removed. */
  lemma {:induction false} TrimmedURL(t: string)
    requires '?' !in t
    ensures TrimPrefix(Before("pkg:" + t, "?"), "pkg:") == t
  {
    assert '?' !in "pkg:" + t;
    BeforeNoSeparator("pkg:" + t, '?');
    assert ("pkg:" + t)[..4] == "pkg:";
  }

  /** `%2B` decodes to `+`. */
  lemma ExtractDecodesPlus(a: string, b: string)
    requires '%' !in a && '%' !in b && '?' !in a && '?' !in b
    ensures ExtractPackageName("pkg:" + a + "%2B" + b) == a + "+" + b
  {
    var t := "%2B" + b;
    assert "pkg:" + a + "%2B" + b == "pkg:" + (a + t);
    TrimmedURL(a + t);
    ReplaceAllPlainPrefix(a, t, "%2B", "+");
    assert t[..3] == "%2B" && t[3..] == b;
    ReplaceAllAbsent(b, "%2B", "+");
    assert ReplaceAll(t, "%2B", "+") == "+" + b;
    assert ReplaceAll(a + t, "%2B", "+") == a + "+" + b;
    ReplaceAllAbsent(a + "+" + b, "%2F", "/");
  }

  /** `%2F` decodes to `/`. */
  lemma ExtractDecodesSlash(a: string, b: string)
    requires '%' !in a && '%' !in b && '?' !in a && '?' !in b
    ensures ExtractPackageName("pkg:" + a + "%2F" + b) == a + "/" + b
  {
    var t := "%2F" + b;
    assert "pkg:" + a + "%2F" + b == "pkg:" + (a + t);
    TrimmedURL(a + t);
    assert t == "%" + "2F" + b;
    OtherEscapeUnchanged("2F", b, "%2B", "+");
    ReplaceAllPlainPrefix(a, t, "%2B", "+");
    ReplaceAllPlainPrefix(a, t, "%2F", "/");
    assert t[..3] == "%2F" && t[3..] == b;
    ReplaceAllAbsent(b, "%2F", "/");
    assert ReplaceAll(t, "%2F", "/") == "/" + b;
  }

  /** An escape other than the pattern, followed by plain text, is left as it is. */
  lemma {:induction false} OtherEscapeUnchanged(h: string, b: string, pat: string, rep: string)
    requires |pat| == 3 && pat[0] == '%' && |h| == 2 && h != pat[1..] && '%' !in h && '%' !in b
    ensures ReplaceAll("%" + h + b, pat, rep) == "%" + h + b
  {
    var t := "%" + h + b;
    assert t[1..] == h + b;
    assert t[..3] != pat by {
      assert t[..3][1..] == h;
    }
    ReplaceAllAbsent(h + b, pat, rep);
    assert t == [t[0]] + t[1..];
  }

  /** Every other escape is left encoded. */
  lemma ExtractKeepsOtherEscapes(a: string, h: string, b: string)
    requires |h| == 2 && h != "2B" && h != "2F"
    requires '%' !in a && '%' !in h && '%' !in b && '?' !in a && '?' !in h && '?' !in b
    ensures ExtractPackageName("pkg:" + a + "%" + h + b) == a + "%" + h + b
  {
    var t := "%" + h + b;
    assert "pkg:" + a + "%" + h + b == "pkg:" + (a + t);
    assert a + "%" + h + b == a + t;
    TrimmedURL(a + t);
    OtherEscapeUnchanged(h, b, "%2B", "+");
    OtherEscapeUnchanged(h, b, "%2F", "/");
    ReplaceAllPlainPrefix(a, t, "%2B", "+");
    ReplaceAllPlainPrefix(a, t, "%2F", "/");
  }
}
