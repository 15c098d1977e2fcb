/**
 * logic/aggregate/base_os.go: the OS identity `name:version` read from a
 * distro string with the pattern `pkg:generic/([^@]+)@([^?]+)`.
 *
 * Go's regexp returns the leftmost match, and at that position the greedy
 * groups take the longest text they can: the name runs to the first `@`
 * and the version to the first `?` or the end of the string.
 */
module BaseOS {
  import opened Wrappers
  import opened GoStrings

  const GenericPrefix: string := "pkg:generic/"

  /** The pattern matches `s` at `p`, with `name` and `version` as its two groups. */
  ghost predicate IsMatch(s: string, p: int, name: string, version: string)
  {
    && OccursAt(s, GenericPrefix, p)
    && name != [] && '@' !in name
    && version != [] && '?' !in version
    && var a := p + |GenericPrefix|;
       var b := a + |name| + 1;
       && b + |version| <= |s|
       && s[a..a + |name|] == name && s[a + |name|] == '@' && s[b..b + |version|] == version
       && (b + |version| == |s| || s[b + |version|] == '?')
  }

  /** The pattern does not match at `p`. */
  ghost predicate NoMatchAt(s: string, p: int)
  {
    forall name, version :: !IsMatch(s, p, name, version)
  }

  /** A match at `p` with nothing to its left. */
  ghost predicate IsLeftmostMatch(s: string, p: int, name: string, version: string)
  {
    IsMatch(s, p, name, version) && forall q :: 0 <= q < p ==> NoMatchAt(s, q)
  }

  /** At a match, the name is the run up to the first `@` after the prefix. */
  lemma NameIsRun(s: string, p: int, name: string, version: string)
    requires IsMatch(s, p, name, version)
    ensures RunLength(s, p + |GenericPrefix|, '@') == |name|
  {
    var a := p + |GenericPrefix|;
    assert forall j :: a <= j < a + |name| ==> s[j] == name[j - a];
    RunLengthExact(s, a, '@', |name|);
  }

  /** At a match, the version is the run up to the first `?` after the `@`. */
  lemma VersionIsRun(s: string, p: int, name: string, version: string)
    requires IsMatch(s, p, name, version)
    ensures RunLength(s, p + |GenericPrefix| + |name| + 1, '?') == |version|
  {
    var b := p + |GenericPrefix| + |name| + 1;
    assert forall j :: b <= j < b + |version| ==> s[j] == version[j - b];
    RunLengthExact(s, b, '?', |version|);
  }

  /** The groups the pattern captures at `p`, if it matches there. */
  function MatchAt(s: string, p: nat): (r: Option<(string, string)>)
    requires p <= |s|
    ensures r.Some? ==> IsMatch(s, p, r.value.0, r.value.1)
  {
    if !OccursAt(s, GenericPrefix, p) then None
    else
      var a := p + |GenericPrefix|;
      var n := RunLength(s, a, '@');
      if n == 0 || a + n == |s| then None
      else
        var b := a + n + 1;
        var v := RunLength(s, b, '?');
        if v == 0 then None
        else Some((s[a..a + n], s[b..b + v]))
  }

  /** MatchAt finds every match there is, so a match at `p` is unique. */
  lemma MatchAtComplete(s: string, p: nat, name: string, version: string)
    requires p <= |s| && IsMatch(s, p, name, version)
    ensures MatchAt(s, p) == Some((name, version))
  {
    NameIsRun(s, p, name, version);
    VersionIsRun(s, p, name, version);
  }

  datatype Match = Match(pos: nat, name: string, version: string)

  /** The leftmost match at or after `p`. */
  function FindFrom(s: string, p: nat): (r: Option<Match>)
    requires p <= |s|
    ensures r.Some? ==> p <= r.value.pos && IsMatch(s, r.value.pos, r.value.name, r.value.version)
    ensures r.Some? ==> forall q :: p <= q < r.value.pos ==> NoMatchAt(s, q)
    ensures r.None? ==> forall q :: p <= q ==> NoMatchAt(s, q)
    decreases |s| - p
  {
    match MatchAt(s, p)
    case Some((name, version)) => Some(Match(p, name, version))
    case None =>
      assert NoMatchAt(s, p) by {
        forall name, version | IsMatch(s, p, name, version) ensures false {
          MatchAtComplete(s, p, name, version);
        }
      }
      if p == |s| then None else FindFrom(s, p + 1)
  }

  /** regexp.FindStringSubmatch: the leftmost match, if any. */
  function FindOS(s: string): (r: Option<Match>)
    ensures r.Some? ==> IsLeftmostMatch(s, r.value.pos, r.value.name, r.value.version)
    ensures r.None? ==> forall q :: NoMatchAt(s, q)
    ensures forall p, name, version :: IsLeftmostMatch(s, p, name, version) ==> r == Some(Match(p, name, version))
  {
    var r := FindFrom(s, 0);
    assert forall q :: q < 0 ==> NoMatchAt(s, q);
    assert forall p, name, version :: IsLeftmostMatch(s, p, name, version) ==> r == Some(Match(p, name, version)) by {
      forall p, name, version | IsLeftmostMatch(s, p, name, version)
        ensures r == Some(Match(p, name, version))
      {
        assert !NoMatchAt(s, p);
        var m := r.value;
        assert !(m.pos < p) by {
          assert !NoMatchAt(s, m.pos);
        }
        assert m.pos == p;
        MatchAtComplete(s, p, name, version);
        MatchAtComplete(s, p, m.name, m.version);
      }
    }
    r
  }

  /**
   * DetectOSNameWithVersion: `name:version` of the leftmost match, or ""
   * when the pattern matches nowhere.
   */
  function DetectOSNameWithVersion(distro: string): (r: string)
    ensures (forall q :: NoMatchAt(distro, q)) <==> r == ""
    ensures forall p, name, version :: IsLeftmostMatch(distro, p, name, version) ==> r == name + ":" + version
  {
    match FindOS(distro)
    case None => ""
    case Some(m) =>
      assert !NoMatchAt(distro, m.pos);
      m.name + ":" + m.version
  }

  /** `sub` sits in `pre + sub + post` right after `pre`. */
  lemma OccursInConcat(pre: string, sub: string, post: string)
    ensures OccursAt(pre + sub + post, sub, |pre|)
  {
    assert (pre + sub + post)[|pre|..|pre| + |sub|] == sub;
  }

  /** `sub` does not start at `q` when the first characters differ. */
  lemma FirstCharDiffers(s: string, sub: string, q: int)
    requires sub != [] && 0 <= q < |s| && s[q] != sub[0]
    ensures !OccursAt(s, sub, q)
  {
    if q + |sub| <= |s| {
      assert s[q..q + |sub|][0] == s[q];
    }
  }

  /** A distro string laid out as prefix, name, `@`, version and a `?`-suffix matches after `pre`. */
  lemma MatchOfParts(pre: string, name: string, version: string, rest: string)
    requires name != [] && '@' !in name && version != [] && '?' !in version
    requires rest == [] || rest[0] == '?'
    ensures IsMatch(pre + GenericPrefix + name + "@" + version + rest, |pre|, name, version)
  {
    var s := pre + GenericPrefix + name + "@" + version + rest;
    var a := |pre| + |GenericPrefix|;
    var b := a + |name| + 1;
    assert s[|pre|..a] == GenericPrefix;
    assert s[a..a + |name|] == name;
    assert s[a + |name|] == '@';
    assert s[b..b + |version|] == version;
    assert b + |version| < |s| ==> s[b + |version|] == rest[0];
  }

  /** With no match inside `pre`, the layout of MatchOfParts gives `name:version`. */
  lemma DetectParts(pre: string, name: string, version: string, rest: string)
    requires name != [] && '@' !in name && version != [] && '?' !in version
    requires rest == [] || rest[0] == '?'
    requires forall q :: 0 <= q < |pre| ==> NoMatchAt(pre + GenericPrefix + name + "@" + version + rest, q)
    ensures DetectOSNameWithVersion(pre + GenericPrefix + name + "@" + version + rest) == name + ":" + version
  {
    MatchOfParts(pre, name, version, rest);
    assert IsLeftmostMatch(pre + GenericPrefix + name + "@" + version + rest, |pre|, name, version);
  }

  /** A distro string that starts with the pattern yields its two groups. */
  lemma DetectAnchored(name: string, version: string, rest: string)
    requires name != [] && '@' !in name && version != [] && '?' !in version
    requires rest == [] || rest[0] == '?'
    ensures DetectOSNameWithVersion(GenericPrefix + name + "@" + version + rest) == name + ":" + version
  {
    DetectParts([], name, version, rest);
    assert [] + GenericPrefix == GenericPrefix;
  }

  /** A query string after the version is not part of the identity. */
  lemma DetectUbuntu(query: string)
    requires query == [] || query[0] == '?'
    ensures DetectOSNameWithVersion(GenericPrefix + "ubuntu" + "@" + "22.04" + query) == "ubuntu" + ":" + "22.04"
  {
    assert '@' !in "ubuntu";
    assert '?' !in "22.04";
    DetectAnchored("ubuntu", "22.04", query);
  }

  lemma DetectNoMatch()
    ensures DetectOSNameWithVersion("not-a-match") == ""
  {
  }

  /** The match need not start the string, and the version may hold `@`. */
  lemma DetectUnanchored(version: string)
    requires version != [] && '?' !in version
    ensures DetectOSNameWithVersion("os=" + GenericPrefix + "alpine" + "@" + version) == "alpine" + ":" + version
  {
    var s := "os=" + GenericPrefix + "alpine" + "@" + version + [];
    forall q | 0 <= q < 3
      ensures NoMatchAt(s, q)
    {
      FirstCharDiffers(s, GenericPrefix, q);
    }
    assert '@' !in "alpine";
    DetectParts("os=", "alpine", version, []);
    assert s == "os=" + GenericPrefix + "alpine" + "@" + version;
  }

  /** An empty name or an empty version matches nothing. */
  lemma DetectEmptyName()
    ensures DetectOSNameWithVersion("pkg:generic/@x") == ""
  {
    var s := "pkg:generic/@x";
    forall q ensures NoMatchAt(s, q) {
      if 0 < q < |s| { FirstCharDiffers(s, GenericPrefix, q); }
      forall name, version | IsMatch(s, q, name, version) ensures false {
        NameIsRun(s, q, name, version);
      }
    }
  }

  lemma DetectEmptyVersion()
    ensures DetectOSNameWithVersion("pkg:generic/ubuntu@") == ""
    ensures DetectOSNameWithVersion("pkg:generic/ubuntu@?arch=amd64") == ""
  {
    var s1 := "pkg:generic/ubuntu@";
    var s2 := "pkg:generic/ubuntu@?arch=amd64";
    forall q ensures NoMatchAt(s1, q) && NoMatchAt(s2, q) {
      if 0 < q < |s1| { FirstCharDiffers(s1, GenericPrefix, q); }
      if 0 < q < |s2| { FirstCharDiffers(s2, GenericPrefix, q); }
      forall name, version | IsMatch(s1, q, name, version) ensures false {
        VersionIsRun(s1, q, name, version);
      }
      forall name, version | IsMatch(s2, q, name, version) ensures false {
        VersionIsRun(s2, q, name, version);
      }
    }
  }
}
