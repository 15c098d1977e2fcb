/**
 * logic/aggregate/aggregator.go: ProcessData folds the two syft documents
 * of one archive into the shared Stats: the base OS, one count per resolved
 * package, and the runtimes found in the packages' files.
 */
module Aggregator {
  import opened Wrappers
  import opened GoStrings
  import opened GoInts
  import opened StatsTypes
  import opened Sbom
  import opened Util
  import opened BaseOS
  import opened PackageName
  import opened PathRuntime

  const SyftPrefix: string := "syft_json_"

  /**
   * The archive a syft document describes: the text after the first
   * `syft_json_` (up to a second one, if any) cut at the first `.json`,
   * with `.tar` appended. The source indexes the split result, so a file
   * name without `syft_json_` makes it panic.
   */
  function TarImageName(fileName: string): (r: string)
    requires Contains(fileName, SyftPrefix)
    ensures |r| >= 4 && r[|r| - 4..] == ".tar"
    ensures !Contains(r[..|r| - 4], SyftPrefix)
  {
    var name := Before(SecondField(fileName, SyftPrefix), ".json");
    PrefixKeepsOccurrences(SecondField(fileName, SyftPrefix), name, SyftPrefix);
    assert (name + ".tar")[..|name|] == name;
    name + ".tar"
  }

  /**
   * `sub` does not occur in `a + b` when it does not occur in `a`, is at
   * least as long as `b`, and does not hold `b`'s first character.
   */
  lemma NoOccurrenceAcross(a: string, b: string, sub: string)
    requires !Contains(a, sub) && b != [] && b[0] !in sub && |sub| >= |b|
    ensures !Contains(a + b, sub)
  {
    if Contains(a + b, sub) {
      var q :| 0 <= q <= |a + b| && OccursAt(a + b, sub, q);
      if q + |sub| <= |a| {
        assert a[q..q + |sub|] == (a + b)[q..q + |sub|];
        assert OccursAt(a, sub, q);
      } else {
        CharOfOccurrence(a + b, sub, q, |a| - q);
      }
    }
  }

  /** The characters of an occurrence are those of `sub`. */
  lemma CharOfOccurrence(s: string, sub: string, q: int, k: int)
    requires OccursAt(s, sub, q) && 0 <= k < |sub|
    ensures s[q + k] == sub[k]
  {
    assert s[q..q + |sub|][k] == s[q + k];
  }

  /**
   * The worked example of the source's comment, for any archive name: a
   * document `<dir>/syft_json_<image>.json` describes `<image>.tar`.
   */
  lemma TarImageNameOf(pre: string, image: string)
    requires forall q :: 0 <= q < |pre| ==> !OccursAt(pre + SyftPrefix + (image + ".json"), SyftPrefix, q)
    requires !Contains(image, SyftPrefix) && !Contains(image, ".json")
    ensures Contains(pre + SyftPrefix + (image + ".json"), SyftPrefix)
            && TarImageName(pre + SyftPrefix + (image + ".json")) == image + ".tar"
  {
    var rest := image + ".json";
    assert !Contains(rest, SyftPrefix) by {
      assert '.' !in SyftPrefix;
      NoOccurrenceAcross(image, ".json", SyftPrefix);
    }
    SecondFieldJoin(pre, SyftPrefix, rest);
    assert rest == image + ".json" + [];
    var s := image + ".json" + [];
    forall q | 0 <= q < |image| ensures !OccursAt(s, ".json", q) {
      if q + 5 <= |image| {
        assert s[q..q + 5] == image[q..q + 5];
        assert !OccursAt(image, ".json", q);
      } else if q + 5 <= |s| {
        var k := |image| - q;
        assert s[q..q + 5][k] == s[|image|] == '.';
        assert ".json"[k] != '.';
      }
    }
    SplitJoin(image, ".json", []);
  }

  /** The base-OS entry a first sighting of the archive's OS creates: its human-readable image size. */
  function BaseOSFirst(baseImageSize: string -> int64, tarPath: string): Info
  {
    Info(1, HumanReadable(baseImageSize(tarPath)), "")
  }

  /** Each artifact as the pair of its decoded package name and its metadata. */
  function Keyed(artifacts: seq<Artifact>): (r: seq<(string, Metadata)>)
    ensures |r| == |artifacts|
    ensures forall i :: 0 <= i < |artifacts| ==> r[i].0 == DetectPackageName(artifacts[i].purl) && r[i].1 == artifacts[i].metadata
  {
    seq(|artifacts|, i requires 0 <= i < |artifacts| => (DetectPackageName(artifacts[i].purl), artifacts[i].metadata))
  }

  /**
   * The local `packageInfo` map built from the keyed artifacts, a later
   * pair overwriting an earlier one of the same name.
   */
  function PackageIndex(keyed: seq<(string, Metadata)>): map<string, Metadata>
    decreases |keyed|
  {
    if keyed == [] then map[]
    else PackageIndex(keyed[..|keyed| - 1])[keyed[|keyed| - 1].0 := keyed[|keyed| - 1].1]
  }

  /** Each name maps to the metadata of its last artifact. */
  lemma {:induction false} PackageIndexLastWins(keyed: seq<(string, Metadata)>, i: nat)
    requires i < |keyed|
    requires forall j :: i < j < |keyed| ==> keyed[j].0 != keyed[i].0
    ensures keyed[i].0 in PackageIndex(keyed) && PackageIndex(keyed)[keyed[i].0] == keyed[i].1
    decreases |keyed|
  {
    if i < |keyed| - 1 {
      var init := keyed[..|keyed| - 1];
      assert forall j :: i < j < |init| ==> init[j] == keyed[j];
      PackageIndexLastWins(init, i);
    }
  }

  /** The keys of `packageInfo` are exactly the decoded names. */
  lemma {:induction false} PackageIndexKeys(keyed: seq<(string, Metadata)>, name: string)
    ensures name in PackageIndex(keyed) <==> exists i :: 0 <= i < |keyed| && keyed[i].0 == name
    decreases |keyed|
  {
    if keyed != [] {
      var init := keyed[..|keyed| - 1];
      PackageIndexKeys(init, name);
      assert forall i :: 0 <= i < |init| ==> init[i] == keyed[i];
    }
  }

  /** `packageInfo[name]`: Go reads the zero Metadata for a missing name. */
  function MetaOf(index: map<string, Metadata>, name: string): Metadata
  {
    if name in index then index[name] else ZeroMetadata
  }

  /** The Info a package gets on its first sighting: count 1 and its metadata's sizes, human-readable. */
  function PackageFirst(index: map<string, Metadata>, name: string): Info
  {
    var meta := MetaOf(index, name);
    Info(1, HumanReadable(meta.size), HumanReadable(meta.installedSize))
  }

  /** A resolved package no artifact describes gets zero sizes, shown as "0B". */
  lemma UnknownPackageIsZero(index: map<string, Metadata>, name: string)
    requires name !in index
    ensures PackageFirst(index, name) == Info(1, "0B", "0B")
  {
  }

  /** The package URLs of all manifests, manifest by manifest, in iteration order. */
  function AllResolved(manifests: seq<Manifest>): seq<string>
    decreases |manifests|
  {
    if manifests == [] then [] else manifests[0].resolved + AllResolved(manifests[1..])
  }

  /** The decoded package name of each URL. */
  function Names(urls: seq<string>): (names: seq<string>)
    ensures |names| == |urls|
  {
    seq(|urls|, i requires 0 <= i < |urls| => DetectPackageName(urls[i]))
  }

  lemma NamesConcat(a: seq<string>, b: seq<string>)
    ensures Names(a + b) == Names(a) + Names(b)
  {
    assert forall i :: 0 <= i < |a| ==> (a + b)[i] == a[i];
    assert forall i :: |a| <= i < |a + b| ==> (a + b)[i] == b[i - |a|];
  }

  /** The package counts after the resolved packages, visited in order by decoded name. */
  function AddResolved(packages: map<string, Info>, index: map<string, Metadata>, names: seq<string>): map<string, Info>
    decreases |names|
  {
    if names == [] then packages
    else AddResolved(Observe(packages, names[0], PackageFirst(index, names[0])), index, names[1..])
  }

  /** How often `name` occurs in `names`. */
  function Occurrences(names: seq<string>, name: string): nat
    decreases |names|
  {
    if names == [] then 0
    else (if names[0] == name then 1 else 0) + Occurrences(names[1..], name)
  }

  /**
   * The package counts in closed form. A known package is counted once more
   * per resolved URL naming it and keeps its sizes; a new one is counted
   * once per URL naming it, with the sizes of its first sighting; every
   * other entry is untouched, and no entry is removed, so no count decreases.
   */
  lemma {:induction false} AddResolvedCounts(packages: map<string, Info>, index: map<string, Metadata>, names: seq<string>, name: string)
    ensures var r := AddResolved(packages, index, names);
      && (name in r <==> name in packages || Occurrences(names, name) > 0)
      && (name in packages ==> r[name] == packages[name].(count := packages[name].count + Occurrences(names, name)))
      && (name !in packages && Occurrences(names, name) > 0 ==> r[name] == PackageFirst(index, name).(count := Occurrences(names, name)))
    decreases |names|
  {
    if names != [] {
      AddResolvedCounts(Observe(packages, names[0], PackageFirst(index, names[0])), index, names[1..], name);
    }
  }

  /** The runtime map of one archive after DetectRuntime has run on each resolved package in turn. */
  function RuntimeFold(m: map<string, Info>, index: map<string, Metadata>, names: seq<string>): map<string, Info>
    decreases |names|
  {
    if names == [] then m
    else RuntimeFold(Apply(m, Hits(MetaOf(index, names[0]).files, "")).entries, index, names[1..])
  }

  /** The hits of all resolved packages, each package's scan starting with no runtime name. */
  function AllHits(index: map<string, Metadata>, names: seq<string>): seq<Hit>
    decreases |names|
  {
    if names == [] then []
    else Hits(MetaOf(index, names[0]).files, "") + AllHits(index, names[1..])
  }

  /**
   * While every stored size parses, the per-package calls act as one pass
   * over all the hits, so each runtime's size is its known size plus the
   * sizes of all its files, over every resolved URL (a package resolved
   * twice contributes its files twice).
   */
  lemma {:induction false} RuntimeFoldClosedForm(m: map<string, Info>, index: map<string, Metadata>, names: seq<string>)
    requires SizesParse(m)
    ensures RuntimeFold(m, index, names) == Closed(m, AllHits(index, names))
    decreases |names|
  {
    if names == [] {
      ApplyClosedForm(m, []);
    } else {
      var hits := Hits(MetaOf(index, names[0]).files, "");
      ApplyClosedForm(m, hits);
      var next := Apply(m, hits).entries;
      ClosedSizesParse(m, hits);
      RuntimeFoldClosedForm(next, index, names[1..]);
      ApplyConcat(m, hits, AllHits(index, names[1..]));
      ApplyClosedForm(m, AllHits(index, names));
      ApplyClosedForm(next, AllHits(index, names[1..]));
    }
  }

  lemma {:induction false} AllHitsConcat(index: map<string, Metadata>, a: seq<string>, b: seq<string>)
    ensures AllHits(index, a + b) == AllHits(index, a) + AllHits(index, b)
    decreases |a|
  {
    if a == [] {
      assert a + b == b;
    } else {
      assert (a + b)[0] == a[0] && (a + b)[1..] == a[1..] + b;
      AllHitsConcat(index, a[1..], b);
    }
  }

  /**
   * ProcessData. The base image's size comes from `baseImageSize`, which
   * stands for GetBaseImageSize. The per-archive runtime map is read and
   * written under the document's own file name and is never created here,
   * so the caller must have created it or no runtime file may be reached.
   */
  method ProcessData(stats: Stats, syftGithubJSONOutput: GithubSbom, syftJSONOutput: SyftJson, fileName: string,
                     individualArchivePathDir: string, baseImageSize: string -> int64)
    requires Contains(fileName, SyftPrefix)
    requires fileName in stats.runtimes.entries
             || AllHits(PackageIndex(Keyed(syftJSONOutput.artifacts)), Names(AllResolved(syftGithubJSONOutput.manifests))) == []
    modifies stats, stats.runtimes
    ensures stats.baseOS == Observe(old(stats.baseOS), DetectOSNameWithVersion(syftGithubJSONOutput.distro),
                                    BaseOSFirst(baseImageSize, individualArchivePathDir + TarImageName(fileName)))
    ensures stats.packages == AddResolved(old(stats.packages), PackageIndex(Keyed(syftJSONOutput.artifacts)),
                                          Names(AllResolved(syftGithubJSONOutput.manifests)))
    ensures fileName !in old(stats.runtimes.entries) ==> stats.runtimes.entries == old(stats.runtimes.entries)
    ensures fileName in old(stats.runtimes.entries) ==>
              stats.runtimes.entries == old(stats.runtimes.entries)[fileName :=
                RuntimeFold(old(stats.runtimes.entries)[fileName], PackageIndex(Keyed(syftJSONOutput.artifacts)),
                            Names(AllResolved(syftGithubJSONOutput.manifests)))]
  {
    var tarImageName := Before(SecondField(fileName, SyftPrefix), ".json") + ".tar";
    var osNameWithVersion := DetectOSNameWithVersion(syftGithubJSONOutput.distro);
    CountBaseOS(stats, osNameWithVersion, individualArchivePathDir + tarImageName, baseImageSize);

    var packageInfo := IndexArtifacts(syftJSONOutput.artifacts);
    CountManifests(stats, syftGithubJSONOutput.manifests, packageInfo, fileName);
  }

  /**
   * The loop of ProcessData over the manifests: every resolved URL of every
   * manifest, in order, counted as a package and scanned for runtime files.
   */
  method CountManifests(stats: Stats, manifests: seq<Manifest>, packageInfo: map<string, Metadata>, fileName: string)
    requires fileName in stats.runtimes.entries || AllHits(packageInfo, Names(AllResolved(manifests))) == []
    modifies stats, stats.runtimes
    ensures stats.baseOS == old(stats.baseOS)
    ensures stats.packages == AddResolved(old(stats.packages), packageInfo, Names(AllResolved(manifests)))
    ensures fileName !in old(stats.runtimes.entries) ==> stats.runtimes.entries == old(stats.runtimes.entries)
    ensures fileName in old(stats.runtimes.entries) ==>
              stats.runtimes.entries == old(stats.runtimes.entries)[fileName :=
                RuntimeFold(old(stats.runtimes.entries)[fileName], packageInfo, Names(AllResolved(manifests)))]
  {
    ghost var r0 := stats.runtimes.entries;
    ghost var packagesGoal := AddResolved(stats.packages, packageInfo, Names(AllResolved(manifests)));
    ghost var runtimesGoal := if fileName in r0 then RuntimeFold(r0[fileName], packageInfo, Names(AllResolved(manifests))) else map[];
    assert manifests[0..] == manifests;
    for j := 0 to |manifests|
      invariant stats.baseOS == old(stats.baseOS)
      invariant Pending(stats.packages, stats.runtimes.entries, packageInfo, fileName, Names(AllResolved(manifests[j..])),
                        packagesGoal, r0, runtimesGoal)
    {
      assert manifests[j..][1..] == manifests[j + 1..];
      NamesConcat(manifests[j].resolved, AllResolved(manifests[j + 1..]));
      AllHitsConcat(packageInfo, Names(manifests[j].resolved), Names(AllResolved(manifests[j + 1..])));
      CountResolved(stats, manifests[j].resolved, packageInfo, fileName,
                    Names(AllResolved(manifests[j + 1..])), packagesGoal, r0, runtimesGoal);
    }
    assert manifests[|manifests|..] == [];
  }

  /** The base OS counted in `stats.baseOS`: created with the image's size on its first sighting, else counted once more. */
  method CountBaseOS(stats: Stats, osNameWithVersion: string, tarPath: string, baseImageSize: string -> int64)
    modifies stats
    ensures stats.baseOS == Observe(old(stats.baseOS), osNameWithVersion, BaseOSFirst(baseImageSize, tarPath))
    ensures stats.packages == old(stats.packages)
  {
    if osNameWithVersion !in stats.baseOS {
      var bytes := baseImageSize(tarPath);
      var size := ConvertSizeBytesToHumanReadableString(bytes);
      stats.baseOS := stats.baseOS[osNameWithVersion := Info(1, size, "")];
    } else {
      var info := stats.baseOS[osNameWithVersion];
      stats.baseOS := stats.baseOS[osNameWithVersion := info.(count := info.count + 1)];
    }
  }

  /** The loop building `packageInfo`: each artifact's metadata under its package name, later artifacts winning. */
  method IndexArtifacts(artifacts: seq<Artifact>) returns (packageInfo: map<string, Metadata>)
    ensures packageInfo == PackageIndex(Keyed(artifacts))
  {
    packageInfo := map[];
    for i := 0 to |artifacts|
      invariant packageInfo == PackageIndex(Keyed(artifacts)[..i])
    {
      assert Keyed(artifacts)[..i + 1][..i] == Keyed(artifacts)[..i];
      packageInfo := packageInfo[DetectPackageName(artifacts[i].purl) := artifacts[i].metadata];
    }
    assert Keyed(artifacts)[..|artifacts|] == Keyed(artifacts);
  }

  /**
   * What is left of the package and runtime folds once `todo` remains to be
   * counted: counting `todo` from the current maps reaches the targets, and
   * only the archive's own runtime map ever differs from `r0`.
   */
  ghost predicate Pending(packages: map<string, Info>, runtimes: map<string, map<string, Info>>,
                          packageInfo: map<string, Metadata>, fileName: string, todo: seq<string>,
                          packagesGoal: map<string, Info>, r0: map<string, map<string, Info>>,
                          runtimesGoal: map<string, Info>)
  {
    && (fileName in r0 || AllHits(packageInfo, todo) == [])
    && AddResolved(packages, packageInfo, todo) == packagesGoal
    && (fileName !in r0 ==> runtimes == r0)
    && (fileName in r0 ==> (fileName in runtimes
        && runtimes == r0[fileName := runtimes[fileName]]
        && RuntimeFold(runtimes[fileName], packageInfo, todo) == runtimesGoal))
  }

  /**
   * The inner loop of ProcessData over one manifest's resolved URLs, given
   * what is left to do after it (`later`) and the outcome the whole fold
   * must reach.
   */
  method CountResolved(stats: Stats, resolved: seq<string>, packageInfo: map<string, Metadata>, fileName: string,
                       ghost later: seq<string>, ghost packagesGoal: map<string, Info>,
                       ghost r0: map<string, map<string, Info>>, ghost runtimesGoal: map<string, Info>)
    requires Pending(stats.packages, stats.runtimes.entries, packageInfo, fileName, Names(resolved) + later,
                     packagesGoal, r0, runtimesGoal)
    modifies stats, stats.runtimes
    ensures stats.baseOS == old(stats.baseOS)
    ensures Pending(stats.packages, stats.runtimes.entries, packageInfo, fileName, later, packagesGoal, r0, runtimesGoal)
  {
    ghost var names := Names(resolved);
    assert names[0..] == names;
    for r := 0 to |resolved|
      invariant stats.baseOS == old(stats.baseOS)
      invariant Pending(stats.packages, stats.runtimes.entries, packageInfo, fileName, names[r..] + later,
                        packagesGoal, r0, runtimesGoal)
    {
      NamesSuffix(resolved, r, later);
      CountOne(stats, resolved[r], packageInfo, fileName, names[r + 1..] + later, packagesGoal, r0, runtimesGoal);
    }
    assert names[|resolved|..] + later == later;
  }

  /** The names still to count, split at the next URL. */
  lemma NamesSuffix(resolved: seq<string>, r: nat, later: seq<string>)
    requires r < |resolved|
    ensures Names(resolved)[r..] + later == [DetectPackageName(resolved[r])] + (Names(resolved)[r + 1..] + later)
  {
    var names := Names(resolved);
    assert names[r] == DetectPackageName(resolved[r]);
    SuffixCons(names, r, later);
  }

  lemma SuffixCons<T>(s: seq<T>, r: nat, later: seq<T>)
    requires r < |s|
    ensures s[r..] + later == [s[r]] + (s[r + 1..] + later)
  {
    assert s[r..] == [s[r]] + s[r + 1..];
  }

  /** One resolved URL counted: its package in `stats.packages`, its runtime files in the archive's runtime map. */
  method CountOne(stats: Stats, url: string, packageInfo: map<string, Metadata>, fileName: string,
                  ghost later: seq<string>, ghost packagesGoal: map<string, Info>,
                  ghost r0: map<string, map<string, Info>>, ghost runtimesGoal: map<string, Info>)
    requires Pending(stats.packages, stats.runtimes.entries, packageInfo, fileName, [DetectPackageName(url)] + later,
                     packagesGoal, r0, runtimesGoal)
    modifies stats, stats.runtimes
    ensures stats.baseOS == old(stats.baseOS)
    ensures Pending(stats.packages, stats.runtimes.entries, packageInfo, fileName, later, packagesGoal, r0, runtimesGoal)
  {
    var packageName := DetectPackageName(url);
    ghost var todo := [packageName] + later;
    assert todo[0] == packageName && todo[1..] == later;
    CountPackage(stats, packageName, packageInfo);
    var meta := if packageName in packageInfo then packageInfo[packageName] else ZeroMetadata;
    assert meta == MetaOf(packageInfo, packageName);
    NoHitsIffNoMatch(meta.files, "");
    ghost var before := stats.runtimes.entries;
    DetectRuntime(meta, stats.runtimes, fileName);
    if fileName in r0 {
      UpdateTwice(r0, fileName, before[fileName], stats.runtimes.entries[fileName]);
    }
  }

  /**
   * One resolved package counted in `stats.packages`: created with count 1
   * and the sizes of `packageInfo[packageName]`, or counted once more.
   */
  method CountPackage(stats: Stats, packageName: string, packageInfo: map<string, Metadata>)
    modifies stats
    ensures stats.packages == Observe(old(stats.packages), packageName, PackageFirst(packageInfo, packageName))
    ensures stats.baseOS == old(stats.baseOS)
  {
    if packageName !in stats.packages {
      var meta := if packageName in packageInfo then packageInfo[packageName] else ZeroMetadata;
      var size := ConvertSizeBytesToHumanReadableString(meta.size);
      var installedSize := ConvertSizeBytesToHumanReadableString(meta.installedSize);
      stats.packages := stats.packages[packageName := Info(1, size, installedSize)];
    } else {
      var info := stats.packages[packageName];
      stats.packages := stats.packages[packageName := info.(count := info.count + 1)];
    }
  }
}
