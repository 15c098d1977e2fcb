# ova-size-optimizer: the aggregation engine, in Dafny

ova-size-optimizer reads the SBOMs of the container images in an OVA and
counts which base operating systems, packages and language runtimes occur
in more than one image. This project models the in-memory part of that
pipeline and proves what it computes:

- **Identity extraction.** `BaseOS.DetectOSNameWithVersion` turns a distro
  string into `name:version`. The pattern `pkg:generic/([^@]+)@([^?]+)` is
  written out as a leftmost-match predicate. `PackageName.DetectPackageName`
  takes the last `/` segment of a package URL, drops the query and
  query-unescapes it. The decoder is `url.QueryUnescape`: `%XY` becomes a
  byte, `+` becomes a space, and a bad escape is an error. It is modelled
  next to its partner `QueryEscape`. Module `Prototypes` holds the older
  helpers of the two single-file analyzers.
- **Runtime detection, two generations.**
  - `PurlRuntime.DetectRuntime` reads `Java` / `Python` off the package URL.
    It updates a flat runtime map in place.
  - `PathRuntime.DetectRuntime` recognises runtime install paths among a
    package's files. It names the runtime by the last path segment that has
    a marker, and sums file sizes per runtime as decimal text with 64-bit
    wrap-around. It writes into the map of one archive.
- **Accumulation.**
  - `Aggregator.ProcessData` folds two syft documents into a shared `Stats`
    object.
  - `Analyze.AggregateData` builds a fresh `Stats` from one syft SBOM. It
    dispatches on the package-metadata variant to pick the sizes.
  - Both follow the same rule: create with count 1, then only increment, so
    the first sighting's sizes win. `StatsTypes.Observe` states that rule
    once.
- **Reporting.**
  - `Util.GetOnlyDuplicates` keeps the entries counted at least twice.
  - `Util.ConvertSizeBytesToHumanReadableString` formats byte counts in
    B…PB. The unit choice, float64 rounding and `%.2f` are all modelled
    exactly.
  - `Plot.PlotStats` ranks entries by count, then by key, keeps the top N,
    and lays out bars and labels.
  - `Plot.ChartFileNames` derives the three chart file names of an archive.

Go maps that a callee changes in place are classes with one map field:
`InfoMap`, `RuntimeMap`, `CountMap`, and `Stats` with its fields. Loops are
methods with invariants, proved against functions that fold the same steps
over the input. Lemmas then state the closed forms of those folds. Go
strings are `string`, one character per byte. `int64` is a subset type, and
its wrap-around is written out where the source adds sizes.

In the path-based runtime detector, a repeat hit adds the file's size to
the stored text but does not raise `Count` (logic/analyze/runtime.go:63-70);
the model does the same.
`PathRuntime.ApplyFromEmpty` proves the consequence: every runtime of a
fresh archive map ends with count 1.

## Model

| member | source | states |
|---|---|---|
| StatsTypes.Observe | logic/aggregate/aggregator.go:38-45 | An absent key gets the first Info; a present key has its count raised by exactly one and keeps both sizes; no other key changes and none is removed |
| StatsTypes.Stats.NewStats | logic/aggregate/aggregator.go:20-26 | The base-OS, package and runtime maps of a new Stats are empty, and the runtime map is a fresh object |
| StatsTypes.InfoMap.constructor | logic/aggregate/runtime.go:5 | A runtime map starts empty |
| StatsTypes.RuntimeMap.constructor | logic/analyze/runtime.go:12 | A per-archive runtime map starts empty |
| Util.GetOnlyDuplicates | logic/aggregate/util.go:17-25 | A key is kept iff its count is at least 2, and each kept entry is the input's own Info |
| Util.GetOnlyDuplicatesIdempotent | logic/aggregate/util.go:19-23 | Filtering the filtered map again changes nothing |
| Util.SeenTwiceIsDuplicate | logic/aggregate/util.go:20 | An identity created in one archive and seen again in another survives the filter with count 2 and the first sizes |
| Util.UnitIndex | logic/aggregate/util.go:35-38 | The unit is the k with 1024^k <= n < 1024^(k+1); PB from 1024^5 up; B for everything below 1024, negatives included |
| Util.Float64Of | logic/aggregate/util.go:33 | float64(n) is n itself for every magnitude below 2^53 |
| Util.Float64Threshold | logic/aggregate/util.go:35 | Rounding to float64 never moves a count across a unit threshold, so the loop's comparisons on the float agree with the exact count |
| Util.HumanReadable | logic/aggregate/util.go:30-32 | Zero is shown as "0B" |
| Util.HumanReadableUnit | logic/aggregate/util.go:40 | The text ends in the unit of the chosen scale, with at least one character before it |
| Util.ConvertSizeBytesToHumanReadableString | logic/aggregate/util.go:27-41 | The loop that divides by 1024 while the unit can grow returns HumanReadable of the count; convertBytesToHumanReadableString in oci-analyzer.go is the same text and is modelled by this method |
| Util.HumanReadableBytes | logic/aggregate/util.go:40 | 1023 bytes is "1023.00B" |
| Util.HumanReadableOneKilobyte | logic/aggregate/util.go:35-40 | 1024 bytes is "1.00KB" |
| Util.HumanReadableKilobytes | logic/aggregate/util.go:35-40 | 1536 bytes is "1.50KB" |
| Util.HumanReadableMegabytes | logic/aggregate/util.go:35-40 | 1048576 bytes is "1.00MB" |
| Util.HumanReadableRoundsUpWithinUnit | logic/aggregate/util.go:35-40 | The unit is chosen before rounding: 1048575 bytes is "1024.00KB" |
| Util.NegativeStaysInBytes | logic/aggregate/util.go:35 | A negative count is shown in B, with a minus sign |
| Util.LargeCountsInPetabytes | logic/aggregate/util.go:28 | Every count from 1024^5 on is shown in PB |
| GoInts.Wrap64 | logic/analyze/runtime.go:69 | int64 addition wraps: values in range are unchanged |
| GoInts.WrapIsMod | logic/analyze/runtime.go:69 | The wrapped value is the residue modulo 2^64 centred on zero |
| GoInts.WrapAddAssociates | logic/analyze/runtime.go:69 | Wrapping after each addition equals wrapping once at the end |
| GoInts.DigitsRoundTrip | logic/analyze/runtime.go:61 | The decimal digits of n are digits and read back as n |
| GoInts.FormatInt | logic/analyze/runtime.go:61 | strconv.FormatInt in base 10: no contract of its own; GoInts.DigitsRoundTrip and GoInts.ParseFormatRoundTrip show that ParseInt reads it back as the same int64 |
| GoInts.ParseInt | logic/analyze/runtime.go:64 | strconv.ParseInt accepts only non-empty text |
| GoInts.ParseUnsigned | logic/analyze/runtime.go:64 | A digit string below 2^63 parses to its value |
| GoInts.ParseNegative | logic/analyze/runtime.go:64 | A minus sign and digits up to 2^63 parse to the negative value |
| GoInts.ParseFormatRoundTrip | logic/analyze/runtime.go:61-69 | What strconv.FormatInt prints, strconv.ParseInt reads back as the same int64 |
| GoStrings.IndexFrom | logic/aggregate/packages.go:13 | The first occurrence of a pattern at or after a position, or none |
| GoStrings.Index | logic/aggregate/packages.go:13 | The first occurrence of a pattern, or none when it does not occur |
| GoStrings.Before | logic/aggregate/packages.go:13 | strings.Split(s, sep)[0]: a prefix of s that ends at the first occurrence, or all of s when there is none |
| GoStrings.AfterSplits | logic/aggregate/aggregator.go:33 | A string is its text before the first separator, the separator, and the text after it |
| GoStrings.SecondField | logic/aggregate/aggregator.go:33 | strings.Split(s, sep)[1] holds no separator and starts the text after the first one |
| GoStrings.SplitJoin | logic/aggregate/aggregator.go:33 | Splitting a + sep + b, where a holds no sep, gives a before and b after |
| GoStrings.LastSegment | logic/aggregate/packages.go:11-12 | The last element of a split at `/`: a suffix with no `/` |
| GoStrings.LastSegmentOfJoin | logic/aggregate/packages.go:11-12 | The last segment of prefix/segment is segment |
| GoStrings.BeforeNoSeparator | logic/aggregate/packages.go:13 | Text without the separator is its own first field |
| GoStrings.TrimPrefix | oci-analyzer.go:159 | strings.TrimPrefix removes the prefix once when it is there, and otherwise changes nothing |
| GoStrings.ReplaceAll | oci-analyzer.go:161-162 | strings.ReplaceAll: replacing by text no longer than the pattern never lengthens the string; the Prototypes.ReplaceAll* lemmas state what it does to plain text and to the two escapes |
| GoStrings.Fields | logic/analyze/runtime.go:42-44 | strings.FieldsFunc at `/`: each field is non-empty and holds no `/`; GoStrings.FieldsRun and GoStrings.FieldsJoin fix which fields they are |
| GoStrings.FieldsRun | logic/analyze/runtime.go:42-44 | A non-empty run without the separator is exactly one field |
| GoStrings.FieldsJoin | logic/analyze/runtime.go:42-44 | The fields of a + sep + b are the fields of a followed by those of b, so the fields are the path's non-empty segments in order |
| GoStrings.LexLessTotal | logic/visualize/plot.go:64 | Go's string `<` orders any two distinct strings one way |
| GoStrings.LexLessTransitive | logic/visualize/plot.go:64 | Go's string `<` is transitive |
| BaseOS.MatchAtComplete | logic/aggregate/base_os.go:6 | At a position the pattern matches, the groups are unique: the name runs to the first `@` and the version to the first `?` or the end |
| BaseOS.FindOS | logic/aggregate/base_os.go:7 | regexp.FindStringSubmatch: the leftmost match with its groups, or none when the pattern matches nowhere |
| BaseOS.DetectOSNameWithVersion | logic/aggregate/base_os.go:5-14 | "" iff the pattern matches nowhere; otherwise name + ":" + version of the leftmost match |
| BaseOS.DetectParts | logic/aggregate/base_os.go:6-11 | A string laid out as prefix, name, `@`, version and a `?`-suffix gives name:version when nothing matches earlier |
| BaseOS.DetectAnchored | logic/aggregate/base_os.go:6-11 | A distro string that starts with the pattern gives its two groups joined by `:` |
| BaseOS.DetectUbuntu | logic/aggregate/base_os.go:6-11 | `pkg:generic/ubuntu@22.04` with or without a query gives "ubuntu:22.04" |
| BaseOS.DetectNoMatch | logic/aggregate/base_os.go:8-13 | A string without the pattern gives "" |
| BaseOS.DetectUnanchored | logic/aggregate/base_os.go:7 | Text before the prefix is skipped, and the version may hold `@` |
| BaseOS.DetectEmptyName | logic/aggregate/base_os.go:6-8 | An empty name matches nothing and gives "" |
| BaseOS.DetectEmptyVersion | logic/aggregate/base_os.go:6-8 | An empty version, at the end or before `?`, matches nothing and gives "" |
| PackageName.QueryUnescape | logic/aggregate/packages.go:15-19 | url.QueryUnescape never lengthens what it decodes; PackageName.UnescapeSucceedsIff and PackageName.UnescapeError state when and how it fails, PackageName.UnescapeEscape that it inverts QueryEscape |
| PackageName.UnescapeSucceedsIff | logic/aggregate/packages.go:15-19 | url.QueryUnescape succeeds iff every `%` is followed by two hex digits |
| PackageName.UnescapeError | logic/aggregate/packages.go:15-19 | A failure reports the first bad `%` and at most the two characters after it |
| PackageName.EscapeByte | logic/aggregate/packages.go:15 | url.QueryEscape on a byte: unreserved bytes stay, a space becomes `+`, anything else becomes `%XY` with the byte's value |
| PackageName.QueryEscape | logic/aggregate/packages.go:15 | An escaped string holds no `/` and no `?` |
| PackageName.UnescapeEscape | logic/aggregate/packages.go:15 | url.QueryUnescape undoes url.QueryEscape on every byte string |
| PackageName.UnescapePlain | logic/aggregate/packages.go:15 | Text with no `%` and no `+` unescapes to itself |
| PackageName.DetectPackageName | logic/aggregate/packages.go:10-22 | The name is never longer than the URL's last `/` segment. With PackageName.SegmentName, PackageName.DetectBadEscape, PackageName.DetectDropsQuery, PackageName.DetectQueryWithSlash and PackageName.NameIsLastSegmentOnly: it is the unescaped text of the whole URL's last segment before its first `?`, or "" when that text has a bad escape |
| PackageName.NameIsLastSegmentOnly | logic/aggregate/packages.go:11-12 | URLs with the same last segment have the same name |
| PackageName.DetectEscapedName | logic/aggregate/packages.go:10-22 | A URL whose last segment is QueryEscape(name) yields name exactly |
| PackageName.DetectPlainName | logic/aggregate/packages.go:10-22 | A segment with no `%`, `+` or `?` is the name as it stands |
| PackageName.DetectDropsQuery | logic/aggregate/packages.go:13 | A query of the last segment that holds no `/` plays no part in the name |
| PackageName.DetectQueryWithSlash | logic/aggregate/packages.go:11-13 | The URL is split at `/` before the query is cut off, so a `/` in the query decides the name: a plain text after the query's last `/` is the name, as `pkg:maven/g/a@1?repository_url=https://repo/maven2` gives `maven2` |
| PackageName.DetectBadEscape | logic/aggregate/packages.go:15-19 | A segment with a bad escape gives "" |
| PackageName.SegmentName | logic/aggregate/packages.go:10-22 | For a segment without `/` and `?` that unescapes, the name is the unescaped segment |
| PackageName.DetectEscapedPlus | logic/aggregate/packages.go:15 | `%2B` between plain parts decodes to `+`, as in `pkg:npm/foo%2Bbar@1.0.0` giving `foo+bar@1.0.0` |
| PackageName.DetectBarePlus | logic/aggregate/packages.go:15 | A bare `+` between plain parts decodes to a space |
| PurlRuntime.IsJavaFamily | logic/aggregate/runtime.go:7 | The Java-family test of the URL: no contract of its own; PurlRuntime.RuntimeOf, PurlRuntime.MavenJdkIsJava and PurlRuntime.JavaIsNeverPython state its effect |
| PurlRuntime.RuntimeOf | logic/aggregate/runtime.go:6-17 | "Java" iff the URL is Java-family and mentions jre or jdk; "Python" iff it is not Java-family, is a python package and mentions cpython; "" otherwise |
| PurlRuntime.DetectRuntime | logic/aggregate/runtime.go:5-28 | Without a runtime the map is unchanged; otherwise only that runtime's entry changes: created as count 1 with size "0", or its count raised by one with the size kept |
| PurlRuntime.MavenJdkIsJava | logic/aggregate/runtime.go:7-9 | A Maven URL mentioning jdk is Java whatever else it mentions |
| PurlRuntime.JavaIsNeverPython | logic/aggregate/runtime.go:7-11 | A Java-family URL is never counted as Python |
| PathRuntime.JvmThenIff | logic/analyze/runtime.go:15-16 | The matcher for `/usr/lib/jvm/.*<dir>` holds iff the JVM directory occurs and `dir` follows it with no line break between |
| PathRuntime.DirFromSound | logic/analyze/runtime.go:15-16 | `.*<dir>` matching from q finds dir after q without crossing a line break |
| PathRuntime.DirFromComplete | logic/analyze/runtime.go:15-16 | Every such occurrence of dir is found |
| PathRuntime.IsRuntimePath | logic/analyze/runtime.go:15-17 | The three install-location patterns: no contract of its own; PathRuntime.JvmThenIff, PathRuntime.DirFromSound and PathRuntime.DirFromComplete show that the two JVM tests are the regexps, and `/usr/bin/python.*` needs only its literal part |
| PathRuntime.LastMarkedNone | logic/analyze/runtime.go:46-54 | With no marker in any segment, the runtime name of the previous file carries over |
| PathRuntime.LastMarkedIsLast | logic/analyze/runtime.go:46-54 | The runtime name is the last segment with a jdk, jre, python, rust or golang marker |
| PathRuntime.LastMarkedSegment | logic/analyze/runtime.go:46-54 | The segment loop computes LastMarked |
| PathRuntime.Hits | logic/analyze/runtime.go:35-55 | The matching files in order, each with the runtime name in force after its path: no contract of its own; PathRuntime.NoHitsIffNoMatch and PathRuntime.LastMarkedIsLast state what it yields |
| PathRuntime.NoHitsIffNoMatch | logic/analyze/runtime.go:35-38 | A package has a runtime hit iff one of its files has a runtime install path |
| PathRuntime.Step | logic/analyze/runtime.go:56-70 | One hit changes only its runtime's entry and adds its key; a known runtime keeps its count; it fails iff the stored size does not parse |
| PathRuntime.DetectRuntime | logic/analyze/runtime.go:12-74 | Only runtimes[fileName] changes, to the result of applying the package's hits in order; with no such map and no runtime file nothing changes |
| PathRuntime.Apply | logic/analyze/runtime.go:56-70 | The hits folded by Step, stopping at the first size that does not parse: no contract of its own; PathRuntime.ApplyClosedForm, PathRuntime.ApplyFromEmpty and PathRuntime.ApplyConcat state its result |
| PathRuntime.ApplyClosedForm | logic/analyze/runtime.go:56-70 | While stored sizes parse, a known runtime gets the sizes of its hits added and keeps its count, a new one gets count 1 and the sum of its hits, and processing never stops early |
| PathRuntime.ApplyFromEmpty | logic/analyze/runtime.go:56-70 | From an empty archive map every runtime hit ends with count 1 and the wrapped sum of its files' sizes, and the parse failure is unreachable |
| PathRuntime.ApplyConcat | logic/analyze/runtime.go:35-72 | Hits processed in two batches, the first complete, are the hits processed at once |
| PathRuntime.AddSizeTwice | logic/analyze/runtime.go:64-69 | Adding two sizes in turn to the stored text is adding their sum once |
| PathRuntime.AddToNew | logic/analyze/runtime.go:59-69 | Adding to a new runtime's size is creating it with the sum |
| PathRuntime.ClosedSizesParse | logic/analyze/runtime.go:61-69 | Every size the detector stores parses again |
| PathRuntime.SumForAbsent | logic/analyze/runtime.go:56-70 | A runtime no hit names gains nothing |
| Aggregator.TarImageName | logic/aggregate/aggregator.go:33 | The archive name ends in ".tar" and holds no `syft_json_` before it; the source panics on a name without `syft_json_` |
| Aggregator.TarImageNameOf | logic/aggregate/aggregator.go:30-33 | `<dir>/syft_json_<image>.json` names `<image>.tar` for every image without `syft_json_` and `.json`, dots allowed |
| Aggregator.Keyed | logic/aggregate/aggregator.go:48-50 | Each artifact is paired with its decoded package name and its metadata |
| Aggregator.PackageIndex | logic/aggregate/aggregator.go:47-51 | The packageInfo map: no contract of its own; Aggregator.PackageIndexLastWins and Aggregator.PackageIndexKeys state its keys and values |
| Aggregator.PackageIndexLastWins | logic/aggregate/aggregator.go:47-51 | In packageInfo, a name maps to the metadata of its last artifact |
| Aggregator.PackageIndexKeys | logic/aggregate/aggregator.go:47-51 | The keys of packageInfo are exactly the decoded artifact names |
| Aggregator.IndexArtifacts | logic/aggregate/aggregator.go:47-51 | The loop builds PackageIndex of the keyed artifacts |
| Aggregator.UnknownPackageIsZero | logic/aggregate/aggregator.go:59-60 | A resolved package no artifact describes gets the zero Metadata, shown as "0B" twice |
| Aggregator.AddResolved | logic/aggregate/aggregator.go:53-65 | The package fold over resolved names: no contract of its own; Aggregator.AddResolvedCounts gives its closed form |
| Aggregator.RuntimeFold | logic/aggregate/aggregator.go:66 | The runtime fold over resolved names: no contract of its own; Aggregator.RuntimeFoldClosedForm gives its closed form |
| Aggregator.AddResolvedCounts | logic/aggregate/aggregator.go:53-65 | A known package gains one count per resolved URL naming it and keeps its sizes; a new one gets that many counts and its first sizes; an entry is present iff it was or some URL names it |
| Aggregator.RuntimeFoldClosedForm | logic/aggregate/aggregator.go:66 | While stored sizes parse, the per-package runtime calls equal one pass over all their hits in closed form |
| Aggregator.CountBaseOS | logic/aggregate/aggregator.go:38-45 | The base OS is observed with the image's human-readable size as its first Info; packages are untouched |
| Aggregator.CountPackage | logic/aggregate/aggregator.go:56-64 | The package is observed with the sizes of packageInfo[name] as its first Info; base OS is untouched |
| Aggregator.CountOne | logic/aggregate/aggregator.go:55-66 | One resolved URL moves the package and runtime folds one step towards their targets |
| Aggregator.CountResolved | logic/aggregate/aggregator.go:54-67 | The inner loop moves both folds past one manifest's URLs |
| Aggregator.CountManifests | logic/aggregate/aggregator.go:53-68 | Packages become AddResolved over all resolved names; only runtimes[fileName] changes, to the runtime fold over them |
| Aggregator.ProcessData | logic/aggregate/aggregator.go:28-69 | Base OS observed once with the archive's size; packages folded over every resolved URL with packageInfo's sizes; runtimes[fileName] folded with the path-based detector; nothing else changes |
| Analyze.SizesOf | logic/analyze/aggregate.go:46-65 | The sizes the type switch reads off each metadata variant: no contract of its own; Analyze.FirstInfoOfVariant and Analyze.DecodeSizes state them |
| Analyze.PackageStep | logic/analyze/aggregate.go:45-75 | One loop iteration: no contract of its own; Analyze.CountPackage is proved against it |
| Analyze.PackageStats | logic/analyze/aggregate.go:44-75 | The package loop as a fold: no contract of its own; Analyze.PackageStatsKnown, Analyze.PackageStatsUnsupported and Analyze.PackageStatsFirstSupported give its closed form |
| Analyze.Sightings | logic/analyze/aggregate.go:44 | The number of packages with a name is at most the number of packages |
| Analyze.FirstSupported | logic/analyze/aggregate.go:44-71 | The first package with the name and a decoded variant, and no such package before it; none iff there is none at all |
| Analyze.PackageStatsKnown | logic/analyze/aggregate.go:45-75 | A name already present gains one count per sighting, whatever its variant, and keeps its sizes |
| Analyze.PackageStatsUnsupported | logic/analyze/aggregate.go:62-64 | A new name with no decoded sighting never appears |
| Analyze.PackageStatsFirstSupported | logic/analyze/aggregate.go:44-75 | A new name takes the sizes of its first decoded sighting and counts the sightings from there on |
| Analyze.FirstInfoOfVariant | logic/analyze/aggregate.go:49-61 | Apk gives both sizes; Dpkg's size and Alpm's and Rpm's installed size show as "0B"; only an unsupported variant is not decoded |
| Analyze.DecodeSizes | logic/analyze/aggregate.go:46-65 | The type switch decodes exactly the four variants, with the sizes SizesOf gives |
| Analyze.CountPackage | logic/analyze/aggregate.go:45-75 | One loop iteration is one PackageStep: count again, create from the decoded sizes, or skip |
| Analyze.AggregateData | logic/analyze/aggregate.go:30-96 | A fresh Stats with one base OS (count 1, image size), one empty runtime map for the archive, packages folded in sorted order, and a nil error |
| Plot.RankTotal | logic/visualize/plot.go:62-67 | Two entries with different keys are ordered one way |
| Plot.RankAsymmetric | logic/visualize/plot.go:62-67 | No two entries are ordered both ways |
| Plot.RankTransitive | logic/visualize/plot.go:62-67 | The ranking order is transitive |
| Plot.Insert | logic/visualize/plot.go:62-67 | Inserting keeps every entry and adds the new one |
| Plot.InsertRanked | logic/visualize/plot.go:62-67 | Inserting a new key into a ranked list keeps it ranked |
| Plot.Rank | logic/visualize/plot.go:62-67 | The ranking is a permutation of the entries |
| Plot.RankSorts | logic/visualize/plot.go:62-67 | Entries with distinct keys rank into a strictly ordered permutation |
| Plot.RankedUnique | logic/visualize/plot.go:62-67 | Two strictly ordered permutations of the same entries are equal, so the chart does not depend on map order |
| Plot.CollectEntries | logic/visualize/plot.go:57-60 | One entry per key with its own count, keys distinct |
| Plot.SortEntries | logic/visualize/plot.go:62-67 | The entries sorted by count descending, ties by key ascending, as a permutation |
| Plot.Bars | logic/visualize/plot.go:75-80 | Label i and bar i come from entry i |
| Plot.TopEntries | logic/visualize/plot.go:69-80 | The first min(topN, n) entries of the ranking, laid out as labels and bars, show the top of the collection |
| Plot.PlotStats | logic/visualize/plot.go:44-80 | No chart iff the collection is empty; otherwise min(topN, n) bars, each a key with its own count, distinct, in rank order, and every key left out ranks below every key shown |
| Plot.TrimTrailingSlashes | logic/visualize/plot.go:25 | The path's prefix without trailing slashes |
| Plot.Base | logic/visualize/plot.go:25 | filepath.Base is never empty and holds no `/` unless it is "/" |
| Plot.BaseOfFile | logic/visualize/plot.go:25 | The base of dir/file is file |
| Plot.ChartPrefix | logic/visualize/plot.go:25-26 | The chart prefix holds no `.` |
| Plot.FirstDotField | logic/visualize/plot.go:26 | The first `.`-field of name.ext is name |
| Plot.ChartPrefixOfFile | logic/visualize/plot.go:25-26 | The prefix of dir/name.ext is name |
| Plot.ChartFileNames | logic/visualize/plot.go:25-35 | Three chart names, pairwise distinct, so no chart of an archive overwrites another |
| Plot.ChartFilesOfArchive | logic/visualize/plot.go:27-35 | The charts of dir/name.ext are name-stats-base-os.png, name-stats-packages.png and name-stats-runtimes.png |
| Prototypes.ExtractOSNameAndVersion | oci-analyzer.go:127-136 | ("", "") iff the pattern matches nowhere; otherwise the groups of the leftmost match, the name non-empty without `@` and the version non-empty without `?`; the copy in syft-analyzer.go is the same text |
| Prototypes.OSIdentityJoinsGroups | logic/aggregate/base_os.go:9-11 | The newer identity is the prototype's two groups joined by `:` |
| Prototypes.LanguageOf | oci-analyzer.go:140-146 | "Java" iff Java-family; "Python" iff not Java-family and a python package; "" otherwise |
| Prototypes.RuntimeImpliesLanguage | oci-analyzer.go:140-150 | A runtime is only counted with the language of the same name |
| Prototypes.Increment | oci-analyzer.go:141 | `m[key]++` adds the key with 1 or raises it by one, and changes no other key |
| Prototypes.DetectLanguageAndRuntime | oci-analyzer.go:139-152 | Each map gets its family's count raised once when there is one; with one map for both, both increments land in it; the copy in syft-analyzer.go is the same text |
| Prototypes.OneLanguagePerCall | oci-analyzer.go:139-152 | A call raises at most one language, by exactly one, and no other |
| Prototypes.ExtractPackageName | oci-analyzer.go:156-163 | extractPackageName: no contract of its own; Prototypes.ExtractHasNoQuery, Prototypes.ExtractPlain, Prototypes.ExtractDecodesPlus, Prototypes.ExtractDecodesSlash and Prototypes.ExtractKeepsOtherEscapes state what it returns; the copy in syft-analyzer.go:117-126 is the same text |
| Prototypes.ReplaceAllKeepsOut | oci-analyzer.go:161-162 | strings.ReplaceAll brings in no character that is in neither the text nor the replacement |
| Prototypes.ReplaceAllAbsent | oci-analyzer.go:161-162 | Text without the pattern's first character is not changed |
| Prototypes.ReplaceAllPlainPrefix | oci-analyzer.go:161-162 | A prefix without the pattern's first character passes through |
| Prototypes.ExtractHasNoQuery | oci-analyzer.go:157-163 | The cleaned name holds no `?`, in both copies of the function |
| Prototypes.ExtractPlain | syft-analyzer.go:117-126 | A URL with no `?`, no leading `pkg:` and no `%` comes back unchanged |
| Prototypes.ExtractDecodesPlus | oci-analyzer.go:161 | `pkg:` + a + `%2B` + b cleans to a + `+` + b |
| Prototypes.ExtractDecodesSlash | oci-analyzer.go:162 | `pkg:` + a + `%2F` + b cleans to a + `/` + b |
| Prototypes.ExtractKeepsOtherEscapes | oci-analyzer.go:161-162 | A single escape other than `%2B` and `%2F`, in text with no other `%` and no `?`, is left encoded |

## Left out

- Reading and decoding JSON, running the SBOM generator, image extraction and copying, and
  writing charts. These are I/O and foreign library calls. The parsed records are the datatypes
  of module `Sbom`.
- GetBaseImageSize is not defined in any of these files. It is a parameter `baseImageSize` of
  `ProcessData` and `AggregateData`.
- GetOnlyDuplicatesRuntimes is not defined in any of these files either. The `GenerateReport`
  loop that calls it and `PlotStats` is not modelled; the chart names it derives are
  (`Plot.ChartFileNames`).
- The `analyze` package uses `ConvertSizeBytesToHumanReadableString` and `GetOnlyDuplicates`,
  but their text is not in these files. The model takes them to be the `aggregate` ones.
- `Packages.Sorted()` of the syft library is taken as given. `ArchiveSbom.packages` is the
  sorted sequence.
- Go's map iteration order is unspecified. The resolved-package map of each manifest is a
  sequence in iteration order. `PlotStats` visits its map in an arbitrary order, a `:|` choice;
  `Plot.RankedUnique` shows that the order does not matter.
- `sort.Slice` sorts in place. The model ranks by a verified insertion sort on a sequence
  (`Plot.Rank`). The comparator is a strict total order on distinct keys, so every correct sort
  gives the same result.
- Bars are `float64` in the source. Here they are integer counts, which float64 holds exactly
  for any realistic count. The chart's drawing, title and saving are left out.
- `ProcessData` calls `DetectRuntime(packageInfo[packageName], stats.Runtimes, fileName)`. That
  has the argument shape of the path-based detector, not of the same-package one, and does not
  compile as written. It is modelled by the path-based detector, with a precondition: the
  archive's runtime map exists, or no resolved package has a runtime file. Go would panic
  writing into the missing map.
- `Aggregator.TarImageName` requires `syft_json_` in the file name, because the source panics
  on the index otherwise.
- `Plot.PlotStats` requires a non-negative `topN`, because `ss[:topN]` panics otherwise.
- Info counts are unbounded integers. Go's `int` could overflow only after 2^63 sightings.
- Entries are held by value, so sharing an `*Info` between maps is not modelled. The only
  sharing, the one in `GetOnlyDuplicates`, is never written through afterwards.
- Several loop bodies are separate methods, each proved against the same fold step.
  `CountBaseOS`, `CountPackage`, `CountOne` and `CountResolved` are in `Aggregator`;
  `DecodeSizes` and `CountPackage` are in `Analyze`; `CollectEntries`, `SortEntries` and `Bars`
  are in `Plot`; `LastMarkedSegment` is in `PathRuntime`.
- `DebugMapPrint`, every `fmt` diagnostic and the `main` functions of the two prototypes are
  output or argument handling.
- Util.HumanReadableUnit: the unit suffix is a lemma, not a postcondition of `HumanReadable`.
  This keeps the formatter's arithmetic out of every proof that only carries a formatted size.
- Prototypes.ExtractPackageName: `ReplaceAll` is stated through lemmas about its effect on
  plain text and on the two escapes, not through a full characterisation of every input.
