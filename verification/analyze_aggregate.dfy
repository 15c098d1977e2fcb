/**
 * logic/analyze/aggregate.go: the per-archive statistics of one syft SBOM.
 * Each call builds a fresh Stats, records the distro once, and counts the
 * packages in their sorted order; a package's sizes come from its metadata
 * variant on the first sighting that has a supported variant.
 */
module Analyze {
  import opened Wrappers
  import opened GoInts
  import opened StatsTypes
  import opened Sbom
  import opened Util
  import Aggregator

  /**
   * The (size, installed size) a metadata variant carries: Dpkg has no
   * size and Alpm and Rpm have no installed size, so those stay 0; any
   * other variant is not decoded.
   */
  function SizesOf(metadata: PkgMetadata): Option<(int64, int64)>
  {
    match metadata
    case ApkDBEntry(size, installedSize) => Some((size, installedSize))
    case DpkgDBEntry(installedSize) => Some((0, installedSize))
    case AlpmDBEntry(size) => Some((size, 0))
    case RpmDBEntry(size) => Some((size, 0))
    case UnsupportedMetadata => None
  }

  /** The entry a package's first decoded sighting creates: count 1 and both sizes human-readable. */
  function FirstInfo(sizes: (int64, int64)): Info
  {
    Info(1, HumanReadable(sizes.0), HumanReadable(sizes.1))
  }

  /**
   * One iteration of the package loop: a known name is counted once more;
   * an unknown name with a decodable variant is created; an unknown name
   * with an unsupported variant is skipped.
   */
  function PackageStep(packages: map<string, Info>, p: Package): map<string, Info>
  {
    if p.name in packages then packages[p.name := packages[p.name].(count := packages[p.name].count + 1)]
    else match SizesOf(p.metadata)
      case None => packages
      case Some(sizes) => packages[p.name := FirstInfo(sizes)]
  }

  /** The package loop over `ps`, from `packages`. */
  function PackageStats(packages: map<string, Info>, ps: seq<Package>): map<string, Info>
    decreases |ps|
  {
    if ps == [] then packages else PackageStats(PackageStep(packages, ps[0]), ps[1..])
  }

  /** How many packages in `ps` are named `name`. */
  function Sightings(ps: seq<Package>, name: string): (n: nat)
    ensures n <= |ps|
    decreases |ps|
  {
    if ps == [] then 0 else (if ps[0].name == name then 1 else 0) + Sightings(ps[1..], name)
  }

  /** The index of the first package named `name` whose metadata variant is decoded. */
  function FirstSupported(ps: seq<Package>, name: string): (r: Option<nat>)
    ensures r.Some? ==> r.value < |ps| && ps[r.value].name == name && SizesOf(ps[r.value].metadata).Some?
    ensures r.Some? ==> forall j :: 0 <= j < r.value ==> ps[j].name != name || SizesOf(ps[j].metadata).None?
    ensures r.None? ==> forall j :: 0 <= j < |ps| ==> ps[j].name != name || SizesOf(ps[j].metadata).None?
    decreases |ps|
  {
    if ps == [] then None
    else if ps[0].name == name && SizesOf(ps[0].metadata).Some? then Some(0)
    else match FirstSupported(ps[1..], name)
      case None => None
      case Some(j) => Some(j + 1)
  }

  /** A name already counted is counted once more per sighting, whatever the variant, and keeps its sizes. */
  lemma {:induction false} PackageStatsKnown(packages: map<string, Info>, ps: seq<Package>, name: string)
    requires name in packages
    ensures var r := PackageStats(packages, ps);
      name in r && r[name] == packages[name].(count := packages[name].count + Sightings(ps, name))
    decreases |ps|
  {
    if ps != [] {
      var next := PackageStep(packages, ps[0]);
      PackageStatsKnown(next, ps[1..], name);
    }
  }

  /** A name not yet counted, with no sighting of a decoded variant, never appears. */
  lemma {:induction false} PackageStatsUnsupported(packages: map<string, Info>, ps: seq<Package>, name: string)
    requires name !in packages && FirstSupported(ps, name).None?
    ensures name !in PackageStats(packages, ps)
    decreases |ps|
  {
    if ps != [] {
      PackageStatsUnsupported(PackageStep(packages, ps[0]), ps[1..], name);
    }
  }

  /**
   * A name not yet counted whose first decoded sighting is at `i` takes
   * that sighting's sizes, and its count is the number of sightings from
   * `i` on; earlier unsupported sightings are not counted.
   */
  lemma {:induction false} PackageStatsFirstSupported(packages: map<string, Info>, ps: seq<Package>, name: string, i: nat)
    requires name !in packages && FirstSupported(ps, name) == Some(i)
    ensures var r := PackageStats(packages, ps);
      name in r && r[name] == FirstInfo(SizesOf(ps[i].metadata).value).(count := Sightings(ps[i..], name))
    decreases |ps|
  {
    var next := PackageStep(packages, ps[0]);
    if i == 0 {
      PackageStatsKnown(next, ps[1..], name);
      assert ps[0..] == ps;
    } else {
      PackageStatsFirstSupported(next, ps[1..], name, i - 1);
      assert ps[1..][i - 1..] == ps[i..];
    }
  }

  /** The sizes each variant records: Dpkg's size and Alpm's and Rpm's installed size format as "0B". */
  lemma FirstInfoOfVariant(metadata: PkgMetadata)
    ensures metadata.ApkDBEntry? ==>
              FirstInfo(SizesOf(metadata).value) == Info(1, HumanReadable(metadata.size), HumanReadable(metadata.installedSize))
    ensures metadata.DpkgDBEntry? ==>
              FirstInfo(SizesOf(metadata).value) == Info(1, "0B", HumanReadable(metadata.installedSize))
    ensures (metadata.AlpmDBEntry? || metadata.RpmDBEntry?) ==>
              FirstInfo(SizesOf(metadata).value) == Info(1, HumanReadable(metadata.size), "0B")
    ensures metadata.UnsupportedMetadata? <==> SizesOf(metadata).None?
  {
  }

  /** The type switch on a package's metadata: the sizes of a decoded variant, 0 where the variant has none. */
  method DecodeSizes(metadata: PkgMetadata) returns (decoded: bool, size: int64, installedSize: int64)
    ensures decoded <==> SizesOf(metadata).Some?
    ensures decoded ==> SizesOf(metadata).value == (size, installedSize)
  {
    decoded, size, installedSize := true, 0, 0;
    match metadata {
      case ApkDBEntry(s, installed) =>
        size := s;
        installedSize := installed;
      case DpkgDBEntry(installed) =>
        installedSize := installed;
      case AlpmDBEntry(s) =>
        size := s;
      case RpmDBEntry(s) =>
        size := s;
      case UnsupportedMetadata =>
        decoded := false;
    }
  }

  /** One iteration of the package loop, on the shared Stats. */
  method CountPackage(stats: Stats, currentPackage: Package)
    modifies stats
    ensures stats.packages == PackageStep(old(stats.packages), currentPackage)
    ensures stats.baseOS == old(stats.baseOS)
  {
    if currentPackage.name !in stats.packages {
      var decoded, size, installedSize := DecodeSizes(currentPackage.metadata);
      if !decoded {
        // the source reports the package and moves on to the next one
        return;
      }
      var sizeText := ConvertSizeBytesToHumanReadableString(size);
      var installedText := ConvertSizeBytesToHumanReadableString(installedSize);
      stats.packages := stats.packages[currentPackage.name := Info(1, sizeText, installedText)];
    } else {
      var info := stats.packages[currentPackage.name];
      stats.packages := stats.packages[currentPackage.name := info.(count := info.count + 1)];
    }
  }

  /**
   * AggregateData: a fresh Stats whose base-OS collection holds only the
   * distro's pretty name, counted once, whose runtime collection holds an
   * empty map for the archive, and whose packages are those of the SBOM
   * counted in order. The error is always nil.
   */
  method AggregateData(individualArchivesPathDir: string, archiveName: string, archiveSbom: ArchiveSbom,
                       baseImageSize: string -> int64)
    returns (stats: Stats, err: Option<string>)
    ensures fresh(stats) && fresh(stats.runtimes)
    ensures stats.baseOS == map[archiveSbom.distroPrettyName := Info(1, HumanReadable(baseImageSize(archiveName)), "")]
    ensures stats.runtimes.entries == map[archiveName := map[]]
    ensures stats.packages == PackageStats(map[], archiveSbom.packages)
    ensures err == None
  {
    stats := new Stats.NewStats();
    stats.runtimes.entries := stats.runtimes.entries[archiveName := map[]];

    var osNameWithVersion := archiveSbom.distroPrettyName;
    Aggregator.CountBaseOS(stats, osNameWithVersion, archiveName, baseImageSize);

    var ps := archiveSbom.packages;
    for i := 0 to |ps|
      invariant stats.baseOS == map[osNameWithVersion := Aggregator.BaseOSFirst(baseImageSize, archiveName)]
      invariant stats.runtimes.entries == map[archiveName := map[]]
      invariant PackageStats(stats.packages, ps[i..]) == PackageStats(map[], ps)
    {
      assert ps[i..][1..] == ps[i + 1..];
      CountPackage(stats, ps[i]);
    }
    err := None;
  }
}
