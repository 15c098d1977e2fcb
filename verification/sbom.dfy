/**
 * The parsed SBOM records the core consumes. Decoding them from JSON, and
 * running the SBOM generator, happen before the core is called.
 */
module Sbom {
  import opened GoInts

  /** One installed file of a package (load.Metadata.Files). */
  datatype FileEntry = FileEntry(path: string, size: int64)

  /** The metadata of one artifact of a native syft document (load.Metadata). */
  datatype Metadata = Metadata(
    packageName: string,
    originPackage: string,
    size: int64,
    installedSize: int64,
    files: seq<FileEntry>)

  /** Go's zero value of load.Metadata, read from a map for a missing key. */
  const ZeroMetadata := Metadata("", "", 0, 0, [])

  /** One entry of load.SyftJSON.Artifacts. */
  datatype Artifact = Artifact(purl: string, metadata: Metadata)

  /** load.SyftJSON: the artifacts of a native syft document. */
  datatype SyftJson = SyftJson(artifacts: seq<Artifact>)

  /**
   * One manifest of a GitHub-style syft document. Its `resolved` map is
   * given as the sequence of its package URLs in the order Go happens to
   * iterate the map.
   */
  datatype Manifest = Manifest(resolved: seq<string>)

  /** load.SyftGithubJSON: the distro string and the manifests, in iteration order. */
  datatype GithubSbom = GithubSbom(distro: string, manifests: seq<Manifest>)

  /** The package-metadata variants the analyzer distinguishes; anything else is UnsupportedMetadata. */
  datatype PkgMetadata =
    | ApkDBEntry(size: int64, installedSize: int64)
    | DpkgDBEntry(installedSize: int64)
    | AlpmDBEntry(size: int64)
    | RpmDBEntry(size: int64)
    | UnsupportedMetadata

  /** One package of a syft SBOM. */
  datatype Package = Package(name: string, metadata: PkgMetadata)

  /** The parts of a syft SBOM the analyzer reads: the distro's pretty name and the packages in sorted order. */
  datatype ArchiveSbom = ArchiveSbom(distroPrettyName: string, packages: seq<Package>)
}
