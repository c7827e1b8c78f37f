/** Records shared by the package manager, the dependency graph and the repository
    (lib/include/mbootcore/dsp/DSPTypes.hpp, DSPMetadata.hpp). */
module PackageTypes {
  import opened Bytes

  datatype Version = Version(major: uint32, minor: uint32, patch: uint32) {
    predicate Less(o: Version) {
      if major != o.major then major < o.major
      else if minor != o.minor then minor < o.minor
      else patch < o.patch
    }

    /** A bound of 0.0.0 means "no bound". */
    predicate IsBound() {
      major > 0 || minor > 0 || patch > 0
    }
  }

  /** A version as one number, its fields in decreasing weight. */
  function Number(v: Version): nat {
    (v.major * 0x1_0000_0000 + v.minor) * 0x1_0000_0000 + v.patch
  }

  /** Versions are ordered like their numbers. */
  lemma OrderIsNumeric(a: Version, b: Version)
    ensures a.Less(b) <==> Number(a) < Number(b)
    ensures a.IsBound() <==> Number(a) != 0
    ensures a == b <==> Number(a) == Number(b)
  {
  }

  datatype Dependency = Dependency(packageId: string, minVersion: Version, maxVersion: Version, required: bool) {
    predicate AcceptsVersion(v: Version) {
      && (minVersion.IsBound() ==> !v.Less(minVersion))
      && (maxVersion.IsBound() ==> !maxVersion.Less(v))
    }
  }

  datatype State = Unknown | Installed | Enabled | Disabled | Corrupted | Incompatible

  /** The part of a package record that the lifecycle rules read. */
  datatype Package = Package(
    packageId: string,
    version: Version,
    dependencies: seq<Dependency>,
    loaderIds: seq<string>,
    state: State,
    installPath: string)
}
