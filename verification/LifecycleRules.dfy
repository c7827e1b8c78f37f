/** What the manager's operations answer and change, said on the fields of the packages alone. */
module LifecycleRules {
  import opened PackageTypes
  import opened Lifecycle
  import opened Wrappers

  // ----- the rules on fields -----

  /** Bounds of number zero do not bind. */
  predicate Within(v: Version, min: Version, max: Version) {
    (Number(min) == 0 || Number(min) <= Number(v)) && (Number(max) == 0 || Number(v) <= Number(max))
  }

  ghost predicate Lacks(p: Packages, pkg: Package) {
    exists dep :: dep in pkg.dependencies && dep.required &&
      (dep.packageId !in p || !Within(p[dep.packageId].version, dep.minVersion, dep.maxVersion))
  }

  ghost predicate SharesLoader(p: Packages, pkg: Package) {
    exists id, l :: id in p && l in p[id].loaderIds && l in pkg.loaderIds
  }

  ghost predicate Needed(p: Packages, id: string) {
    exists other, dep :: other in p && other != id && dep in p[other].dependencies && dep.required && dep.packageId == id
  }

  // ----- they are the rules of the transitions -----

  lemma MetIsWithin(p: Packages, dep: Dependency)
    ensures DependencyMet(p, dep) <==>
            !dep.required || (dep.packageId in p && Within(p[dep.packageId].version, dep.minVersion, dep.maxVersion))
  {
    if dep.packageId in p {
      var v := p[dep.packageId].version;
      OrderIsNumeric(v, dep.minVersion);
      OrderIsNumeric(dep.minVersion, v);
      OrderIsNumeric(dep.maxVersion, v);
      hide Number;
    }
  }

  lemma LacksIff(p: Packages, pkg: Package)
    ensures Lacks(p, pkg) <==> exists dep :: dep in pkg.dependencies && !DependencyMet(p, dep)
  {
    forall dep | dep in pkg.dependencies
      ensures DependencyMet(p, dep) <==>
              !dep.required || (dep.packageId in p && Within(p[dep.packageId].version, dep.minVersion, dep.maxVersion))
    {
      MetIsWithin(p, dep);
    }
    hide DependencyMet, Within;
  }

  lemma SharesIff(p: Packages, pkg: Package)
    ensures SharesLoader(p, pkg) <==> exists l :: l in pkg.loaderIds && LoaderTaken(p, l)
  {
  }

  lemma NeededIff(p: Packages, id: string)
    ensures Needed(p, id) <==> RequiredByOther(p, id)
  {
    if Needed(p, id) {
      var other, dep :| other in p && other != id && dep in p[other].dependencies && dep.required && dep.packageId == id;
      assert Requires(p[other], id);
    }
  }

  // ----- what the operations answer -----

  /** Whether the packages are p with exactly one more, installed at the target. */
  ghost predicate Added(p: Packages, q: Packages, pkg: Package, target: string) {
    && q.Keys == p.Keys + {pkg.packageId}
    && (forall id :: id in p && id != pkg.packageId ==> q[id] == p[id])
    && var r := q[pkg.packageId];
       && r.packageId == pkg.packageId && r.version == pkg.version && r.dependencies == pkg.dependencies
       && r.loaderIds == pkg.loaderIds && r.state == Installed && r.installPath == target
  }

  /** The verdict of an install, check by check, and its effect. */
  lemma InstallVerdict(p: Packages, src: Source)
    ensures var (q, r) := Install(p, src);
            && (r == FirmwarePackageNotFound <==> !src.exists_)
            && (r == FirmwareInvalidManifest <==> src.exists_ && src.manifest.None?)
            && (src.exists_ && src.manifest.Some? ==>
                  var pkg := src.manifest.value;
                  var fresh_ := pkg.packageId != "" && pkg.packageId !in p;
                  && (r == ManifestInvalid <==> pkg.packageId == "")
                  && (r == AlreadyExists <==> pkg.packageId != "" && pkg.packageId in p)
                  && (r == PackageConflict <==> fresh_ && SharesLoader(p, pkg))
                  && (r == DependencyMissing <==> fresh_ && !SharesLoader(p, pkg) && Lacks(p, pkg))
                  && (r == InstallFailed <==> fresh_ && !SharesLoader(p, pkg) && !Lacks(p, pkg) && src.target.None?)
                  && (r == Ok || r == RescanFailed <==>
                        fresh_ && !SharesLoader(p, pkg) && !Lacks(p, pkg) && src.target.Some?)
                  && (r == Ok || r == RescanFailed ==>
                        Added(p, q, pkg, src.target.value) && (r == RescanFailed <==> src.rescanFails)))
            && (r != Ok && r != RescanFailed ==> q == p)
  {
    if src.exists_ && src.manifest.Some? {
      LacksIff(p, src.manifest.value);
      SharesIff(p, src.manifest.value);
    }
    hide Lacks, SharesLoader, LoaderTaken, DependencyMet;
  }

  lemma UninstallVerdict(p: Packages, id: string, rescanFails: bool)
    ensures var (q, r) := Uninstall(p, id, rescanFails);
            && (r == PackageNotInstalled <==> id !in p)
            && (r == DependencyMissing <==> id in p && Needed(p, id))
            && (r == Ok || r == RescanFailed <==> id in p && !Needed(p, id))
            && (r == RescanFailed ==> rescanFails) && (r == Ok ==> !rescanFails)
            && (if r == Ok || r == RescanFailed then
                  id !in q && forall x :: x != id ==> (x in q <==> x in p) && (x in q ==> q[x] == p[x])
                else q == p)
  {
    NeededIff(p, id);
    hide Needed, RequiredByOther;
  }

  /** An update answers like an install of the source, every error as UpdateFailed, behind the check that the
      package is there. */
  lemma UpdateVerdict(p: Packages, id: string, src: Source)
    ensures var (q, r) := Update(p, id, src);
            && (r == PackageNotInstalled <==> id !in p)
            && (r == Ok <==> id in p && Install(p, src).1 == Ok)
            && (r == UpdateFailed <==> id in p && Install(p, src).1 != Ok)
            && q == if id in p then Install(p, src).0 else p
  {
    hide Install;
  }

  ghost predicate OnlyStateChanged(p: Packages, q: Packages, id: string, s: State) {
    && q.Keys == p.Keys && id in p
    && (forall x :: x in p && x != id ==> q[x] == p[x])
    && q[id] == Package(p[id].packageId, p[id].version, p[id].dependencies, p[id].loaderIds, s, p[id].installPath)
  }

  lemma EnableVerdict(p: Packages, id: string)
    ensures var (q, r) := Enable(p, id);
            if id !in p then q == p && r == PackageNotInstalled
            else if p[id].state in {Corrupted, Incompatible} then q == p && r == PackageDisabled
            else OnlyStateChanged(p, q, id, Enabled) && r == Ok
  {
  }

  lemma DisableVerdict(p: Packages, id: string)
    ensures var (q, r) := Disable(p, id);
            if id !in p then q == p && r == PackageNotInstalled
            else if Needed(p, id) then q == p && r == DisableFailed
            else OnlyStateChanged(p, q, id, Disabled) && r == Ok
  {
    NeededIff(p, id);
    hide Needed, RequiredByOther;
  }

  lemma VerifyVerdict(p: Packages, id: string, report: Report)
    ensures var (q, r) := Verify(p, id, report);
            if id !in p then q == p && r == PackageNotInstalled
            else if p[id].installPath == "" then q == p && r == MetadataMissing
            else if report.valid then q == p && r == Ok
            else if report.critical then OnlyStateChanged(p, q, id, Corrupted) && r == ValidationFailed
            else q == p && r == ValidationFailed
  {
  }

  // ----- what holds in every reachable state -----

  /** In every reachable installation each required dependency of each package is installed, its version
      number at least that of a non-zero minimum and at most that of a non-zero maximum, and no loader id
      belongs to two packages. */
  lemma ReachableBounds(ops: seq<Op>)
    ensures var p := Run(map[], ops);
            && (forall id, dep :: id in p && dep in p[id].dependencies && dep.required ==>
                  && dep.packageId in p
                  && (Number(dep.minVersion) != 0 ==> Number(dep.minVersion) <= Number(p[dep.packageId].version))
                  && (Number(dep.maxVersion) != 0 ==> Number(p[dep.packageId].version) <= Number(dep.maxVersion)))
            && (forall a, b, l :: a in p && b in p && l in p[a].loaderIds && l in p[b].loaderIds ==> a == b)
  {
    var p := Run(map[], ops);
    ReachableInv(ops);
    forall id, dep | id in p && dep in p[id].dependencies && dep.required
      ensures dep.packageId in p && Within(p[dep.packageId].version, dep.minVersion, dep.maxVersion)
    {
      MetIsWithin(p, dep);
    }
    hide Number, Run;
  }
}
