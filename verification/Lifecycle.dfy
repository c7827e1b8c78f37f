/** DSPManager: the package lifecycle as transitions over the map of installed packages.
    A package directory on disk is an already read record (`Source`); the outcome of a
    validator run is a parameter of `Verify`. */
module Lifecycle {
  import opened Digraph
  import opened Sequences
  import opened PackageTypes
  import Graphs = PackageGraph
  import opened Wrappers

  type Packages = map<string, Package>

  /** What the file system answers to an install: does the path exist, does its manifest load,
      the directory the files were copied to (None when no repository path is set or copying
      fails), and whether the repository rescan at the end fails. */
  datatype Source = Source(exists_: bool, manifest: Option<Package>, target: Option<string>, rescanFails: bool)

  datatype Report = Report(valid: bool, critical: bool)

  datatype Outcome =
    | Ok
    | FirmwarePackageNotFound | FirmwareInvalidManifest | ManifestInvalid | AlreadyExists
    | PackageConflict | DependencyMissing | InstallFailed | PackageNotInstalled
    | UpdateFailed | PackageDisabled | DisableFailed | MetadataMissing | ValidationFailed | RescanFailed

  // ----- the rules -----

  ghost predicate LoaderTaken(p: Packages, loaderId: string) {
    exists id :: id in p && loaderId in p[id].loaderIds
  }

  predicate DependencyMet(p: Packages, dep: Dependency) {
    dep.required ==> dep.packageId in p && dep.AcceptsVersion(p[dep.packageId].version)
  }

  predicate Requires(pkg: Package, id: string) {
    exists dep :: dep in pkg.dependencies && dep.required && dep.packageId == id
  }

  ghost predicate RequiredByOther(p: Packages, id: string) {
    exists other :: other in p && other != id && Requires(p[other], id)
  }

  /** The verdict of the install checks, in the order the code makes them. */
  ghost function InstallOutcome(p: Packages, src: Source): Outcome {
    if !src.exists_ then FirmwarePackageNotFound
    else if src.manifest.None? then FirmwareInvalidManifest
    else
      var pkg := src.manifest.value;
      if pkg.packageId == "" then ManifestInvalid
      else if pkg.packageId in p then AlreadyExists
      else if exists l :: l in pkg.loaderIds && LoaderTaken(p, l) then PackageConflict
      else if exists dep :: dep in pkg.dependencies && !DependencyMet(p, dep) then DependencyMissing
      else if src.target.None? then InstallFailed
      else Ok
  }

  function Rescan(fails: bool): Outcome {
    if fails then RescanFailed else Ok
  }

  /** The rescan comes after the package is registered, so its error leaves the package installed. */
  ghost function Install(p: Packages, src: Source): (Packages, Outcome) {
    var r := InstallOutcome(p, src);
    if r != Ok then (p, r)
    else
      var pkg := src.manifest.value.(state := Installed, installPath := src.target.value);
      (p[pkg.packageId := pkg], Rescan(src.rescanFails))
  }

  ghost function Uninstall(p: Packages, id: string, rescanFails: bool): (Packages, Outcome) {
    if id !in p then (p, PackageNotInstalled)
    else if RequiredByOther(p, id) then (p, DependencyMissing)
    else (p - {id}, Rescan(rescanFails))
  }

  /** Installing over an installed id always fails, so an update only ever adds a package of
      another id. */
  ghost function Update(p: Packages, id: string, src: Source): (Packages, Outcome) {
    if id !in p then (p, PackageNotInstalled)
    else
      var (p', r) := Install(p, src);
      if r != Ok then (p', UpdateFailed) else (p', Ok)
  }

  ghost function SetState(p: Packages, id: string, s: State): Packages
    requires id in p
  {
    p[id := p[id].(state := s)]
  }

  ghost function Enable(p: Packages, id: string): (Packages, Outcome) {
    if id !in p then (p, PackageNotInstalled)
    else if p[id].state == Corrupted || p[id].state == Incompatible then (p, PackageDisabled)
    else (SetState(p, id, Enabled), Ok)
  }

  ghost function Disable(p: Packages, id: string): (Packages, Outcome) {
    if id !in p then (p, PackageNotInstalled)
    else if RequiredByOther(p, id) then (p, DisableFailed)
    else (SetState(p, id, Disabled), Ok)
  }

  ghost function Verify(p: Packages, id: string, report: Report): (Packages, Outcome) {
    if id !in p then (p, PackageNotInstalled)
    else if p[id].installPath == "" then (p, MetadataMissing)
    else if report.valid then (p, Ok)
    else (if report.critical then SetState(p, id, Corrupted) else p, ValidationFailed)
  }

  // ----- runs -----

  datatype Op =
    | DoInstall(src: Source)
    | DoUninstall(id: string, rescanFails: bool)
    | DoUpdate(id: string, src: Source)
    | DoEnable(id: string)
    | DoDisable(id: string)
    | DoVerify(id: string, report: Report)

  ghost function Step(p: Packages, op: Op): (Packages, Outcome) {
    match op
    case DoInstall(src) => Install(p, src)
    case DoUninstall(id, rescanFails) => Uninstall(p, id, rescanFails)
    case DoUpdate(id, src) => Update(p, id, src)
    case DoEnable(id) => Enable(p, id)
    case DoDisable(id) => Disable(p, id)
    case DoVerify(id, report) => Verify(p, id, report)
  }

  ghost function Run(p: Packages, ops: seq<Op>): Packages
    decreases |ops|
  {
    if ops == [] then p else Run(Step(p, ops[0]).0, ops[1..])
  }

  // ----- the lifecycle invariant -----

  function RequiredIds(deps: seq<Dependency>): (ids: seq<string>)
    ensures forall x :: x in ids <==> exists dep :: dep in deps && dep.required && dep.packageId == x
  {
    if deps == [] then []
    else
      var rest := RequiredIds(deps[1..]);
      assert deps == [deps[0]] + deps[1..];
      if deps[0].required then [deps[0].packageId] + rest else rest
  }

  function RequiredGraph(p: Packages): (g: Graph)
    ensures g.Keys == p.Keys
  {
    map id | id in p :: RequiredIds(p[id].dependencies)
  }

  function FullGraph(p: Packages): (g: Graph)
    ensures g.Keys == p.Keys
  {
    map id | id in p :: Graphs.Ids(p[id].dependencies)
  }

  ghost predicate IdsMatch(p: Packages) {
    forall id :: id in p ==> p[id].packageId == id && id != ""
  }

  ghost predicate DependenciesMet(p: Packages) {
    forall id, dep :: id in p && dep in p[id].dependencies ==> DependencyMet(p, dep)
  }

  ghost predicate LoadersDisjoint(p: Packages) {
    forall a, b, l :: a in p && b in p && a != b && l in p[a].loaderIds ==> l !in p[b].loaderIds
  }

  ghost predicate Inv(p: Packages) {
    && IdsMatch(p)
    && DependenciesMet(p)
    && LoadersDisjoint(p)
    && !HasCycle(RequiredGraph(p))
  }

  lemma RequiredEdge(p: Packages, a: string, b: string)
    ensures Edge(RequiredGraph(p), a, b) <==> a in p && b in p && Requires(p[a], b)
  {
  }

  lemma NobodyRequiresNewcomer(p: Packages, id: string, pkg: Package, a: string)
    requires DependenciesMet(p) && id !in p
    requires forall dep :: dep in pkg.dependencies ==> DependencyMet(p, dep)
    requires a in p[id := pkg]
    ensures !Requires(p[id := pkg][a], id)
  {
    var q := p[id := pkg];
    assert forall dep :: dep in q[a].dependencies ==> DependencyMet(p, dep);
  }

  lemma InstallKeepsAcyclic(p: Packages, id: string, pkg: Package)
    requires DependenciesMet(p) && id !in p && !HasCycle(RequiredGraph(p))
    requires forall dep :: dep in pkg.dependencies ==> DependencyMet(p, dep)
    ensures !HasCycle(RequiredGraph(p[id := pkg]))
  {
    var g, h := RequiredGraph(p), RequiredGraph(p[id := pkg]);
    if HasCycle(h) {
      var w :| ClosedWalk(h, w);
      forall i | 0 <= i < |w|
        ensures w[i] != id
      {
        var k := if i == 0 then |w| - 2 else i - 1;
        assert Edge(h, w[k], w[k + 1]) && w[k + 1] == w[i];
        RequiredEdge(p[id := pkg], w[k], w[k + 1]);
        NobodyRequiresNewcomer(p, id, pkg, w[k]);
      }
      forall i | 0 <= i < |w| - 1
        ensures Edge(g, w[i], w[i + 1])
      {
        assert Edge(h, w[i], w[i + 1]);
        RequiredEdge(p[id := pkg], w[i], w[i + 1]);
        RequiredEdge(p, w[i], w[i + 1]);
      }
      assert ClosedWalk(g, w);
    }
  }

  lemma RemoveKeepsAcyclic(p: Packages, id: string)
    requires !HasCycle(RequiredGraph(p))
    ensures !HasCycle(RequiredGraph(p - {id}))
  {
    var g, h := RequiredGraph(p), RequiredGraph(p - {id});
    if HasCycle(h) {
      var w :| ClosedWalk(h, w);
      forall i | 0 <= i < |w| - 1
        ensures Edge(g, w[i], w[i + 1])
      {
        assert Edge(h, w[i], w[i + 1]);
      }
      assert ClosedWalk(g, w);
    }
  }

  lemma InstallKeepsInv(p: Packages, src: Source)
    requires Inv(p)
    ensures Inv(Install(p, src).0)
  {
    if InstallOutcome(p, src) == Ok {
      var pkg := src.manifest.value.(state := Installed, installPath := src.target.value);
      InstallKeepsAcyclic(p, pkg.packageId, pkg);
      var q := p[pkg.packageId := pkg];
      forall a, dep | a in q && dep in q[a].dependencies
        ensures DependencyMet(q, dep)
      {
        assert DependencyMet(p, dep);
      }
      forall a, b, l | a in q && b in q && a != b && l in q[a].loaderIds
        ensures l !in q[b].loaderIds
      {
        if a == pkg.packageId {
          assert !LoaderTaken(p, l);
        } else if b == pkg.packageId {
          assert LoaderTaken(p, l);
        }
      }
    }
  }

  lemma UninstallKeepsInv(p: Packages, id: string, rescanFails: bool)
    requires Inv(p)
    ensures Inv(Uninstall(p, id, rescanFails).0)
  {
    if id in p && !RequiredByOther(p, id) {
      RemoveKeepsAcyclic(p, id);
      var q := p - {id};
      forall a, dep | a in q && dep in q[a].dependencies
        ensures DependencyMet(q, dep)
      {
        assert DependencyMet(p, dep);
        assert !Requires(p[a], id);
      }
    }
  }

  lemma SetStateKeepsInv(p: Packages, id: string, s: State)
    requires Inv(p) && id in p
    ensures Inv(SetState(p, id, s))
  {
    var q := SetState(p, id, s);
    assert RequiredGraph(q) == RequiredGraph(p);
    forall a, dep | a in q && dep in q[a].dependencies
      ensures DependencyMet(q, dep)
    {
      assert DependencyMet(p, dep);
    }
  }

  lemma StepKeepsInv(p: Packages, op: Op)
    requires Inv(p)
    ensures Inv(Step(p, op).0)
  {
    match op
    case DoInstall(src) => InstallKeepsInv(p, src);
    case DoUninstall(id, rescanFails) => UninstallKeepsInv(p, id, rescanFails);
    case DoUpdate(id, src) => InstallKeepsInv(p, src);
    case DoEnable(id) => if id in p { SetStateKeepsInv(p, id, Enabled); }
    case DoDisable(id) => if id in p { SetStateKeepsInv(p, id, Disabled); }
    case DoVerify(id, report) => if id in p { SetStateKeepsInv(p, id, Corrupted); }
  }

  lemma {:induction false} RunKeepsInv(p: Packages, ops: seq<Op>)
    requires Inv(p)
    ensures Inv(Run(p, ops))
    decreases |ops|
  {
    if ops != [] {
      StepKeepsInv(p, ops[0]);
      RunKeepsInv(Step(p, ops[0]).0, ops[1..]);
    }
  }

  /** When an operation reports an error although it has changed the packages: exactly if only the closing
      rescan failed or a critical finding marked a package not yet marked. */
  ghost predicate ChangesDespiteError(p: Packages, op: Op) {
    match op
    case DoInstall(src) => InstallOutcome(p, src) == Ok && src.rescanFails
    case DoUninstall(id, rescanFails) => id in p && !RequiredByOther(p, id) && rescanFails
    case DoUpdate(id, src) => id in p && InstallOutcome(p, src) == Ok && src.rescanFails
    case DoEnable(_) => false
    case DoDisable(_) => false
    case DoVerify(id, report) =>
      id in p && p[id].installPath != "" && !report.valid && report.critical && p[id].state != Corrupted
  }

  lemma ErrorsThatChange(p: Packages, op: Op)
    ensures Step(p, op).1 != Ok && Step(p, op).0 != p <==> ChangesDespiteError(p, op)
  {
    match op
    case DoInstall(src) => InstallChanges(p, src);
    case DoUpdate(id, src) => InstallChanges(p, src);
    case DoUninstall(id, _) => assert id in p ==> id !in p - {id};
    case DoEnable(_) =>
    case DoDisable(_) =>
    case DoVerify(id, _) =>
      assert id in p ==> SetState(p, id, Corrupted)[id].state == Corrupted;
      assert id in p && p[id].state == Corrupted ==> SetState(p, id, Corrupted) == p;
  }

  lemma InstallChanges(p: Packages, src: Source)
    ensures Install(p, src).0 != p <==> InstallOutcome(p, src) == Ok
    ensures InstallOutcome(p, src) == Ok ==> src.manifest.Some? && src.manifest.value.packageId !in p
  {
    var (q, _) := Install(p, src);
    assert InstallOutcome(p, src) == Ok ==> src.manifest.value.packageId in q;
  }

  /** An update leaves every installed package as it was and adds at most one, of another id; updating
      a package from a source of its own id always fails. */
  lemma UpdateOnlyAdds(p: Packages, id: string, src: Source)
    ensures var (q, r) := Update(p, id, src);
            && (forall x :: x in p ==> x in q && q[x] == p[x])
            && (q == p || (src.manifest.Some? && src.manifest.value.packageId !in p
                           && q.Keys == p.Keys + {src.manifest.value.packageId}))
            && (id in p && src.manifest.Some? && src.manifest.value.packageId == id ==> q == p && r == UpdateFailed)
            && (r == Ok ==> id in p && q != p)
  {
    InstallChanges(p, src);
  }

  /** Every reachable installation is closed under required dependencies at acceptable versions,
      shares no loader id between packages, and has no required-dependency cycle. */
  lemma ReachableInv(ops: seq<Op>)
    ensures Inv(Run(map[], ops))
  {
    var empty: Packages := map[];
    assert !HasCycle(RequiredGraph(empty));
    RunKeepsInv(empty, ops);
  }

  // ----- tearing down in resolution order -----

  /** Uninstall the listed packages one after another, every rescan succeeding; stop at the first
      refusal. */
  ghost function UninstallAll(p: Packages, order: seq<string>): (Packages, Outcome)
    decreases |order|
  {
    if order == [] then (p, Ok)
    else
      var (p', r) := Uninstall(p, order[0], false);
      if r != Ok then (p', r) else UninstallAll(p', order[1..])
  }

  lemma FullEdge(p: Packages, a: string, b: string)
    ensures Edge(FullGraph(p), a, b) <==>
            a in p && b in p && exists dep :: dep in p[a].dependencies && dep.packageId == b
  {
    if a in p {
      var deps := p[a].dependencies;
      if dep :| dep in deps && dep.packageId == b {
        var i :| 0 <= i < |deps| && deps[i] == dep;
        assert Graphs.Ids(deps)[i] == b;
      }
    }
  }

  lemma TailOfOrder(p: Packages, order: seq<string>)
    requires order != [] && DependentsFirst(FullGraph(p), order)
    ensures order[0] in p && !RequiredByOther(p, order[0])
    ensures DependentsFirst(FullGraph(p - {order[0]}), order[1..])
  {
    var x := order[0];
    var g, h := FullGraph(p), FullGraph(p - {x});
    assert x in Elements(order);
    forall a | a in p
      ensures !Requires(p[a], x)
    {
      FullEdge(p, a, x);
      assert a !in order[..0];
    }
    var rest := order[1..];
    forall j, a | 0 <= j < |rest| && Edge(h, a, rest[j])
      ensures a in rest[..j]
    {
      assert Edge(g, a, order[j + 1]);
      assert order[..j + 1] == [x] + rest[..j];
    }
    assert forall n :: n in Elements(rest) ==> n in Elements(order) && n != x;
  }

  /** Uninstalling along any dependents-first order is never refused. */
  lemma {:induction false} UninstallAllSucceeds(p: Packages, order: seq<string>)
    requires DependentsFirst(FullGraph(p), order)
    ensures UninstallAll(p, order) == (p - Elements(order), Ok)
    decreases |order|
  {
    if order == [] {
      assert p - Elements(order) == p;
    } else {
      TailOfOrder(p, order);
      UninstallAllSucceeds(p - {order[0]}, order[1..]);
      assert Elements(order) == {order[0]} + Elements(order[1..]);
      assert p - {order[0]} - Elements(order[1..]) == p - Elements(order);
    }
  }

  ghost predicate AllRequired(p: Packages) {
    forall id, dep :: id in p && dep in p[id].dependencies ==> dep.required
  }

  lemma AllRequiredGraphs(p: Packages)
    requires AllRequired(p) && !HasCycle(RequiredGraph(p))
    ensures !HasCycle(FullGraph(p))
  {
    var g, h := RequiredGraph(p), FullGraph(p);
    if HasCycle(h) {
      var w :| ClosedWalk(h, w);
      forall i | 0 <= i < |w| - 1
        ensures Edge(g, w[i], w[i + 1])
      {
        assert Edge(h, w[i], w[i + 1]);
        FullEdge(p, w[i], w[i + 1]);
        RequiredEdge(p, w[i], w[i + 1]);
      }
      assert ClosedWalk(g, w);
    }
  }

  /** The resolution order tears an installation down package by package without refusal and
      leaves exactly the packages downstream of a dependency cycle. */
  lemma Teardown(p: Packages, order: seq<string>, unresolved: seq<string>, hasCycle: bool,
                 cyclePath: seq<string>)
    requires Graphs.Resolved(FullGraph(p), order, unresolved, hasCycle, cyclePath)
    ensures UninstallAll(p, order).1 == Ok
    ensures forall id :: id in UninstallAll(p, order).0 <==> id in p && DownstreamOfCycle(FullGraph(p), id)
    ensures UninstallAll(p, order).0 == map[] <==> !HasCycle(FullGraph(p))
  {
    UninstallAllSucceeds(p, order);
    var left := p - Elements(order);
    assert forall id :: id in left <==> id in p && id in unresolved;
    if unresolved == [] {
      assert left == map[];
    } else {
      assert unresolved[0] in Elements(unresolved);
      assert unresolved[0] in left;
    }
  }

  /** From every reachable installation whose dependencies are all required ones, as the manifest
      loader makes them, the resolution order tears everything down. */
  lemma ReachableTeardown(ops: seq<Op>, order: seq<string>, unresolved: seq<string>, hasCycle: bool,
                          cyclePath: seq<string>)
    requires AllRequired(Run(map[], ops))
    requires Graphs.Resolved(FullGraph(Run(map[], ops)), order, unresolved, hasCycle, cyclePath)
    ensures UninstallAll(Run(map[], ops), order) == (map[], Ok)
  {
    var p := Run(map[], ops);
    ReachableInv(ops);
    AllRequiredGraphs(p);
    Teardown(p, order, unresolved, hasCycle, cyclePath);
  }

  lemma TwoInstalls(a: Package, b: Package) returns (ops: seq<Op>)
    requires a.packageId != "" && b.packageId != "" && a.packageId != b.packageId
    requires a.loaderIds == [] && b.loaderIds == [] && a.state == b.state == Installed
    requires forall dep :: dep in a.dependencies ==> !dep.required
    requires forall dep :: dep in b.dependencies ==> DependencyMet(map[a.packageId := a], dep)
    ensures Run(map[], ops) == map[a.packageId := a, b.packageId := b]
  {
    var first, second := Source(true, Some(a), Some(a.installPath), false), Source(true, Some(b), Some(b.installPath), false);
    ops := [DoInstall(first), DoInstall(second)];
    var p1: Packages := map[a.packageId := a];
    assert Install(map[], first) == (p1, Ok);
    assert Install(p1, second) == (p1[b.packageId := b], Ok);
    assert ops[1..][1..] == [] && ops[1..][0] == ops[1];
    assert Run(p1, ops[1..]) == p1[b.packageId := b];
  }

  /** The hypothesis on optional dependencies is needed: a reachable installation whose
      resolution order is empty. */
  lemma OptionalDependencyCycle()
    ensures exists ops :: |Run(map[], ops)| == 2 && HasCycle(FullGraph(Run(map[], ops)))
  {
    var v := Version(0, 0, 0);
    var a := Package("a", v, [Dependency("b", v, v, false)], [], Installed, "/u/a");
    var b := Package("b", v, [Dependency("a", v, v, true)], [], Installed, "/u/b");
    var ops := TwoInstalls(a, b);
    var p := map["a" := a, "b" := b];
    hide Run;
    assert Run(map[], ops) == p && |p| == 2;
    FullEdge(p, "a", "b");
    FullEdge(p, "b", "a");
    assert ClosedWalk(FullGraph(p), ["a", "b", "a"]);
  }
}
