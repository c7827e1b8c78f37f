/** DSPManager as an object: each operation walks its lists the way the code does and is
    proved equal to the corresponding transition of `Lifecycle`. */
module PackageManager {
  import opened Digraph
  import opened Sequences
  import opened Lifecycle
  import opened PackageTypes
  import Graphs = PackageGraph
  import opened Wrappers

  class Manager {
    var packages: Packages

    constructor ()
      ensures packages == map[]
    {
      packages := map[];
    }

    method HasLoaderConflict(loaderId: string) returns (conflict: bool)
      ensures conflict <==> LoaderTaken(packages, loaderId)
    {
      var todo := packages.Keys;
      while todo != {}
        invariant todo <= packages.Keys
        invariant forall id :: id in packages.Keys - todo ==> loaderId !in packages[id].loaderIds
      {
        var id :| id in todo;
        var loaders := packages[id].loaderIds;
        for i := 0 to |loaders|
          invariant loaderId !in loaders[..i]
        {
          if loaders[i] == loaderId {
            return true;
          }
        }
        todo := todo - {id};
      }
      conflict := false;
    }

    method IsRequiredByOther(packageId: string) returns (found: bool)
      ensures found <==> RequiredByOther(packages, packageId)
    {
      var todo := packages.Keys;
      while todo != {}
        invariant todo <= packages.Keys
        invariant forall id :: id in packages.Keys - todo && id != packageId ==> !Requires(packages[id], packageId)
      {
        var id :| id in todo;
        todo := todo - {id};
        if id != packageId {
          var deps := packages[id].dependencies;
          for i := 0 to |deps|
            invariant forall k :: 0 <= k < i ==> !(deps[k].required && deps[k].packageId == packageId)
          {
            if deps[i].packageId == packageId && deps[i].required {
              assert Requires(packages[id], packageId);
              return true;
            }
          }
        }
      }
      found := false;
    }

    method DependenciesSatisfied(deps: seq<Dependency>) returns (ok: bool)
      ensures ok <==> forall dep :: dep in deps ==> DependencyMet(packages, dep)
    {
      for i := 0 to |deps|
        invariant forall k :: 0 <= k < i ==> DependencyMet(packages, deps[k])
      {
        var dep := deps[i];
        assert dep in deps;
        if dep.required {
          if dep.packageId !in packages {
            return false;
          }
          var version := packages[dep.packageId].version;
          if dep.minVersion.IsBound() && version.Less(dep.minVersion) {
            return false;
          }
          if dep.maxVersion.IsBound() && dep.maxVersion.Less(version) {
            return false;
          }
        }
      }
      ok := true;
    }

    method Install(src: Source) returns (r: Outcome)
      modifies this
      ensures (packages, r) == Lifecycle.Install(old(packages), src)
    {
      if !src.exists_ {
        return FirmwarePackageNotFound;
      }
      if src.manifest.None? {
        return FirmwareInvalidManifest;
      }
      var pkg := src.manifest.value;
      if pkg.packageId == "" {
        return ManifestInvalid;
      }
      if pkg.packageId in packages {
        return AlreadyExists;
      }
      for i := 0 to |pkg.loaderIds|
        invariant packages == old(packages)
        invariant forall k :: 0 <= k < i ==> !LoaderTaken(packages, pkg.loaderIds[k])
      {
        var conflict := HasLoaderConflict(pkg.loaderIds[i]);
        if conflict {
          return PackageConflict;
        }
      }
      var satisfied := DependenciesSatisfied(pkg.dependencies);
      if !satisfied {
        return DependencyMissing;
      }
      if src.target.None? {
        return InstallFailed;
      }
      packages := packages[pkg.packageId := pkg.(state := Installed, installPath := src.target.value)];
      if src.rescanFails {
        return RescanFailed;
      }
      r := Ok;
    }

    method Uninstall(id: string, rescanFails: bool) returns (r: Outcome)
      modifies this
      ensures (packages, r) == Lifecycle.Uninstall(old(packages), id, rescanFails)
    {
      if id !in packages {
        return PackageNotInstalled;
      }
      var required := IsRequiredByOther(id);
      if required {
        return DependencyMissing;
      }
      packages := packages - {id};
      if rescanFails {
        return RescanFailed;
      }
      r := Ok;
    }

    method Update(id: string, src: Source) returns (r: Outcome)
      modifies this
      ensures (packages, r) == Lifecycle.Update(old(packages), id, src)
    {
      if id !in packages {
        return PackageNotInstalled;
      }
      r := Install(src);
      if r != Ok {
        r := UpdateFailed;
      }
    }

    method Enable(id: string) returns (r: Outcome)
      modifies this
      ensures (packages, r) == Lifecycle.Enable(old(packages), id)
    {
      if id !in packages {
        return PackageNotInstalled;
      }
      if packages[id].state == Corrupted || packages[id].state == Incompatible {
        return PackageDisabled;
      }
      packages := packages[id := packages[id].(state := Enabled)];
      r := Ok;
    }

    method Disable(id: string) returns (r: Outcome)
      modifies this
      ensures (packages, r) == Lifecycle.Disable(old(packages), id)
    {
      if id !in packages {
        return PackageNotInstalled;
      }
      var required := IsRequiredByOther(id);
      if required {
        return DisableFailed;
      }
      packages := packages[id := packages[id].(state := Disabled)];
      r := Ok;
    }

    method Verify(id: string, report: Report) returns (r: Outcome)
      modifies this
      ensures (packages, r) == Lifecycle.Verify(old(packages), id, report)
    {
      if id !in packages {
        return PackageNotInstalled;
      }
      if packages[id].installPath == "" {
        return MetadataMissing;
      }
      if !report.valid {
        if report.critical {
          packages := packages[id := packages[id].(state := Corrupted)];
        }
        return ValidationFailed;
      }
      r := Ok;
    }

    /** One operation of a run. */
    method Perform(op: Op) returns (r: Outcome)
      modifies this
      ensures (packages, r) == Step(old(packages), op)
    {
      match op
      case DoInstall(src) => r := Install(src);
      case DoUninstall(id, rescanFails) => r := Uninstall(id, rescanFails);
      case DoUpdate(id, src) => r := Update(id, src);
      case DoEnable(id) => r := Enable(id);
      case DoDisable(id) => r := Disable(id);
      case DoVerify(id, report) => r := Verify(id, report);
    }

    /** The manager's operations one after another are a run of the transitions. */
    method PerformAll(ops: seq<Op>)
      modifies this
      ensures packages == Run(old(packages), ops)
    {
      assert ops[0..] == ops;
      for i := 0 to |ops|
        invariant Run(old(packages), ops) == Run(packages, ops[i..])
      {
        assert ops[i..][0] == ops[i] && ops[i..][1..] == ops[i + 1..];
        hide Step;
        var _ := Perform(ops[i]);
      }
      assert ops[|ops|..] == [];
    }

    method BuildGraph() returns (graph: Graphs.DependencyGraph)
      requires IdsMatch(packages)
      ensures fresh(graph) && Graphs.EdgesOf(graph.nodes) == FullGraph(packages)
    {
      graph := new Graphs.DependencyGraph();
      var todo := packages.Keys;
      while todo != {}
        invariant todo <= packages.Keys
        invariant graph.nodes.Keys == packages.Keys - todo
        invariant forall id :: id in graph.nodes ==> graph.nodes[id].dependencies == packages[id].dependencies
        invariant !graph.resolved
      {
        var id :| id in todo;
        var _ := graph.AddPackage(packages[id]);
        todo := todo - {id};
      }
      assert Graphs.EdgesOf(graph.nodes) == FullGraph(packages);
    }

    method UninstallEach(order: seq<string>) returns (r: Outcome)
      modifies this
      ensures (packages, r) == UninstallAll(old(packages), order)
    {
      r := Ok;
      assert order[0..] == order;
      for i := 0 to |order|
        invariant r == Ok
        invariant UninstallAll(old(packages), order) == UninstallAll(packages, order[i..])
      {
        assert order[i..][0] == order[i] && order[i..][1..] == order[i + 1..];
        r := Uninstall(order[i], false);
        if r != Ok {
          return;
        }
      }
      assert order[|order|..] == [];
    }

    /** Resolve the installed packages and uninstall them in resolution order. */
    method UninstallInResolutionOrder() returns (r: Outcome)
      requires Inv(packages)
      modifies this
      ensures r == Ok
      ensures forall id :: id in packages <==> id in old(packages) && DownstreamOfCycle(FullGraph(old(packages)), id)
      ensures AllRequired(old(packages)) ==> packages == map[]
    {
      var graph := BuildGraph();
      graph.Resolve();
      if packages == map[] {
        return Ok;
      }
      Teardown(packages, graph.resolutionOrder, graph.unresolved, graph.hasCycle, graph.cyclePath);
      if AllRequired(packages) {
        AllRequiredGraphs(packages);
      }
      r := UninstallEach(graph.resolutionOrder);
    }
  }
}
