/** DSPDependencyGraph: cycle detection by depth-first search and Kahn ordering,
    dependents first. Iteration over a hash map is an arbitrary choice, so every
    result below holds for every iteration order. */
module PackageGraph {
  import opened DepthFirst
  import opened Digraph
  import opened Sequences
  import opened PackageTypes

  datatype DependencyNode = DependencyNode(
    version: Version, installed: bool, enabled: bool, dependencies: seq<Dependency>, requiredBy: seq<string>)

  datatype Status = Ok | InvalidArgument | AlreadyExists | NotFound

  function Ids(deps: seq<Dependency>): (ids: seq<string>)
    ensures |ids| == |deps|
    ensures forall i :: 0 <= i < |deps| ==> ids[i] == deps[i].packageId
  {
    seq(|deps|, i requires 0 <= i < |deps| => deps[i].packageId)
  }

  function EdgesOf(nodes: map<string, DependencyNode>): (g: Graph)
    ensures g.Keys == nodes.Keys
  {
    map id | id in nodes :: Ids(nodes[id].dependencies)
  }

  predicate Unlinked(nodes: map<string, DependencyNode>) {
    forall id :: id in nodes ==> nodes[id].requiredBy == []
  }

  /** The list without an id, as std::remove leaves it. */
  function Without(ids: seq<string>, id: string): (r: seq<string>)
    ensures forall x :: x in r <==> x in ids && x != id
  {
    if ids == [] then []
    else (if ids[0] == id then [] else [ids[0]]) + Without(ids[1..], id)
  }

  /** What one dependency entry of a removed package does to the nodes. */
  function Unlink(nodes: map<string, DependencyNode>, dep: string, id: string): map<string, DependencyNode> {
    if dep in nodes then nodes[dep := nodes[dep].(requiredBy := Without(nodes[dep].requiredBy, id))] else nodes
  }

  function UnlinkAll(nodes: map<string, DependencyNode>, deps: seq<Dependency>, id: string): (r: map<string, DependencyNode>)
    ensures r.Keys == nodes.Keys
    ensures Unlinked(nodes) ==> r == nodes
  {
    if deps == [] then nodes
    else Unlink(UnlinkAll(nodes, deps[..|deps| - 1], id), deps[|deps| - 1].packageId, id)
  }

  // ----- in-degrees -----

  /** Number of dependency entries that nodes of `from` hold on n, repeats counted. */
  ghost function Incoming(g: Graph, from: set<string>, n: string): nat
    requires from <= g.Keys
  {
    if from == {} then 0
    else
      var a :| a in from;
      multiset(g[a])[n] + Incoming(g, from - {a}, n)
  }

  lemma {:induction false} IncomingSplit(g: Graph, from: set<string>, a: string, n: string)
    requires from <= g.Keys && a in from
    ensures Incoming(g, from, n) == multiset(g[a])[n] + Incoming(g, from - {a}, n)
    decreases |from|
  {
    var b :| b in from && Incoming(g, from, n) == multiset(g[b])[n] + Incoming(g, from - {b}, n);
    if b != a {
      IncomingSplit(g, from - {b}, a, n);
      IncomingSplit(g, from - {a}, b, n);
      assert from - {b} - {a} == from - {a} - {b};
    }
  }

  lemma {:induction false} NoIncoming(g: Graph, from: set<string>, n: string)
    requires from <= g.Keys
    ensures Incoming(g, from, n) == 0 <==> forall a :: a in from ==> n !in g[a]
    decreases |from|
  {
    if from != {} {
      var b :| b in from && Incoming(g, from, n) == multiset(g[b])[n] + Incoming(g, from - {b}, n);
      NoIncoming(g, from - {b}, n);
      assert forall a :: a in from <==> a == b || a in from - {b};
      assert n in g[b] <==> multiset(g[b])[n] > 0;
    }
  }

  /** The inner loop: one node's dependency entries. */
  method CountEntries(deps: seq<string>, inDegree0: map<string, int>) returns (inDegree: map<string, int>)
    ensures inDegree.Keys == inDegree0.Keys
    ensures forall n :: n in inDegree ==> inDegree[n] == inDegree0[n] + multiset(deps)[n]
  {
    inDegree := inDegree0;
    for i := 0 to |deps|
      invariant inDegree.Keys == inDegree0.Keys
      invariant forall n :: n in inDegree ==> inDegree[n] == inDegree0[n] + multiset(deps[..i])[n]
    {
      assert deps[..i + 1] == deps[..i] + [deps[i]];
      if deps[i] in inDegree {
        inDegree := inDegree[deps[i] := inDegree[deps[i]] + 1];
      }
    }
    assert deps[..|deps|] == deps;
  }

  method CountInDegrees(g: Graph) returns (inDegree: map<string, int>)
    ensures inDegree.Keys == g.Keys
    ensures forall n :: n in g ==> inDegree[n] == Incoming(g, g.Keys, n)
  {
    inDegree := map n | n in g :: 0;
    var todo := g.Keys;
    ghost var counted: set<string> := {};
    while todo != {}
      invariant counted <= g.Keys && todo == g.Keys - counted
      invariant inDegree.Keys == g.Keys
      invariant forall n :: n in g ==> inDegree[n] == Incoming(g, counted, n)
    {
      var id :| id in todo;
      inDegree := CountEntries(g[id], inDegree);
      forall n | n in g
        ensures inDegree[n] == Incoming(g, counted + {id}, n)
      {
        IncomingSplit(g, counted + {id}, id, n);
        assert counted + {id} - {id} == counted;
      }
      counted := counted + {id};
      todo := todo - {id};
    }
    assert counted == g.Keys;
  }

  // ----- Kahn's algorithm -----

  /** Between two dependency entries of the node being processed: `pending` holds its entries
      not yet discounted. */
  ghost predicate KahnInv(g: Graph, inDegree: map<string, int>, order: seq<string>, queue: seq<string>,
                          pending: seq<string>)
  {
    && DependentsFirst(g, order)
    && Distinct(order + queue)
    && Elements(queue) <= g.Keys
    && inDegree.Keys == g.Keys
    && (forall n :: n in g ==>
          inDegree[n] == Incoming(g, g.Keys - Elements(order), n) + multiset(pending)[n])
    && (forall n :: n in g ==> (n in order + queue <==> inDegree[n] == 0))
  }

  /** Dependents first, and every node left out still waits for a node left out. */
  ghost predicate IsKahnOrder(g: Graph, order: seq<string>) {
    && DependentsFirst(g, order)
    && forall n {:trigger HasDependentIn(g, g.Keys - Elements(order), n)} ::
         n in g.Keys - Elements(order) ==> HasDependentIn(g, g.Keys - Elements(order), n)
  }

  lemma InitKeepsInv(g: Graph, inDegree: map<string, int>, queue: seq<string>)
    requires inDegree.Keys == g.Keys && Distinct(queue)
    requires forall n :: n in g ==> inDegree[n] == Incoming(g, g.Keys, n)
    requires forall n :: n in queue <==> n in g && inDegree[n] == 0
    ensures KahnInv(g, inDegree, [], queue, [])
  {
    var none: seq<string> := [];
    assert g.Keys - Elements(none) == g.Keys;
    assert none + queue == queue;
  }

  lemma PopKeepsInv(g: Graph, inDegree: map<string, int>, order: seq<string>, queue: seq<string>)
    requires KahnInv(g, inDegree, order, queue, []) && queue != []
    ensures queue[0] in g && queue[0] !in order
    ensures KahnInv(g, inDegree, order + [queue[0]], queue[1..], g[queue[0]])
    ensures g.Keys - Elements(order + [queue[0]]) < g.Keys - Elements(order)
  {
    var id := queue[0];
    var rest := g.Keys - Elements(order);
    assert id == (order + queue)[|order|] && id in Elements(queue);
    var order' := order + [id];
    assert order' + queue[1..] == order + queue;
    assert forall i :: 0 <= i < |order| ==> order[i] == (order + queue)[i];
    NoIncoming(g, rest, id);
    forall j, a | 0 <= j < |order'| && Edge(g, a, order'[j])
      ensures a in order'[..j]
    {
      assert order'[..j] == order[..j];
      if j < |order| {
        assert order'[j] == order[j];
      }
    }
    assert Elements(order') == Elements(order) + {id};
    assert g.Keys - Elements(order') == rest - {id};
    forall n | n in g
      ensures inDegree[n] == Incoming(g, g.Keys - Elements(order'), n) + multiset(g[id])[n]
    {
      IncomingSplit(g, rest, id, n);
    }
    assert Distinct(order');
    assert Elements(queue[1..]) <= Elements(queue);
  }

  lemma DiscountKeepsInv(g: Graph, inDegree: map<string, int>, order: seq<string>, queue: seq<string>,
                         dep: string, pending: seq<string>)
    requires KahnInv(g, inDegree, order, queue, [dep] + pending)
    ensures dep !in g ==> KahnInv(g, inDegree, order, queue, pending)
    ensures dep in g ==>
              var d := inDegree[dep] - 1;
              KahnInv(g, inDegree[dep := d], order, if d == 0 then queue + [dep] else queue, pending)
  {
    assert multiset([dep] + pending) == multiset{dep} + multiset(pending);
    if dep in g {
      var d := inDegree[dep] - 1;
      assert dep !in order + queue;
      assert order + (queue + [dep]) == (order + queue) + [dep];
      assert Elements(queue + [dep]) == Elements(queue) + {dep};
    }
  }

  lemma EmptyQueueIsStuck(g: Graph, inDegree: map<string, int>, order: seq<string>)
    requires KahnInv(g, inDegree, order, [], [])
    ensures IsKahnOrder(g, order)
  {
    var rest := g.Keys - Elements(order);
    forall n | n in rest
      ensures HasDependentIn(g, rest, n)
    {
      NoIncoming(g, rest, n);
      assert order + [] == order;
      var a :| a in rest && n in g[a];
      assert Edge(g, a, n);
    }
  }

  method ZeroDegreeNodes(g: Graph, inDegree: map<string, int>) returns (queue: seq<string>)
    requires inDegree.Keys == g.Keys
    ensures Distinct(queue)
    ensures forall n :: n in queue <==> n in g && inDegree[n] == 0
  {
    queue := [];
    var todo := g.Keys;
    while todo != {}
      invariant todo <= g.Keys
      invariant Distinct(queue)
      invariant forall n :: n in queue <==> n in g.Keys - todo && inDegree[n] == 0
    {
      var id :| id in todo;
      if inDegree[id] == 0 {
        queue := queue + [id];
      }
      todo := todo - {id};
    }
  }

  /** The inner loop: discount every dependency entry of the node just ordered. */
  method ReleaseDependencies(g: Graph, deps: seq<string>, inDegree0: map<string, int>, order: seq<string>,
                             queue0: seq<string>)
    returns (inDegree: map<string, int>, queue: seq<string>)
    requires KahnInv(g, inDegree0, order, queue0, deps)
    ensures KahnInv(g, inDegree, order, queue, [])
  {
    inDegree, queue := inDegree0, queue0;
    assert deps[0..] == deps;
    for i := 0 to |deps|
      invariant KahnInv(g, inDegree, order, queue, deps[i..])
    {
      var dep := deps[i];
      assert deps[i..] == [dep] + deps[i + 1..];
      DiscountKeepsInv(g, inDegree, order, queue, dep, deps[i + 1..]);
      if dep in g {
        inDegree := inDegree[dep := inDegree[dep] - 1];
        if inDegree[dep] == 0 {
          queue := queue + [dep];
        }
      }
    }
    assert deps[|deps|..] == [];
  }

  method KahnOrder(g: Graph) returns (order: seq<string>)
    ensures IsKahnOrder(g, order)
  {
    var inDegree := CountInDegrees(g);
    var queue := ZeroDegreeNodes(g, inDegree);
    order := [];
    InitKeepsInv(g, inDegree, queue);
    while queue != []
      invariant KahnInv(g, inDegree, order, queue, [])
      decreases g.Keys - Elements(order)
    {
      var id := queue[0];
      PopKeepsInv(g, inDegree, order, queue);
      order := order + [id];
      inDegree, queue := ReleaseDependencies(g, g[id], inDegree, order, queue[1..]);
    }
    EmptyQueueIsStuck(g, inDegree, order);
  }

  /** The Kahn order leaves out exactly the nodes on a cycle or reached by following
      dependencies from one. */
  lemma LeftOutIsDownstream(g: Graph, order: seq<string>)
    requires IsKahnOrder(g, order)
    ensures forall n :: n in g ==> (n !in order <==> DownstreamOfCycle(g, n))
    ensures Elements(order) == g.Keys <==> !HasCycle(g)
  {
    var rest := g.Keys - Elements(order);
    forall n | n in g
      ensures n !in order <==> DownstreamOfCycle(g, n)
    {
      if n in order {
        OrderedIsNotDownstreamOfCycle(g, order, n);
      } else {
        StuckIsDownstreamOfCycle(g, rest, n);
      }
    }
    assert forall n :: n in g.Keys ==> n in rest || n in order;
    if HasCycle(g) {
      var p :| ClosedWalk(g, p);
      CycleIsDownstreamOfItself(g, p);
      assert p[0] !in Elements(order);
    } else {
      forall n | n in g.Keys
        ensures n in Elements(order)
      {
        if DownstreamOfCycle(g, n) {
          DownstreamImpliesCycle(g, n);
        }
      }
    }
  }

  /** What `resolve` leaves behind for a non-empty graph. */
  ghost predicate Resolved(g: Graph, order: seq<string>, unresolved: seq<string>, hasCycle: bool,
                           cyclePath: seq<string>)
  {
    && DependentsFirst(g, order)
    && Distinct(unresolved)
    && Elements(order) + Elements(unresolved) == g.Keys
    && (forall n :: n in g ==> (n in unresolved <==> n !in order))
    && (forall n :: n in g ==> (n in unresolved <==> DownstreamOfCycle(g, n)))
    && (hasCycle <==> HasCycle(g))
    && (hasCycle <==> unresolved != [])
    && (hasCycle ==> ClosedWalk(g, cyclePath))
  }

  ghost predicate Leaves(g: Graph, order: seq<string>, unresolved: seq<string>) {
    Distinct(unresolved) && forall n :: n in unresolved <==> n in g && n !in order
  }

  lemma ResolvedIntro(g: Graph, order: seq<string>, unresolved: seq<string>, hasCycle: bool, cyclePath: seq<string>)
    requires IsKahnOrder(g, order) && Leaves(g, order, unresolved)
    requires hasCycle <==> HasCycle(g)
    requires hasCycle ==> ClosedWalk(g, cyclePath)
    ensures Resolved(g, order, unresolved, hasCycle, cyclePath)
  {
    LeftOutIsDownstream(g, order);
    if hasCycle {
      CycleIsDownstreamOfItself(g, cyclePath);
      assert cyclePath[0] in unresolved;
    } else if unresolved != [] {
      DownstreamImpliesCycle(g, unresolved[0]);
    }
  }

  /** Comparing sizes is how the code learns that a cycle kept nodes out of the order. */
  lemma ShortOrderMeansCycle(g: Graph, order: seq<string>)
    requires IsKahnOrder(g, order)
    ensures |order| == |g| <==> !HasCycle(g)
    ensures |order| == |g| ==> Leaves(g, order, [])
  {
    LeftOutIsDownstream(g, order);
    ElementsOfDistinct(order);
    SubsetSize(Elements(order), g.Keys);
    assert Elements(order) == g.Keys ==> forall n :: n in g ==> n in Elements(order);
  }

  method LeftOut(g: Graph, order: seq<string>) returns (unresolved: seq<string>)
    ensures Leaves(g, order, unresolved)
  {
    unresolved := [];
    var todo := g.Keys;
    while todo != {}
      invariant todo <= g.Keys
      invariant Distinct(unresolved)
      invariant forall n :: n in unresolved <==> n in g.Keys - todo && n !in order
    {
      var id :| id in todo;
      if id !in order {
        unresolved := unresolved + [id];
      }
      todo := todo - {id};
    }
  }

  class DependencyGraph {
    var nodes: map<string, DependencyNode>
    var resolutionOrder: seq<string>
    var resolved: bool
    var hasCycle: bool
    var cyclePath: seq<string>
    var unresolved: seq<string>

    /** The cached verdict describes the current nodes, except on a graph emptied after a resolve;
        the reverse lists, which only removal touches, stay empty. */
    ghost predicate Valid()
      reads this
    {
      && (resolved && nodes != map[] ==>
            Resolved(EdgesOf(nodes), resolutionOrder, unresolved, hasCycle, cyclePath))
      && Unlinked(nodes)
    }

    constructor ()
      ensures Valid() && nodes == map[] && !resolved && !hasCycle
    {
      nodes, resolutionOrder, resolved, hasCycle, cyclePath, unresolved := map[], [], false, false, [], [];
    }

    method AddPackage(pkg: Package) returns (status: Status)
      modifies this
      ensures status == if pkg.packageId == "" then InvalidArgument
                        else if pkg.packageId in old(nodes) then AlreadyExists else Ok
      ensures status != Ok ==> unchanged(this)
      ensures cyclePath == old(cyclePath) && hasCycle == old(hasCycle)
      ensures status == Ok ==>
                && nodes == old(nodes)[pkg.packageId := DependencyNode(pkg.version, pkg.state == Installed,
                                                                       pkg.state == Enabled, pkg.dependencies, [])]
                && !resolved
      ensures old(Valid()) ==> Valid()
    {
      if pkg.packageId == "" {
        return InvalidArgument;
      }
      if pkg.packageId in nodes {
        return AlreadyExists;
      }
      nodes := nodes[pkg.packageId := DependencyNode(pkg.version, pkg.state == Installed,
                                                     pkg.state == Enabled, pkg.dependencies, [])];
      resolved := false;
      status := Ok;
    }

    method RemovePackage(packageId: string) returns (status: Status)
      modifies this
      ensures status == if packageId in old(nodes) then Ok else NotFound
      ensures status == Ok ==> nodes == UnlinkAll(old(nodes), old(nodes)[packageId].dependencies, packageId) - {packageId}
      ensures old(Valid()) ==> nodes == old(nodes) - {packageId}
      ensures status == Ok ==> !resolved
      ensures status != Ok ==> unchanged(this)
      ensures hasCycle == old(hasCycle) && cyclePath == old(cyclePath)
      ensures old(Valid()) ==> Valid()
    {
      if packageId !in nodes {
        assert nodes - {packageId} == nodes;
        return NotFound;
      }
      var deps := nodes[packageId].dependencies;
      for i := 0 to |deps|
        invariant nodes == UnlinkAll(old(nodes), deps[..i], packageId)
        invariant unchanged(this`resolved, this`hasCycle, this`resolutionOrder, this`unresolved, this`cyclePath)
      {
        assert deps[..i + 1][..i] == deps[..i];
        nodes := Unlink(nodes, deps[i].packageId, packageId);
      }
      assert deps[..|deps|] == deps;
      nodes := nodes - {packageId};
      resolved := false;
      status := Ok;
    }

    method Dfs(id: string, visited0: set<string>, inStack0: set<string>, path0: seq<string>,
               ghost finish0: seq<string>)
      returns (found: bool, visited: set<string>, inStack: set<string>, path: seq<string>,
               ghost finish: seq<string>)
      requires DfsInv(EdgesOf(nodes), visited0, inStack0, path0, finish0, true)
      requires id in nodes && id !in visited0
      requires path0 == [] || Edge(EdgesOf(nodes), path0[|path0| - 1], id)
      modifies this`cyclePath
      ensures found ==> ClosedWalk(EdgesOf(nodes), cyclePath)
      ensures !found ==> DfsInv(EdgesOf(nodes), visited, inStack, path, finish, true)
      ensures !found ==> inStack == inStack0 && path == path0 && cyclePath == old(cyclePath)
      ensures !found ==> visited0 <= visited && Elements(finish0) <= Elements(finish) && id in finish
      decreases nodes.Keys - visited0
    {
      ghost var g := EdgesOf(nodes);
      PushKeepsInv(g, visited0, inStack0, path0, finish0, true, id);
      visited, inStack, path, finish := visited0 + {id}, inStack0 + {id}, path0 + [id], finish0;
      var deps := nodes[id].dependencies;
      for i := 0 to |deps|
        invariant DfsInv(g, visited, inStack, path, finish, true)
        invariant inStack == inStack0 + {id} && path == path0 + [id] && cyclePath == old(cyclePath)
        invariant visited0 + {id} <= visited && Elements(finish0) <= Elements(finish)
        invariant forall k :: 0 <= k < i && g[id][k] in g ==> g[id][k] in Elements(finish)
      {
        var dep := deps[i].packageId;
        assert dep == g[id][i];
        if dep in nodes {
          assert Edge(g, id, dep);
          if dep in inStack {
            BackEdgeClosesWalk(g, path, dep);
            cyclePath := path[IndexOf(path, dep)..] + [dep];
            return true, visited, inStack, path, finish;
          }
          if dep !in visited {
            found, visited, inStack, path, finish := Dfs(dep, visited, inStack, path, finish);
            if found {
              return;
            }
          }
          assert dep in Elements(finish);
        }
      }
      PopKeepsDfsInv(g, visited, inStack, path0, finish, true, id);
      assert id !in inStack0;
      path := path[..|path| - 1];
      inStack := inStack - {id};
      finish := finish + [id];
      assert path == path0;
      found := false;
    }

    method DetectCycle() returns (found: bool)
      modifies this`hasCycle, this`cyclePath
      ensures found == hasCycle
      ensures hasCycle <==> HasCycle(EdgesOf(nodes))
      ensures hasCycle ==> ClosedWalk(EdgesOf(nodes), cyclePath)
      ensures !hasCycle ==> cyclePath == []
    {
      hasCycle, cyclePath := false, [];
      ghost var g := EdgesOf(nodes);
      var visited: set<string>, inStack: set<string>, path: seq<string> := {}, {}, [];
      ghost var finish: seq<string> := [];
      var todo := nodes.Keys;
      while todo != {}
        invariant DfsInv(g, visited, inStack, path, finish, true)
        invariant path == [] && cyclePath == [] && !hasCycle
        invariant nodes.Keys - todo <= visited
      {
        var id :| id in todo;
        todo := todo - {id};
        if id !in visited {
          found, visited, inStack, path, finish := Dfs(id, visited, inStack, path, finish);
          if found {
            hasCycle := true;
            return;
          }
        }
      }
      assert Elements(finish) == g.Keys;
      CompleteOrderHasNoCycle(g, finish);
      found := false;
    }

    method TopoSort()
      modifies this
      ensures nodes == old(nodes) && resolved
      ensures Resolved(EdgesOf(nodes), resolutionOrder, unresolved, hasCycle, cyclePath)
      ensures !hasCycle ==> cyclePath == old(cyclePath)
    {
      hide Resolved, IsKahnOrder, Leaves, HasCycle, ClosedWalk;
      var g := EdgesOf(nodes);
      unresolved := [];
      resolutionOrder := KahnOrder(g);
      ShortOrderMeansCycle(g, resolutionOrder);
      assert |g.Keys| == |nodes.Keys|;
      if |resolutionOrder| != |nodes| {
        hasCycle := true;
        var _ := DetectCycle();
        unresolved := LeftOut(g, resolutionOrder);
        ResolvedIntro(g, resolutionOrder, unresolved, hasCycle, cyclePath);
        resolved := true;
        return;
      }
      resolved := true;
      hasCycle := false;
      ResolvedIntro(g, resolutionOrder, unresolved, hasCycle, cyclePath);
    }

    method Resolve()
      modifies this
      ensures nodes == old(nodes) && resolved
      ensures nodes != map[] ==> Resolved(EdgesOf(nodes), resolutionOrder, unresolved, hasCycle, cyclePath)
      ensures !hasCycle ==> cyclePath == old(cyclePath)
      ensures nodes == map[] ==> resolutionOrder == [] && unchanged(this`unresolved, this`hasCycle, this`cyclePath)
      ensures Unlinked(nodes) ==> Valid()
    {
      hide Resolved, Unlinked;
      if |nodes| == 0 {
        assert nodes == map[];
        resolutionOrder := [];
        resolved := true;
        return;
      }
      TopoSort();
    }

    method Clear()
      modifies this
      ensures Valid() && nodes == map[] && !resolved && !hasCycle
      ensures resolutionOrder == cyclePath == unresolved == []
    {
      nodes, resolutionOrder, resolved, hasCycle, cyclePath, unresolved := map[], [], false, false, [], [];
    }

    method HasCircularDependency() returns (r: bool)
      requires Valid()
      modifies this`hasCycle, this`cyclePath
      ensures Valid()
      ensures nodes != map[] || !resolved ==> (r <==> HasCycle(EdgesOf(nodes)))
      ensures nodes == map[] && resolved ==> r == old(hasCycle)
    {
      if !resolved {
        var _ := DetectCycle();
      }
      r := hasCycle;
    }
  }

  lemma SelfDependency(nodes: map<string, DependencyNode>, id: string)
    requires id in nodes && id in Ids(nodes[id].dependencies)
    ensures HasCycle(EdgesOf(nodes))
  {
    assert Edge(EdgesOf(nodes), id, id);
    assert ClosedWalk(EdgesOf(nodes), [id, id]);
  }

  /** A graph that was resolved with a package depending on itself, which was then removed again. */
  method CyclicThenEmptied() returns (graph: DependencyGraph)
    ensures fresh(graph) && graph.Valid() && graph.nodes == map[] && graph.hasCycle && |graph.cyclePath| >= 2
  {
    var v := Version(1, 0, 0);
    graph := new DependencyGraph();
    var dep := Dependency("a", v, v, true);
    var status := graph.AddPackage(Package("a", v, [dep], [], Installed, ""));
    assert Ids(graph.nodes["a"].dependencies)[0] == "a";
    SelfDependency(graph.nodes, "a");
    hide HasCycle, EdgesOf;
    graph.Resolve();
    assert graph.hasCycle && |graph.cyclePath| >= 2;
    hide Resolved;
    status := graph.RemovePackage("a");
    assert graph.nodes == map[];
  }

  /** The exception in `HasCircularDependency` is real: a graph emptied after a cyclic resolve
      still answers true. */
  method EmptiedGraphStillReportsCycle() returns (r: bool)
    ensures r
  {
    hide Resolved;
    var graph := CyclicThenEmptied();
    graph.Resolve();
    r := graph.HasCircularDependency();
  }

  lemma LonePackage(nodes: map<string, DependencyNode>, id: string)
    requires nodes.Keys == {id} && nodes[id].dependencies == []
    ensures !HasCycle(EdgesOf(nodes))
  {
    var g := EdgesOf(nodes);
    if p :| ClosedWalk(g, p) {
      FirstEdge(g, p);
    }
  }

  lemma FirstEdge(g: Graph, p: seq<string>)
    requires ClosedWalk(g, p)
    ensures Edge(g, p[0], p[1])
  {
  }

  /** Resolving a graph without any cycle keeps the cycle path of an earlier graph. */
  method OldCyclePathKept() returns (hasCycle: bool, path: seq<string>)
    ensures !hasCycle && |path| >= 2
  {
    var graph := CyclicThenEmptied();
    var v := Version(1, 0, 0);
    var status := graph.AddPackage(Package("b", v, [], [], Installed, ""));
    LonePackage(graph.nodes, "b");
    hide HasCycle, EdgesOf;
    graph.Resolve();
    hasCycle, path := graph.hasCycle, graph.cyclePath;
  }
}
