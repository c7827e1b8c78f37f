/** PluginDependencyGraph: every back edge of a full depth-first search is reported as a cycle;
    without one, Kahn's algorithm orders the plugins, dependencies first. Hash-map iteration is
    an arbitrary choice, so the results hold for every iteration order. */
module PluginGraph {
  import opened DepthFirst
  import opened Digraph
  import opened Sequences

  datatype Node = Node(type_: string, name: string, version: string, dependsOn: seq<string>)

  datatype GraphReport = GraphReport(
    hasCircularDependencies: bool,
    cycles: seq<seq<string>>,
    unresolvedDependencies: seq<string>,
    resolvedOrder: seq<string>)

  function EdgesOf(nodes: map<string, Node>): (g: Graph)
    ensures g.Keys == nodes.Keys
  {
    map id | id in nodes :: nodes[id].dependsOn
  }

  // ----- in-degrees: dependency entries still waiting -----

  /** Entries of `deps`, repeats counted, that name a node of `waiting`. */
  function Waiting(deps: seq<string>, waiting: set<string>): nat {
    if deps == [] then 0
    else (if deps[|deps| - 1] in waiting then 1 else 0) + Waiting(deps[..|deps| - 1], waiting)
  }

  lemma {:induction false} WaitingPositive(deps: seq<string>, waiting: set<string>)
    ensures Waiting(deps, waiting) == 0 <==> forall d :: d in deps ==> d !in waiting
  {
    if deps != [] {
      WaitingPositive(deps[..|deps| - 1], waiting);
      assert deps == deps[..|deps| - 1] + [deps[|deps| - 1]];
    }
  }

  lemma {:induction false} WaitingRemove(deps: seq<string>, waiting: set<string>, id: string)
    requires id in waiting
    ensures Waiting(deps, waiting) == Waiting(deps, waiting - {id}) + multiset(deps)[id]
  {
    if deps != [] {
      WaitingRemove(deps[..|deps| - 1], waiting, id);
      assert deps == deps[..|deps| - 1] + [deps[|deps| - 1]];
    }
  }

  method CountWaiting(g: Graph) returns (inDegree: map<string, int>)
    ensures inDegree.Keys == g.Keys
    ensures forall n :: n in g ==> inDegree[n] == Waiting(g[n], g.Keys)
  {
    inDegree := map[];
    var todo := g.Keys;
    while todo != {}
      invariant todo <= g.Keys && inDegree.Keys == g.Keys - todo
      invariant forall n :: n in inDegree ==> inDegree[n] == Waiting(g[n], g.Keys)
    {
      var id :| id in todo;
      var count := 0;
      for i := 0 to |g[id]|
        invariant count == Waiting(g[id][..i], g.Keys)
      {
        assert g[id][..i + 1][..i] == g[id][..i];
        if g[id][i] in g {
          count := count + 1;
        }
      }
      assert g[id][..|g[id]|] == g[id];
      inDegree := inDegree[id := count];
      todo := todo - {id};
    }
  }

  // ----- Kahn's algorithm -----

  ghost predicate KahnInv(g: Graph, inDegree: map<string, int>, order: seq<string>, queue: seq<string>) {
    && DependenciesFirst(g, order)
    && Distinct(order + queue)
    && Elements(queue) <= g.Keys
    && inDegree.Keys == g.Keys
    && (forall n :: n in g ==> (n in order + queue <==> inDegree[n] == 0))
  }

  /** The degree of n counts its waiting entries, plus `owed` entries naming a node already
      ordered that the sweep has still to discount. */
  ghost predicate Degree(g: Graph, inDegree: map<string, int>, order: seq<string>, n: string, owed: nat)
    requires n in g && inDegree.Keys == g.Keys
  {
    inDegree[n] == Waiting(g[n], g.Keys - Elements(order)) + owed
  }

  /** Between two plugins of the sweep that discounts `id`; `todo` is still to be swept. */
  ghost predicate Sweep(g: Graph, inDegree: map<string, int>, order: seq<string>, id: string, todo: set<string>)
    requires inDegree.Keys == g.Keys
  {
    forall n :: n in g ==> Degree(g, inDegree, order, n, if n in todo then multiset(g[n])[id] else 0)
  }

  lemma PopKeepsInv(g: Graph, inDegree: map<string, int>, order: seq<string>, queue: seq<string>)
    requires KahnInv(g, inDegree, order, queue) && Sweep(g, inDegree, order, "", {}) && queue != []
    ensures var id := queue[|queue| - 1];
            && id in g && id !in order
            && KahnInv(g, inDegree, order + [id], queue[..|queue| - 1])
            && Sweep(g, inDegree, order + [id], id, g.Keys)
  {
    var q := queue[..|queue| - 1];
    var id := queue[|queue| - 1];
    var all := order + queue;
    var order' := order + [id];
    var rest := g.Keys - Elements(order);
    assert id == all[|all| - 1] && id in Elements(queue);
    assert forall i :: 0 <= i < |order| ==> order[i] == all[i];
    assert Elements(q) <= Elements(queue);
    assert Elements(order') == Elements(order) + {id};
    assert g.Keys - Elements(order') == rest - {id};
    var all' := order' + q;
    assert forall i :: 0 <= i < |q| ==> q[i] == all[|order| + i];
    assert Distinct(all');
    assert forall n :: n in all' <==> n in all;
    assert Degree(g, inDegree, order, id, 0);
    WaitingPositive(g[id], rest);
    forall j, b | 0 <= j < |order'| && Edge(g, order'[j], b)
      ensures b in order'[..j]
    {
      assert order'[..j] == order[..j];
      if j < |order| {
        assert order'[j] == order[j];
      }
    }
    forall n | n in g
      ensures Degree(g, inDegree, order', n, multiset(g[n])[id])
    {
      assert Degree(g, inDegree, order, n, 0);
      WaitingRemove(g[n], rest, id);
    }
  }

  lemma DiscountKeepsInv(g: Graph, inDegree: map<string, int>, order: seq<string>, queue: seq<string>,
                         n: string, owed: nat)
    requires KahnInv(g, inDegree, order, queue)
    requires n in g && owed > 0 && Degree(g, inDegree, order, n, owed)
    ensures var d := inDegree[n] - 1;
            && d >= 0
            && KahnInv(g, inDegree[n := d], order, if d == 0 then queue + [n] else queue)
            && Degree(g, inDegree[n := d], order, n, owed - 1)
  {
    assert n !in order + queue;
    assert order + (queue + [n]) == (order + queue) + [n];
    assert Elements(queue + [n]) == Elements(queue) + {n};
  }

  /** The inner loop over one plugin's dependency list. */
  method DiscountNode(g: Graph, id: string, n: string, inDegree0: map<string, int>, order: seq<string>,
                      queue0: seq<string>)
    returns (inDegree: map<string, int>, queue: seq<string>)
    requires KahnInv(g, inDegree0, order, queue0)
    requires n in g && Degree(g, inDegree0, order, n, multiset(g[n])[id])
    ensures KahnInv(g, inDegree, order, queue)
    ensures Degree(g, inDegree, order, n, 0)
    ensures forall m :: m in g && m != n ==> inDegree[m] == inDegree0[m]
  {
    inDegree, queue := inDegree0, queue0;
    var deps := g[n];
    assert deps[0..] == deps;
    assert inDegree.Keys == g.Keys;
    hide KahnInv, Degree;
    for i := 0 to |deps|
      invariant inDegree.Keys == g.Keys && KahnInv(g, inDegree, order, queue)
      invariant Degree(g, inDegree, order, n, multiset(deps[i..])[id])
      invariant forall m :: m in g && m != n ==> inDegree[m] == inDegree0[m]
    {
      assert deps[i..] == [deps[i]] + deps[i + 1..];
      if deps[i] == id {
        DiscountKeepsInv(g, inDegree, order, queue, n, multiset(deps[i..])[id]);
        if inDegree[n] > 0 {
          inDegree := inDegree[n := inDegree[n] - 1];
          if inDegree[n] == 0 {
            queue := queue + [n];
          }
        }
      }
    }
    assert deps[|deps|..] == [];
  }

  /** The sweep over all plugins after one has been ordered. */
  method DiscountAll(g: Graph, id: string, inDegree0: map<string, int>, order: seq<string>, queue0: seq<string>)
    returns (inDegree: map<string, int>, queue: seq<string>)
    requires KahnInv(g, inDegree0, order, queue0)
    requires Sweep(g, inDegree0, order, id, g.Keys)
    ensures KahnInv(g, inDegree, order, queue)
    ensures Sweep(g, inDegree, order, "", {})
  {
    inDegree, queue := inDegree0, queue0;
    var todo := g.Keys;
    while todo != {}
      invariant todo <= g.Keys
      invariant KahnInv(g, inDegree, order, queue)
      invariant Sweep(g, inDegree, order, id, todo)
    {
      var n :| n in todo;
      ghost var before := inDegree;
      inDegree, queue := DiscountNode(g, id, n, inDegree, order, queue);
      todo := todo - {n};
      forall m | m in g
        ensures Degree(g, inDegree, order, m, if m in todo then multiset(g[m])[id] else 0)
      {
        if m != n {
          assert Degree(g, before, order, m, if m in todo then multiset(g[m])[id] else 0);
        }
      }
    }
    forall m | m in g
      ensures Degree(g, inDegree, order, m, 0)
    {
    }
  }

  method KahnOrder(g: Graph) returns (order: seq<string>)
    ensures DependenciesFirst(g, order)
    ensures !HasCycle(g) ==> Elements(order) == g.Keys
  {
    var inDegree := CountWaiting(g);
    var queue: seq<string> := [];
    var todo := g.Keys;
    while todo != {}
      invariant todo <= g.Keys
      invariant Distinct(queue)
      invariant forall n :: n in queue <==> n in g.Keys - todo && inDegree[n] == 0
    {
      var id :| id in todo;
      if inDegree[id] == 0 {
        queue := queue + [id];
      }
      todo := todo - {id};
    }
    order := [];
    assert g.Keys - Elements(order) == g.Keys;
    assert order + queue == queue;
    while queue != []
      invariant KahnInv(g, inDegree, order, queue) && Sweep(g, inDegree, order, "", {})
      decreases g.Keys - Elements(order)
    {
      var id := queue[|queue| - 1];
      PopKeepsInv(g, inDegree, order, queue);
      assert Elements(order + [id]) == Elements(order) + {id};
      order := order + [id];
      inDegree, queue := DiscountAll(g, id, inDegree, order, queue[..|queue| - 1]);
    }
    EmptyQueueCoversAcyclic(g, inDegree, order);
  }

  lemma EmptyQueueCoversAcyclic(g: Graph, inDegree: map<string, int>, order: seq<string>)
    requires KahnInv(g, inDegree, order, []) && Sweep(g, inDegree, order, "", {})
    ensures !HasCycle(g) ==> Elements(order) == g.Keys
  {
    var rest := g.Keys - Elements(order);
    forall n | n in rest
      ensures HasDependencyIn(g, rest, n)
    {
      assert Degree(g, inDegree, order, n, 0);
      WaitingPositive(g[n], rest);
      assert order + [] == order;
      var b :| b in g[n] && b in rest;
      assert Edge(g, n, b);
    }
    if rest != {} {
      ForeverForwardHasCycle(g, rest);
    } else {
      assert forall n :: n in g.Keys ==> n !in rest;
    }
  }

  method MissingDependencies(g: Graph) returns (missing: seq<string>)
    ensures forall x :: x in missing <==> x !in g && exists id :: id in g && x in g[id]
  {
    missing := [];
    var todo := g.Keys;
    while todo != {}
      invariant todo <= g.Keys
      invariant forall x :: x in missing <==> x !in g && exists id :: id in g.Keys - todo && x in g[id]
    {
      var id :| id in todo;
      var deps := g[id];
      ghost var before := missing;
      for i := 0 to |deps|
        invariant forall x :: x in missing <==> x in before || (x !in g && x in deps[..i])
      {
        assert deps[..i + 1] == deps[..i] + [deps[i]];
        if deps[i] !in g {
          missing := missing + [deps[i]];
        }
      }
      assert deps[..|deps|] == deps;
      assert forall x :: x in g.Keys - (todo - {id}) <==> x == id || x in g.Keys - todo;
      todo := todo - {id};
    }
  }

  ghost predicate Report(g: Graph, r: GraphReport) {
    && (r.hasCircularDependencies <==> HasCycle(g))
    && (r.hasCircularDependencies <==> r.cycles != [])
    && (forall k :: 0 <= k < |r.cycles| ==> ClosedWalk(g, r.cycles[k]))
    && (forall x :: x in r.unresolvedDependencies <==> x !in g && exists id :: id in g && x in g[id])
    && (r.hasCircularDependencies ==> r.resolvedOrder == [])
    && (!r.hasCircularDependencies ==>
          DependenciesFirst(g, r.resolvedOrder) && Elements(r.resolvedOrder) == g.Keys)
  }

  class DependencyGraph {
    var nodes: map<string, Node>
    var hasCycle: bool
    var cycles: seq<seq<string>>

    constructor ()
      ensures nodes == map[] && !hasCycle && cycles == []
    {
      nodes, hasCycle, cycles := map[], false, [];
    }

    /** Registering an id again replaces the node. */
    method AddNode(id: string, type_: string, name: string, version: string, dependencies: seq<string>)
      modifies this`nodes
      ensures nodes == old(nodes)[id := Node(type_, name, version, dependencies)]
    {
      nodes := nodes[id := Node(type_, name, version, dependencies)];
    }

    ghost predicate CyclesAreReal()
      reads this
    {
      && (hasCycle <==> cycles != [])
      && forall k :: 0 <= k < |cycles| ==> ClosedWalk(EdgesOf(nodes), cycles[k])
    }

    method RecordCycle(stack: seq<string>, nodeId: string)
      requires CyclesAreReal()
      requires IsWalk(EdgesOf(nodes), stack) && nodeId in stack
      requires nodeId in nodes[stack[|stack| - 1]].dependsOn
      modifies this`cycles, this`hasCycle
      ensures CyclesAreReal() && hasCycle
    {
      BackEdgeClosesWalk(EdgesOf(nodes), stack, nodeId);
      cycles := cycles + [stack[IndexOf(stack, nodeId)..] + [nodeId]];
      hasCycle := true;
    }

    method Dfs(nodeId: string, visited0: set<string>, inStack0: set<string>, stack0: seq<string>,
               ghost finish0: seq<string>)
      returns (visited: set<string>, inStack: set<string>, stack: seq<string>, ghost finish: seq<string>)
      requires CyclesAreReal()
      requires DfsInv(EdgesOf(nodes), visited0, inStack0, stack0, finish0, !hasCycle)
      requires stack0 == [] || (stack0[|stack0| - 1] in nodes && nodeId in nodes[stack0[|stack0| - 1]].dependsOn)
      modifies this`cycles, this`hasCycle
      ensures CyclesAreReal() && (old(hasCycle) ==> hasCycle)
      ensures DfsInv(EdgesOf(nodes), visited, inStack, stack, finish, !hasCycle)
      ensures stack == stack0 && inStack == inStack0
      ensures visited0 <= visited && Elements(finish0) <= Elements(finish)
      ensures nodeId in nodes ==> if nodeId in inStack0 then hasCycle else nodeId in Elements(finish)
      decreases nodes.Keys - visited0
    {
      ghost var g := EdgesOf(nodes);
      visited, inStack, stack, finish := visited0, inStack0, stack0, finish0;
      if nodeId in inStack {
        RecordCycle(stack, nodeId);
        return;
      }
      if nodeId in visited || nodeId !in nodes {
        return;
      }
      PushKeepsInv(g, visited, inStack, stack, finish, !hasCycle, nodeId);
      visited, inStack, stack := visited + {nodeId}, inStack + {nodeId}, stack + [nodeId];
      var deps := nodes[nodeId].dependsOn;
      for i := 0 to |deps|
        invariant CyclesAreReal() && (old(hasCycle) ==> hasCycle)
        invariant DfsInv(g, visited, inStack, stack, finish, !hasCycle)
        invariant stack == stack0 + [nodeId] && inStack == inStack0 + {nodeId}
        invariant visited0 + {nodeId} <= visited && Elements(finish0) <= Elements(finish)
        invariant !hasCycle ==> forall k :: 0 <= k < i && deps[k] in g ==> deps[k] in Elements(finish)
      {
        visited, inStack, stack, finish := Dfs(deps[i], visited, inStack, stack, finish);
      }
      assert !hasCycle ==> forall b :: Edge(g, nodeId, b) ==> b in Elements(finish);
      PopKeepsDfsInv(g, visited, inStack, stack0, finish, !hasCycle, nodeId);
      stack := stack[..|stack| - 1];
      inStack := inStack - {nodeId};
      finish := finish + [nodeId];
      assert stack == stack0;
    }

    method FindCycles()
      modifies this`cycles, this`hasCycle
      ensures CyclesAreReal() && (hasCycle <==> HasCycle(EdgesOf(nodes)))
    {
      hasCycle, cycles := false, [];
      ghost var g := EdgesOf(nodes);
      var visited: set<string>, inStack: set<string>, stack: seq<string> := {}, {}, [];
      ghost var finish: seq<string> := [];
      var todo := nodes.Keys;
      while todo != {}
        invariant CyclesAreReal() && DfsInv(g, visited, inStack, stack, finish, !hasCycle)
        invariant stack == []
        invariant nodes.Keys - todo <= visited
      {
        var id :| id in todo;
        todo := todo - {id};
        if id !in visited {
          visited, inStack, stack, finish := Dfs(id, visited, inStack, stack, finish);
        }
      }
      assert Elements(finish) == g.Keys;
      if !hasCycle {
        CompleteOrderHasNoCycle(g, finish);
      } else {
        assert ClosedWalk(g, cycles[0]);
      }
    }

    method Resolve() returns (r: GraphReport)
      modifies this`cycles, this`hasCycle
      ensures Report(EdgesOf(nodes), r)
      ensures hasCycle == r.hasCircularDependencies && cycles == r.cycles
    {
      var g := EdgesOf(nodes);
      FindCycles();
      var missing := MissingDependencies(g);
      var order: seq<string> := [];
      if !hasCycle {
        order := KahnOrder(g);
      }
      r := GraphReport(hasCycle, cycles, missing, order);
    }
  }
}
