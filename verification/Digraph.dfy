/** Directed dependency graphs, shared by the package graph and the plugin graph.
    A node lists the ids it depends on; the list may repeat an id and may name ids
    that are not nodes, which both resolvers skip. */
module Digraph {
  import opened Sequences

  type Graph = map<string, seq<string>>

  predicate Edge(g: Graph, a: string, b: string) {
    a in g && b in g && b in g[a]
  }

  /** A non-empty chain of nodes, each depending on the next. */
  ghost predicate IsWalk(g: Graph, p: seq<string>) {
    && |p| > 0
    && (forall i :: 0 <= i < |p| ==> p[i] in g)
    && (forall i :: 0 <= i < |p| - 1 ==> Edge(g, p[i], p[i + 1]))
  }

  ghost predicate ClosedWalk(g: Graph, p: seq<string>) {
    IsWalk(g, p) && |p| >= 2 && p[0] == p[|p| - 1]
  }

  ghost predicate HasCycle(g: Graph) {
    exists p :: ClosedWalk(g, p)
  }

  ghost predicate OnCycle(g: Graph, n: string) {
    exists p :: ClosedWalk(g, p) && p[0] == n
  }

  ghost predicate WalkFromTo(g: Graph, p: seq<string>, a: string, b: string) {
    IsWalk(g, p) && p[0] == a && p[|p| - 1] == b
  }

  ghost predicate Reaches(g: Graph, a: string, b: string) {
    exists p :: WalkFromTo(g, p, a, b)
  }

  /** n lies on a cycle or is reached by following dependencies from one. */
  ghost predicate DownstreamOfCycle(g: Graph, n: string) {
    exists c :: OnCycle(g, c) && Reaches(g, c, n)
  }

  /** Every listed node comes after all the nodes that depend on it. */
  ghost predicate DependentsFirst(g: Graph, order: seq<string>) {
    && Distinct(order)
    && Elements(order) <= g.Keys
    && forall j, a :: 0 <= j < |order| && Edge(g, a, order[j]) ==> a in order[..j]
  }

  /** Every listed node comes after all the nodes it depends on. */
  ghost predicate DependenciesFirst(g: Graph, order: seq<string>) {
    && Distinct(order)
    && Elements(order) <= g.Keys
    && forall j, b :: 0 <= j < |order| && Edge(g, order[j], b) ==> b in order[..j]
  }

  // ----- orders exclude cycles -----

  /** Going backwards along a walk, positions in a dependents-first order strictly decrease. */
  lemma {:induction false} BackwardsPositions(g: Graph, order: seq<string>, p: seq<string>, j: nat) returns (i: nat)
    requires DependentsFirst(g, order) && IsWalk(g, p)
    requires j < |order| && order[j] == p[|p| - 1]
    ensures i <= j && order[i] == p[0] && (|p| >= 2 ==> i < j)
    decreases |p|
  {
    if |p| == 1 {
      i := j;
    } else {
      var a := p[|p| - 2];
      assert Edge(g, a, p[|p| - 2 + 1]);
      var k :| 0 <= k < j && order[..j][k] == a;
      i := BackwardsPositions(g, order, p[..|p| - 1], k);
    }
  }

  /** Going forwards along a walk, positions in a dependencies-first order strictly decrease. */
  lemma {:induction false} ForwardsPositions(g: Graph, order: seq<string>, p: seq<string>, j: nat) returns (i: nat)
    requires DependenciesFirst(g, order) && IsWalk(g, p)
    requires j < |order| && order[j] == p[0]
    ensures i <= j && order[i] == p[|p| - 1] && (|p| >= 2 ==> i < j)
    decreases |p|
  {
    if |p| == 1 {
      i := j;
    } else {
      assert Edge(g, p[0], p[0 + 1]);
      var k :| 0 <= k < j && order[..j][k] == p[1];
      i := ForwardsPositions(g, order, p[1..], k);
    }
  }

  lemma OrderedIsNotDownstreamOfCycle(g: Graph, order: seq<string>, n: string)
    requires DependentsFirst(g, order) && n in order
    ensures !DownstreamOfCycle(g, n)
  {
    if DownstreamOfCycle(g, n) {
      var c :| OnCycle(g, c) && Reaches(g, c, n);
      var w :| WalkFromTo(g, w, c, n);
      var j :| 0 <= j < |order| && order[j] == n;
      var k := BackwardsPositions(g, order, w, j);
      var loop :| ClosedWalk(g, loop) && loop[0] == c;
      var i := BackwardsPositions(g, order, loop, k);
    }
  }

  lemma CompleteOrderHasNoCycle(g: Graph, order: seq<string>)
    requires DependenciesFirst(g, order) && Elements(order) == g.Keys
    ensures !HasCycle(g)
  {
    if HasCycle(g) {
      var loop :| ClosedWalk(g, loop);
      assert loop[0] in Elements(order);
      var j :| 0 <= j < |order| && order[j] == loop[0];
      var i := ForwardsPositions(g, order, loop, j);
    }
  }

  // ----- getting stuck implies a cycle -----

  ghost predicate HasDependentIn(g: Graph, u: set<string>, x: string) {
    exists a :: a in u && Edge(g, a, x)
  }

  ghost predicate HasDependencyIn(g: Graph, u: set<string>, x: string) {
    exists b :: b in u && Edge(g, x, b)
  }

  /** Inside a set where every node has a dependent, walks ending at n get as long as we like. */
  lemma {:induction false} WalkBackInside(g: Graph, u: set<string>, n: string, k: nat) returns (p: seq<string>)
    requires n in u && u <= g.Keys
    requires forall x {:trigger HasDependentIn(g, u, x)} :: x in u ==> HasDependentIn(g, u, x)
    ensures IsWalk(g, p) && |p| == k + 1 && p[k] == n && Elements(p) <= u
  {
    if k == 0 {
      p := [n];
    } else {
      var q := WalkBackInside(g, u, n, k - 1);
      assert q[0] in Elements(q);
      assert HasDependentIn(g, u, q[0]);
      var a :| a in u && Edge(g, a, q[0]);
      p := [a] + q;
      assert Elements(p) == {a} + Elements(q);
    }
  }

  lemma {:induction false} WalkOnInside(g: Graph, u: set<string>, n: string, k: nat) returns (p: seq<string>)
    requires n in u && u <= g.Keys
    requires forall x {:trigger HasDependencyIn(g, u, x)} :: x in u ==> HasDependencyIn(g, u, x)
    ensures IsWalk(g, p) && |p| == k + 1 && p[0] == n && Elements(p) <= u
  {
    if k == 0 {
      p := [n];
    } else {
      var q := WalkOnInside(g, u, n, k - 1);
      assert q[k - 1] in Elements(q);
      assert HasDependencyIn(g, u, q[k - 1]);
      var b :| b in u && Edge(g, q[k - 1], b);
      p := q + [b];
      assert Elements(p) == Elements(q) + {b};
    }
  }

  lemma SliceOfWalk(g: Graph, p: seq<string>, i: nat, j: nat)
    requires IsWalk(g, p) && i < j <= |p|
    ensures IsWalk(g, p[i..j])
  {
    var s := p[i..j];
    forall k | 0 <= k < |s| - 1
      ensures Edge(g, s[k], s[k + 1])
    {
      assert Edge(g, p[i + k], p[i + k + 1]);
    }
  }

  lemma StuckIsDownstreamOfCycle(g: Graph, u: set<string>, n: string)
    requires n in u && u <= g.Keys
    requires forall x {:trigger HasDependentIn(g, u, x)} :: x in u ==> HasDependentIn(g, u, x)
    ensures DownstreamOfCycle(g, n)
  {
    var p := WalkBackInside(g, u, n, |u|);
    var i, j := Pigeonhole(p, u);
    SliceOfWalk(g, p, i, j + 1);
    SliceOfWalk(g, p, i, |p|);
    var loop := p[i..j + 1];
    assert ClosedWalk(g, loop) && loop[0] == p[i];
    assert WalkFromTo(g, p[i..|p|], p[i], n);
    assert OnCycle(g, p[i]) && Reaches(g, p[i], n);
  }

  lemma ForeverForwardHasCycle(g: Graph, u: set<string>)
    requires u != {} && u <= g.Keys
    requires forall x {:trigger HasDependencyIn(g, u, x)} :: x in u ==> HasDependencyIn(g, u, x)
    ensures HasCycle(g)
  {
    var n :| n in u;
    var p := WalkOnInside(g, u, n, |u|);
    var i, j := Pigeonhole(p, u);
    SliceOfWalk(g, p, i, j + 1);
    assert ClosedWalk(g, p[i..j + 1]);
  }

  lemma CycleIsDownstreamOfItself(g: Graph, p: seq<string>)
    requires ClosedWalk(g, p)
    ensures DownstreamOfCycle(g, p[0])
  {
    assert OnCycle(g, p[0]);
    assert WalkFromTo(g, p, p[0], p[0]);
  }

  lemma DownstreamImpliesCycle(g: Graph, n: string)
    requires DownstreamOfCycle(g, n)
    ensures HasCycle(g)
  {
    var c :| OnCycle(g, c) && Reaches(g, c, n);
    var p :| ClosedWalk(g, p) && p[0] == c;
  }
}
