/** Invariants of the two depth-first searches. `path` is the walk on the recursion stack and
    `finish` lists the completed nodes in completion order; while no back edge has been met
    (`clean`) every completed node comes after everything it depends on. */
module DepthFirst {
  import opened Digraph
  import opened Sequences

  ghost predicate DfsInv(g: Graph, visited: set<string>, inStack: set<string>, path: seq<string>,
                         finish: seq<string>, clean: bool)
  {
    && (path == [] || IsWalk(g, path))
    && Distinct(path)
    && inStack == Elements(path)
    && Distinct(finish)
    && Elements(finish) <= g.Keys
    && (clean ==> DependenciesFirst(g, finish))
    && visited == inStack + Elements(finish)
    && inStack !! Elements(finish)
  }

  lemma BackEdgeClosesWalk(g: Graph, path: seq<string>, dep: string)
    requires IsWalk(g, path) && dep in path && Edge(g, path[|path| - 1], dep)
    ensures ClosedWalk(g, path[IndexOf(path, dep)..] + [dep])
  {
    var i := IndexOf(path, dep);
    SliceOfWalk(g, path, i, |path|);
    var tail := path[i..|path|];
    assert path[i..] == tail;
    var loop := tail + [dep];
    forall k | 0 <= k < |loop| - 1
      ensures Edge(g, loop[k], loop[k + 1])
    {
      if k < |tail| - 1 {
        assert Edge(g, tail[k], tail[k + 1]);
      }
    }
  }

  lemma PushKeepsInv(g: Graph, visited: set<string>, inStack: set<string>, path: seq<string>,
                     finish: seq<string>, clean: bool, id: string)
    requires DfsInv(g, visited, inStack, path, finish, clean)
    requires id in g && id !in visited
    requires path == [] || Edge(g, path[|path| - 1], id)
    ensures DfsInv(g, visited + {id}, inStack + {id}, path + [id], finish, clean)
  {
    var path' := path + [id];
    forall k | 0 <= k < |path'| - 1
      ensures Edge(g, path'[k], path'[k + 1])
    {
      if k < |path| - 1 {
        assert Edge(g, path[k], path[k + 1]);
      }
    }
    assert Elements(path') == Elements(path) + {id};
    assert forall k :: 0 <= k < |path| ==> path[k] in Elements(path);
  }

  lemma PopKeepsDfsInv(g: Graph, visited: set<string>, inStack: set<string>, path: seq<string>,
                       finish: seq<string>, clean: bool, id: string)
    requires DfsInv(g, visited, inStack, path + [id], finish, clean)
    requires clean ==> forall b :: Edge(g, id, b) ==> b in finish
    ensures DfsInv(g, visited, inStack - {id}, path, finish + [id], clean)
  {
    var path' := path + [id];
    assert Elements(path') == Elements(path) + {id};
    assert id == path'[|path|];
    assert id !in path by {
      assert forall k :: 0 <= k < |path| ==> path[k] == path'[k];
    }
    if path != [] {
      SliceOfWalk(g, path', 0, |path|);
      assert path'[0..|path|] == path;
    }
    var finish' := finish + [id];
    assert id in Elements(path');
    assert Elements(finish') == Elements(finish) + {id};
    forall j, b | clean && 0 <= j < |finish'| && Edge(g, finish'[j], b)
      ensures b in finish'[..j]
    {
      assert finish'[..j] == finish[..j];
      if j < |finish| {
        assert finish'[j] == finish[j];
      }
    }
    assert forall k :: 0 <= k < |finish| ==> finish[k] in Elements(finish);
  }
}
