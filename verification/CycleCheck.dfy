/** kernel/module/registry.go, `checkCycles`: three-colour depth-first search. */
module CycleCheck {
  import opened Prelude
  import opened DependencyGraph
  import opened Modules

  /** A module with no colour yet is white. */
  datatype Color = Gray | Black

  /**
   Gray is exactly the current path, a walk; black is exactly the finished modules, each of which
   needs only modules finished before it.
   */
  ghost predicate Consistent(g: Graph, color: map<string, Color>, finished: seq<string>, path: seq<string>) {
    && Closed(g)
    && Distinct(path) && Walk(g, path)
    && TopoPrefix(g, finished)
    && (forall id :: id in color && color[id] == Gray <==> id in path)
    && (forall id :: id in color && color[id] == Black <==> id in finished)
  }

  lemma PathExtends(g: Graph, color: map<string, Color>, finished: seq<string>, path: seq<string>, id: string)
    requires Consistent(g, color, finished, path) && id in g
    requires path != [] ==> Edge(g, path[|path| - 1], id)
    ensures Walk(g, path + [id])
    ensures id in color && color[id] == Black ==> id in finished
  {
    WalkAppend(g, path, id);
  }

  lemma GrayMeansRepeating(g: Graph, color: map<string, Color>, finished: seq<string>, path: seq<string>, id: string)
    requires Consistent(g, color, finished, path)
    requires id in color && color[id] == Gray && Walk(g, path + [id])
    ensures RepeatingWalk(g, path + [id])
  {
    var i :| 0 <= i < |path| && path[i] == id;
    assert (path + [id])[i] == id;
  }

  lemma Enter(g: Graph, color: map<string, Color>, finished: seq<string>, path: seq<string>, id: string)
    requires Consistent(g, color, finished, path)
    requires id !in color && Walk(g, path + [id])
    ensures Consistent(g, color[id := Gray], finished, path + [id])
  {
  }

  lemma FinishKeepsTopo(g: Graph, finished: seq<string>, id: string)
    requires TopoPrefix(g, finished) && id in g && id !in finished
    requires forall d :: d in g[id] ==> d in finished
    ensures TopoPrefix(g, finished + [id])
  {
    var order := finished + [id];
    assert forall i :: 0 <= i <= |finished| ==> order[..i] == finished[..i];
  }

  lemma Leave(g: Graph, color: map<string, Color>, finished: seq<string>, path: seq<string>, id: string)
    requires Consistent(g, color, finished, path + [id])
    requires id in g && forall d :: d in g[id] ==> d in finished
    ensures Consistent(g, color[id := Black], finished + [id], path)
  {
    assert (path + [id])[|path|] == id;
    assert id in color && color[id] == Gray;
    assert id !in finished;
    assert forall i :: 0 <= i < |path| ==> path[i] == (path + [id])[i];
    assert id !in path;
    FinishKeepsTopo(g, finished, id);
    WalkParts(g, path + [id], 0, |path|);
    assert (path + [id])[0..|path|] == path;
  }

  class Search {
    const graph: Graph
    var color: map<string, Color>
    /** The black modules, in the order in which they were finished. */
    ghost var finished: seq<string>

    ghost predicate Valid(path: seq<string>)
      reads this
    {
      Consistent(graph, color, finished, path)
    }

    constructor (graph: Graph)
      requires Closed(graph)
      ensures this.graph == graph && Valid([]) && finished == []
    {
      this.graph := graph;
      color := map[];
      finished := [];
    }

    method Visit(id: string, path: seq<string>) returns (cycle: Option<seq<string>>)
      requires Valid(path) && id in graph
      requires path != [] ==> Edge(graph, path[|path| - 1], id)
      modifies this
      ensures cycle.Some? ==> RepeatingWalk(graph, cycle.value) && path + [id] <= cycle.value
      ensures cycle.None? ==> Valid(path) && id in finished
      ensures old(finished) <= finished && old(color.Keys) <= color.Keys
      decreases graph.Keys - color.Keys
    {
      PathExtends(graph, color, finished, path, id);
      hide Consistent, RepeatingWalk, Walk;
      if id in color && color[id] == Gray {
        GrayMeansRepeating(graph, color, finished, path, id);
        return Some(path + [id]);
      }
      if id in color && color[id] == Black {
        return None;
      }
      Enter(graph, color, finished, path, id);
      color := color[id := Gray];
      var deps := graph[id];
      for i := 0 to |deps|
        invariant Valid(path + [id])
        invariant old(finished) <= finished && old(color.Keys) + {id} <= color.Keys
        invariant forall k :: 0 <= k < i ==> deps[k] in finished
      {
        assert Edge(graph, id, deps[i]);
        cycle := Visit(deps[i], path + [id]);
        if cycle.Some? {
          return cycle;
        }
      }
      Leave(graph, color, finished, path, id);
      color := color[id := Black];
      finished := finished + [id];
      return None;
    }
  }

  /** Exact: an error if and only if the dependencies have a cycle, and the error shows one. */
  method CheckCycles(graph: Graph) returns (cycle: Option<seq<string>>)
    requires Closed(graph)
    ensures cycle.None? <==> Acyclic(graph)
    ensures cycle.Some? ==> RepeatingWalk(graph, cycle.value)
  {
    var search := new Search(graph);
    var ids := SortedIds(graph.Keys);
    for i := 0 to |ids|
      invariant search.Valid([]) && search.graph == graph
      invariant forall k :: 0 <= k < i ==> ids[k] in search.finished
    {
      assert ids[i] in Elements(ids);
      cycle := search.Visit(ids[i], []);
      if cycle.Some? {
        RepeatingWalkIsCyclic(graph, cycle.value);
        return cycle;
      }
    }
    forall id | id in graph ensures id in search.finished {
      assert id in Elements(ids);
    }
    TopoIsAcyclic(graph, search.finished);
    return None;
  }
}
