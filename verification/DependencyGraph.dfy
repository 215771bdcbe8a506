/** Walks, cycles and topological orders of the `DependsOn` relation between modules. */
module DependencyGraph {
  /** Each registered module with the modules it depends on. */
  type Graph = map<string, seq<string>>

  ghost predicate Edge(g: Graph, a: string, b: string) {
    a in g && b in g[a]
  }

  /** Every dependency is registered. */
  ghost predicate Closed(g: Graph) {
    forall a, b :: Edge(g, a, b) ==> b in g
  }

  ghost predicate Step(g: Graph, w: seq<string>, i: nat)
    requires i + 1 < |w|
  {
    Edge(g, w[i], w[i + 1])
  }

  ghost predicate Walk(g: Graph, w: seq<string>) {
    && (forall i :: 0 <= i < |w| ==> w[i] in g)
    && (forall i :: 0 <= i < |w| - 1 ==> Step(g, w, i))
  }

  lemma WalkParts(g: Graph, w: seq<string>, lo: nat, hi: nat)
    requires Walk(g, w) && lo <= hi <= |w|
    ensures Walk(g, w[lo..hi])
  {
    forall k | 0 <= k < hi - lo - 1 ensures Step(g, w[lo..hi], k) {
      assert Step(g, w, lo + k);
    }
  }

  lemma WalkAppend(g: Graph, w: seq<string>, id: string)
    requires Walk(g, w) && id in g
    requires w != [] ==> Edge(g, w[|w| - 1], id)
    ensures Walk(g, w + [id])
  {
    forall k | 0 <= k < |w| ensures Step(g, w + [id], k) {
      if k < |w| - 1 {
        assert Step(g, w, k);
      }
    }
  }

  /** A cycle: a walk of at least one edge back to its start. */
  ghost predicate ClosedWalk(g: Graph, w: seq<string>) {
    |w| >= 2 && Walk(g, w) && w[0] == w[|w| - 1]
  }

  ghost predicate Acyclic(g: Graph) {
    forall w :: !ClosedWalk(g, w)
  }

  /** What a cycle report shows: a walk whose last module already occurs earlier in it. */
  ghost predicate RepeatingWalk(g: Graph, w: seq<string>) {
    Walk(g, w) && exists i :: 0 <= i < |w| - 1 && w[i] == w[|w| - 1]
  }

  lemma RepeatingWalkIsCyclic(g: Graph, w: seq<string>)
    requires RepeatingWalk(g, w)
    ensures !Acyclic(g)
  {
    var i :| 0 <= i < |w| - 1 && w[i] == w[|w| - 1];
    WalkParts(g, w, i, |w|);
    assert ClosedWalk(g, w[i..|w|]);
  }

  ghost predicate Distinct(s: seq<string>) {
    forall i, j :: 0 <= i < j < |s| ==> s[i] != s[j]
  }

  // ---- Topological orders

  /** Each listed module comes after everything it depends on. */
  ghost predicate TopoPrefix(g: Graph, order: seq<string>) {
    && Distinct(order)
    && (forall i :: 0 <= i < |order| ==> order[i] in g)
    && (forall i, d :: 0 <= i < |order| && d in g[order[i]] ==> d in order[..i])
  }

  ghost predicate Topo(g: Graph, order: seq<string>) {
    TopoPrefix(g, order) && forall id :: id in g ==> id in order
  }

  ghost function Pos(order: seq<string>, id: string): (i: nat)
    requires id in order
    ensures i < |order| && order[i] == id
  {
    var i :| 0 <= i < |order| && order[i] == id;
    i
  }

  lemma EdgeDescends(g: Graph, order: seq<string>, a: string, b: string)
    requires TopoPrefix(g, order) && a in order && Edge(g, a, b)
    ensures b in order && Pos(order, b) < Pos(order, a)
  {
    var i := Pos(order, a);
    assert b in order[..i];
    var j :| 0 <= j < i && order[..i][j] == b;
    assert order[j] == b;
  }

  lemma {:induction false} WalkDescends(g: Graph, order: seq<string>, w: seq<string>)
    requires TopoPrefix(g, order) && Walk(g, w) && |w| >= 2 && w[0] in order
    ensures w[|w| - 1] in order && Pos(order, w[|w| - 1]) < Pos(order, w[0])
    decreases |w|
  {
    assert Step(g, w, 0);
    EdgeDescends(g, order, w[0], w[1]);
    if |w| <= 2 {
    } else {
      WalkParts(g, w, 1, |w|);
      WalkDescends(g, order, w[1..|w|]);
    }
  }

  lemma TopoIsAcyclic(g: Graph, order: seq<string>)
    requires Topo(g, order)
    ensures Acyclic(g)
  {
    forall w | ClosedWalk(g, w) ensures false {
      WalkDescends(g, order, w);
    }
  }

  // ---- An acyclic graph has a topological order

  lemma {:induction false} DistinctFits(w: seq<string>, s: set<string>)
    requires Distinct(w) && forall x :: x in w ==> x in s
    ensures |w| <= |s|
  {
    if w == [] {
    } else {
      var last, front := w[|w| - 1], w[..|w| - 1];
      forall x | x in front ensures x in s - {last} {
        assert x in w;
      }
      DistinctFits(front, s - {last});
    }
  }

  /** `x` depends on some member of `s`. */
  ghost predicate LeadsInto(g: Graph, s: set<string>, x: string) {
    exists y :: y in s && Edge(g, x, y)
  }

  /** When every member of `s` depends on some member of `s`, walks inside `s` never have to stop. */
  lemma {:induction false} LongWalk(g: Graph, s: set<string>, n: nat) returns (w: seq<string>)
    requires s != {} && s <= g.Keys
    requires forall x :: x in s ==> LeadsInto(g, s, x)
    ensures Walk(g, w) && |w| == n + 1 && forall x :: x in w ==> x in s
  {
    if n == 0 {
      var x :| x in s;
      w := [x];
    } else {
      var v := LongWalk(g, s, n - 1);
      assert LeadsInto(g, s, v[|v| - 1]);
      var y :| y in s && Edge(g, v[|v| - 1], y);
      WalkAppend(g, v, y);
      w := v + [y];
    }
  }

  lemma WalkInSetRepeats(g: Graph, w: seq<string>, s: set<string>)
    requires Walk(g, w) && |w| > |s| && forall x :: x in w ==> x in s
    ensures !Acyclic(g)
  {
    if Distinct(w) {
      DistinctFits(w, s);
    }
    var i, j :| 0 <= i < j < |w| && w[i] == w[j];
    WalkParts(g, w, 0, j + 1);
    var c := w[0..j + 1];
    assert c[i] == c[|c| - 1];
    RepeatingWalkIsCyclic(g, c);
  }

  lemma SinkExists(g: Graph, s: set<string>) returns (x: string)
    requires Acyclic(g) && s != {} && s <= g.Keys
    ensures x in s && forall y :: Edge(g, x, y) ==> y !in s
  {
    if forall x :: x in s ==> LeadsInto(g, s, x) {
      var w := LongWalk(g, s, |s|);
      WalkInSetRepeats(g, w, s);
    }
    x :| x in s && !LeadsInto(g, s, x);
  }

  lemma {:induction false} ExtendTopo(g: Graph, start: seq<string>) returns (order: seq<string>)
    requires Closed(g) && Acyclic(g) && TopoPrefix(g, start)
    ensures Topo(g, order)
    decreases |g.Keys - (set x | x in start)|
  {
    var rest := g.Keys - set x | x in start;
    if rest == {} {
      order := start;
      forall id | id in g ensures id in order {
        assert id !in rest;
      }
    } else {
      var x := SinkExists(g, rest);
      forall d | d in g[x] ensures d in start {
        assert Edge(g, x, d);
      }
      var longer := start + [x];
      assert forall i :: 0 <= i < |start| ==> longer[..i] == start[..i];
      assert longer[..|start|] == start;
      assert g.Keys - (set y | y in longer) == rest - {x};
      order := ExtendTopo(g, longer);
    }
  }

  lemma AcyclicHasTopo(g: Graph) returns (order: seq<string>)
    requires Closed(g) && Acyclic(g)
    ensures Topo(g, order)
  {
    order := ExtendTopo(g, []);
  }

  lemma {:induction false} LastOf(order: seq<string>, s: set<string>) returns (x: string)
    requires s != {} && Distinct(order) && forall y :: y in s ==> y in order
    ensures x in s && forall y :: y in s ==> Pos(order, y) <= Pos(order, x)
  {
    x :| x in s;
    var rest := s - {x};
    if rest == {} {
      assert s == {x};
    } else {
      var z := LastOf(order, rest);
      if Pos(order, x) < Pos(order, z) {
        x := z;
      }
    }
  }

  /** In an acyclic graph some member of `s` is needed by no other member of `s`. */
  lemma SourceExists(g: Graph, s: set<string>) returns (x: string)
    requires Closed(g) && Acyclic(g) && s != {} && s <= g.Keys
    ensures x in s && forall y :: y in s ==> !Edge(g, y, x)
  {
    var order := AcyclicHasTopo(g);
    x := LastOf(order, s);
    forall y | y in s ensures !Edge(g, y, x) {
      if Edge(g, y, x) {
        EdgeDescends(g, order, y, x);
      }
    }
  }

  // ---- Ranks

  /** Everything has a higher rank than what it depends on. */
  ghost predicate Ranks(g: Graph, rank: map<string, nat>) {
    forall a, b :: Edge(g, a, b) ==> a in rank && b in rank && rank[b] < rank[a]
  }

  lemma {:induction false} WalkLosesRank(g: Graph, rank: map<string, nat>, w: seq<string>)
    requires Ranks(g, rank) && Walk(g, w) && |w| >= 2
    ensures w[0] in rank && w[|w| - 1] in rank && rank[w[|w| - 1]] < rank[w[0]]
    decreases |w|
  {
    assert Step(g, w, 0);
    if |w| == 2 {
    } else {
      WalkParts(g, w, 1, |w|);
      WalkLosesRank(g, rank, w[1..|w|]);
    }
  }

  /** No cycle if and only if the modules can be ranked. */
  lemma AcyclicExactlyRanked(g: Graph)
    requires Closed(g)
    ensures Acyclic(g) <==> exists rank :: Ranks(g, rank)
  {
    if Acyclic(g) {
      var order := AcyclicHasTopo(g);
      var rank: map<string, nat> := map id | id in g :: Pos(order, id);
      forall a, b | Edge(g, a, b) ensures a in rank && b in rank && rank[b] < rank[a] {
        EdgeDescends(g, order, a, b);
      }
      assert Ranks(g, rank);
    }
    forall rank, w | Ranks(g, rank) && ClosedWalk(g, w) ensures false {
      WalkLosesRank(g, rank, w);
    }
  }
}
