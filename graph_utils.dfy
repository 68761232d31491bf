/**
 * The graph queries of both GraphUtils classes (the one in package `library`, which the scheduler
 * imports, and the one in package `library.graph`, which the dependency manager imports): the
 * source, leaf and predicate filters, and the contracts of the JGraphT-backed cycle detection,
 * topological sort and reachability.
 */
module GraphUtils {
  import opened Wrappers
  import opened Graphs

  /** The exception JGraphT throws when a traversal starts at a vertex the graph does not hold. */
  datatype GraphError = VertexNotInGraph

  function InDegree<V(!new)>(g: Graph<V>, v: V): (r: nat)
    ensures r == 0 <==> NoIncoming(g, v)
  {
    var into := set e | e in g.edges && e.1 == v;
    assert into == {} <== NoIncoming(g, v);
    assert forall u :: (u, v) in g.edges ==> (u, v) in into;
    |into|
  }

  function OutDegree<V(!new)>(g: Graph<V>, v: V): (r: nat)
    ensures r == 0 <==> NoOutgoing(g, v)
  {
    var outOf := set e | e in g.edges && e.0 == v;
    assert outOf == {} <== NoOutgoing(g, v);
    assert forall w :: (v, w) in g.edges ==> (v, w) in outOf;
    |outOf|
  }

  /** getSourcesVertices: the vertices of in-degree 0. */
  function Sources<V(!new)>(g: Graph<V>): (r: set<V>)
    ensures r <= g.vertices
    ensures forall v :: v in r <==> v in g.vertices && NoIncoming(g, v)
  {
    set v | v in g.vertices && InDegree(g, v) == 0
  }

  /** getLeafVertices: the vertices of out-degree 0. */
  function Leaves<V(!new)>(g: Graph<V>): (r: set<V>)
    ensures r <= g.vertices
    ensures forall v :: v in r <==> v in g.vertices && NoOutgoing(g, v)
  {
    set v | v in g.vertices && OutDegree(g, v) == 0
  }

  /** getVerticesSuchThat / getLVerticesSuchThat: the vertices the predicate accepts. */
  function VerticesSuchThat<V(!new)>(g: Graph<V>, p: V -> bool): (r: set<V>)
    ensures r <= g.vertices
    ensures forall v :: v in r <==> v in g.vertices && p(v)
  {
    set v | v in g.vertices && p(v)
  }

  /** The documented example: filtering by out-degree 0 gives the leaves. */
  lemma LeavesAreSuchThatOutDegreeZero<V(!new)>(g: Graph<V>)
    ensures VerticesSuchThat(g, v => OutDegree(g, v) == 0) == Leaves(g)
  {
  }

  /** Filtering with the in-degree-0 predicate gives the sources. */
  lemma SourcesAreSuchThatInDegreeZero<V(!new)>(g: Graph<V>)
    ensures VerticesSuchThat(g, v => InDegree(g, v) == 0) == Sources(g)
  {
  }

  /** The small graph of the tests: 1 -> 2, 1 -> 3, 3 -> 4. */
  function SmallGraph(): Graph<int> {
    Graph({1, 2, 3, 4}, {(1, 2), (1, 3), (3, 4)})
  }

  /** The complex graph of the tests. */
  function ComplexGraph(): Graph<int> {
    Graph({5, 7, 3, 11, 8, 2, 9, 10},
      {(5, 11), (11, 2), (11, 9), (11, 10), (7, 11), (7, 8), (8, 9), (3, 8), (3, 10)})
  }

  /** s is the set of sources once its members have no incoming edge and every other vertex has one. */
  lemma SourcesAre<V(!new)>(g: Graph<V>, s: set<V>)
    requires s <= g.vertices
    requires forall v :: v in s ==> NoIncoming(g, v)
    requires forall v :: v in g.vertices - s ==> exists u :: (u, v) in g.edges
    ensures Sources(g) == s
  {
    forall v | v in g.vertices - s ensures !NoIncoming(g, v) {
      var u :| (u, v) in g.edges;
    }
  }

  /** s is the set of leaves once its members have no outgoing edge and every other vertex has one. */
  lemma LeavesAre<V(!new)>(g: Graph<V>, s: set<V>)
    requires s <= g.vertices
    requires forall v :: v in s ==> NoOutgoing(g, v)
    requires forall v :: v in g.vertices - s ==> exists w :: (v, w) in g.edges
    ensures Leaves(g) == s
  {
    forall v | v in g.vertices - s ensures !NoOutgoing(g, v) {
      var w :| (v, w) in g.edges;
    }
  }

  /** The expected sources and leaves of the small graph. */
  lemma SmallGraphSourcesAndLeaves()
    ensures Sources(SmallGraph()) == {1}
    ensures Leaves(SmallGraph()) == {2, 4}
  {
    var g := SmallGraph();
    assert (1, 2) in g.edges && (1, 3) in g.edges && (3, 4) in g.edges;
    SourcesAre(g, {1});
    LeavesAre(g, {2, 4});
  }

  /** The expected sources of the complex graph. */
  lemma ComplexGraphSources()
    ensures Sources(ComplexGraph()) == {5, 3, 7}
  {
    var g := ComplexGraph();
    assert (5, 11) in g.edges && (7, 8) in g.edges && (11, 2) in g.edges;
    assert (8, 9) in g.edges && (3, 10) in g.edges;
    SourcesAre(g, {5, 3, 7});
  }

  /** The expected leaves of the complex graph. */
  lemma ComplexGraphLeaves()
    ensures Leaves(ComplexGraph()) == {2, 9, 10}
  {
    var g := ComplexGraph();
    assert (5, 11) in g.edges && (7, 8) in g.edges && (3, 8) in g.edges;
    assert (11, 2) in g.edges && (8, 9) in g.edges;
    LeavesAre(g, {2, 9, 10});
  }

  // ---------------------------------------------------------------- cycle detection

  /** A graph without vertices has no walk, hence no cycle. */
  lemma NoVerticesNoCycle<V(!new)>(g: Graph<V>)
    requires g.vertices == {}
    ensures !HasCycle(g)
  {
    forall p | |p| >= 1 ensures !IsPath(g, p) {
      assert p[0] !in g.vertices;
    }
  }

  /**
   * Removing all sources keeps every cycle: each vertex of a cycle has an incoming edge, so none
   * of them is a source.
   */
  lemma PeelSourcesKeepsCycles<V(!new)>(g: Graph<V>)
    requires WellFormed(g)
    ensures HasCycle(g) <==> HasCycle(Restrict(g, g.vertices - Sources(g)))
  {
    var keep := g.vertices - Sources(g);
    RestrictCycle(g, keep);
    if HasCycle(g) {
      var p :| IsCycle(g, p);
      forall k | 0 <= k < |p| ensures p[k] in keep {
        CycleVertexHasIncoming(g, p, k);
      }
      assert IsCycle(Restrict(g, keep), p);
    }
  }

  /** A non-empty graph in which every vertex has an incoming edge has a cycle. */
  lemma SourcelessMeansCycle<V(!new)>(g: Graph<V>)
    requires WellFormed(g) && g.vertices != {} && Sources(g) == {}
    ensures HasCycle(g)
  {
    var v := AcyclicHasSource(g);
    assert v !in Sources(g);
  }

  /**
   * A decision procedure for HasCycle: repeatedly remove every source; the graph is acyclic
   * exactly when this empties it. It stands in for JGraphT's CycleDetector where the code needs a
   * yes/no answer.
   */
  function DetectCycles<V(!new)>(g: Graph<V>): (r: bool)
    requires WellFormed(g)
    ensures r <==> HasCycle(g)
    decreases |g.vertices|
  {
    if g.vertices == {} then
      NoVerticesNoCycle(g);
      false
    else
      var s := Sources(g);
      if s == {} then
        SourcelessMeansCycle(g);
        true
      else
        PeelSourcesKeepsCycles(g);
        var h := Restrict(g, g.vertices - s);
        assert h.vertices == g.vertices - s;
        assert |h.vertices| < |g.vertices| by {
          var x :| x in s;
          SubsetCard(h.vertices, g.vertices - {x});
        }
        DetectCycles(h)
  }

  // ---------------------------------------------------------------- topological order

  /** o lists every vertex exactly once and every edge goes forward in o. */
  ghost predicate IsTopologicalOrder<V(!new)>(g: Graph<V>, o: seq<V>) {
    && Distinct(o)
    && (forall v :: v in o <==> v in g.vertices)
    && (forall i, j | 0 <= i < |o| && 0 <= j < |o| && (o[i], o[j]) in g.edges :: i < j)
  }

  ghost function IndexOf<V(!new)>(o: seq<V>, v: V): (i: nat)
    requires v in o
    ensures i < |o| && o[i] == v
  {
    var i :| 0 <= i < |o| && o[i] == v; i
  }

  /** Along a walk of at least one edge, positions in a topological order strictly increase. */
  lemma {:induction false} PathGoesForward<V(!new)>(g: Graph<V>, o: seq<V>, p: seq<V>)
    requires IsTopologicalOrder(g, o) && IsPath(g, p) && |p| >= 2
    ensures IndexOf(o, p[0]) < IndexOf(o, p[|p| - 1])
  {
    var n := |p|;
    assert (p[n - 2], p[n - 1]) in g.edges;
    assert IndexOf(o, p[n - 2]) < IndexOf(o, p[n - 1]) by {
      var i, j := IndexOf(o, p[n - 2]), IndexOf(o, p[n - 1]);
      assert (o[i], o[j]) in g.edges;
    }
    if n > 2 {
      var q := p[..n - 1];
      assert IsPath(g, q) by {
        forall i | 0 <= i < |q| - 1 ensures (q[i], q[i + 1]) in g.edges {
          assert q[i] == p[i] && q[i + 1] == p[i + 1];
        }
      }
      PathGoesForward(g, o, q);
    }
  }

  /** A graph that has a topological order has no cycle. */
  lemma TopologicalOrderMeansAcyclic<V(!new)>(g: Graph<V>, o: seq<V>)
    requires IsTopologicalOrder(g, o)
    ensures !HasCycle(g)
  {
    forall p | IsPath(g, p) && |p| >= 2 ensures p[0] != p[|p| - 1] {
      PathGoesForward(g, o, p);
    }
  }

  /** Kahn's construction: put a source first, then order the rest. */
  lemma {:induction false} BuildTopologicalOrder<V(!new)>(g: Graph<V>) returns (o: seq<V>)
    requires WellFormed(g) && !HasCycle(g)
    ensures IsTopologicalOrder(g, o)
    decreases |g.vertices|
  {
    if g.vertices == {} {
      return [];
    }
    var s := AcyclicHasSource(g);
    var h := Restrict(g, g.vertices - {s});
    RestrictCycle(g, g.vertices - {s});
    assert h.vertices == g.vertices - {s};
    var rest := BuildTopologicalOrder(h);
    o := [s] + rest;
    assert s !in rest;
    assert Distinct(o) by {
      forall i, j | 0 <= i < |o| && 0 <= j < |o| && i != j ensures o[i] != o[j] {
        if i > 0 && j > 0 { assert o[i] == rest[i - 1] && o[j] == rest[j - 1]; }
        else if i == 0 { assert o[j] == rest[j - 1]; }
        else { assert o[i] == rest[i - 1]; }
      }
    }
    forall i, j | 0 <= i < |o| && 0 <= j < |o| && (o[i], o[j]) in g.edges ensures i < j {
      assert o[j] != s;
      if i > 0 {
        assert o[i] == rest[i - 1] && o[j] == rest[j - 1];
        assert (rest[i - 1], rest[j - 1]) in h.edges;
      }
    }
  }

  lemma TopologicalOrderExists<V(!new)>(g: Graph<V>)
    requires WellFormed(g) && !HasCycle(g)
    ensures exists o :: IsTopologicalOrder(g, o)
  {
    var o := BuildTopologicalOrder(g);
  }

  /**
   * toposort: empty exactly when the graph has a cycle, otherwise an order of all vertices in
   * which each edge's source comes before its target (the iteration order of JGraphT's
   * TopologicalOrderIterator is one such order).
   */
  ghost function Toposort<V(!new)>(g: Graph<V>): (r: Option<seq<V>>)
    requires WellFormed(g)
    ensures r.None? <==> HasCycle(g)
    ensures r.Some? ==> IsTopologicalOrder(g, r.value)
  {
    if HasCycle(g) then None
    else
      TopologicalOrderExists(g);
      var o :| IsTopologicalOrder(g, o);
      Some(o)
  }

  /** The cyclic graph of the tests (the small graph and 4 -> 1) has a cycle, so no toposort. */
  lemma CyclicGraphHasNoToposort()
    ensures Toposort(Graph({1, 2, 3, 4}, {(1, 2), (1, 3), (3, 4), (4, 1)})) == None
  {
    var g := Graph({1, 2, 3, 4}, {(1, 2), (1, 3), (3, 4), (4, 1)});
    assert IsCycle(g, [1, 3, 4, 1]);
  }

  /** The small graph has a toposort, and in it 1 comes before 3, which comes before 4. */
  lemma SmallGraphToposort()
    ensures Toposort(SmallGraph()).Some?
    ensures var o := Toposort(SmallGraph()).value;
      IndexOf(o, 1) < IndexOf(o, 3) < IndexOf(o, 4) && IndexOf(o, 1) < IndexOf(o, 2)
  {
    var g := SmallGraph();
    var o := [1, 2, 3, 4];
    assert IsTopologicalOrder(g, o);
    TopologicalOrderMeansAcyclic(g, o);
    var t := Toposort(g).value;
    assert (t[IndexOf(t, 1)], t[IndexOf(t, 3)]) in g.edges;
    assert (t[IndexOf(t, 3)], t[IndexOf(t, 4)]) in g.edges;
    assert (t[IndexOf(t, 1)], t[IndexOf(t, 2)]) in g.edges;
  }

  // ---------------------------------------------------------------- reachability

  ghost predicate Reaches<V(!new)>(g: Graph<V>, s: V, v: V) {
    exists p :: IsPath(g, p) && p[0] == s && p[|p| - 1] == v
  }

  /** Every successor of a reachable vertex is reachable. */
  lemma ReachesStep<V(!new)>(g: Graph<V>, s: V, v: V, w: V)
    requires WellFormed(g) && Reaches(g, s, v) && (v, w) in g.edges
    ensures Reaches(g, s, w)
  {
    var p :| IsPath(g, p) && p[0] == s && p[|p| - 1] == v;
    var q := p + [w];
    assert forall i | 0 <= i < |p| :: q[i] == p[i];
    assert IsPath(g, q);
  }

  /**
   * getAllReachableVerticesFromSource: fails when the source is not a vertex; otherwise the set
   * holds the source, stays inside the graph, and is closed under outgoing edges.
   */
  ghost function AllReachableFrom<V(!new)>(g: Graph<V>, s: V): (r: Result<set<V>, GraphError>)
    requires WellFormed(g)
    ensures r.Failure? <==> s !in g.vertices
    ensures r.Success? ==> s in r.value && r.value <= g.vertices
    ensures r.Success? ==> forall v, w :: v in r.value && (v, w) in g.edges ==> w in r.value
    ensures r.Success? ==> forall v :: v in r.value ==> Reaches(g, s, v)
  {
    if s !in g.vertices then Failure(VertexNotInGraph)
    else
      var reach := set v | v in g.vertices && Reaches(g, s, v);
      assert IsPath(g, [s]);
      forall v, w | v in reach && (v, w) in g.edges ensures w in reach {
        ReachesStep(g, s, v, w);
      }
      Success(reach)
  }

  /** Every vertex at the end of a walk from s lies in any edge-closed set that holds s. */
  lemma {:induction false} ClosedSetHoldsPath<V(!new)>(g: Graph<V>, c: set<V>, p: seq<V>)
    requires IsPath(g, p) && p[0] in c
    requires forall v, w :: v in c && (v, w) in g.edges ==> w in c
    ensures p[|p| - 1] in c
  {
    if |p| > 1 {
      var q := p[..|p| - 1];
      assert IsPath(g, q) by {
        forall i | 0 <= i < |q| - 1 ensures (q[i], q[i + 1]) in g.edges {
          assert q[i] == p[i] && q[i + 1] == p[i + 1];
        }
      }
      ClosedSetHoldsPath(g, c, q);
      assert (p[|p| - 2], p[|p| - 1]) in g.edges;
    }
  }

  /** The reachable set is the least edge-closed set that holds the source. */
  lemma ReachableIsLeast<V(!new)>(g: Graph<V>, s: V, c: set<V>)
    requires WellFormed(g) && s in g.vertices && s in c
    requires forall v, w :: v in c && (v, w) in g.edges ==> w in c
    ensures AllReachableFrom(g, s).value <= c
  {
    forall v | v in AllReachableFrom(g, s).value ensures v in c {
      var p :| IsPath(g, p) && p[0] == s && p[|p| - 1] == v;
      ClosedSetHoldsPath(g, c, p);
    }
  }
}
