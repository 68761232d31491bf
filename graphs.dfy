/**
 * Directed graphs as JGraphT's DefaultDirectedGraph represents them: a vertex set and a set of
 * ordered pairs (no parallel edges, self-loops allowed), with paths, cycles and the two ways the
 * code shrinks a graph (removing a vertex, removing a vertex's outgoing edges).
 */
module Graphs {

  datatype Graph<V> = Graph(vertices: set<V>, edges: set<(V, V)>)

  /** Every edge joins two vertices of the graph: JGraphT refuses any other edge. */
  ghost predicate WellFormed<V(!new)>(g: Graph<V>) {
    forall e | e in g.edges :: e.0 in g.vertices && e.1 in g.vertices
  }

  /** No edge enters v. */
  ghost predicate NoIncoming<V(!new)>(g: Graph<V>, v: V) {
    forall u :: (u, v) !in g.edges
  }

  /** No edge leaves v. */
  ghost predicate NoOutgoing<V(!new)>(g: Graph<V>, v: V) {
    forall w :: (v, w) !in g.edges
  }

  /** The subgraph induced by the vertices of g that are in keep. */
  function Restrict<V(!new)>(g: Graph<V>, keep: set<V>): (r: Graph<V>)
    ensures r.vertices <= g.vertices && r.edges <= g.edges
    ensures WellFormed(g) ==> WellFormed(r)
  {
    Graph(g.vertices * keep, set e | e in g.edges && e.0 in keep && e.1 in keep)
  }

  /** JGraphT's removeVertex: v and every edge touching it disappear. */
  function RemoveVertex<V(!new)>(g: Graph<V>, v: V): (r: Graph<V>)
    ensures r.vertices == g.vertices - {v}
    ensures forall e :: e in r.edges <==> e in g.edges && e.0 != v && e.1 != v
    ensures WellFormed(g) ==> WellFormed(r)
  {
    Graph(g.vertices - {v}, set e | e in g.edges && e.0 != v && e.1 != v)
  }

  /** Every edge leaving v removed; the vertex set is kept. */
  function RemoveOutgoing<V(!new)>(g: Graph<V>, v: V): (r: Graph<V>)
    ensures r.vertices == g.vertices
    ensures forall e :: e in r.edges <==> e in g.edges && e.0 != v
    ensures WellFormed(g) ==> WellFormed(r) && NoOutgoing(r, v)
  {
    Graph(g.vertices, set e | e in g.edges && e.0 != v)
  }

  /** The targets of the edges leaving v. */
  function Successors<V(!new)>(g: Graph<V>, v: V): (r: set<V>)
    ensures forall w :: w in r <==> (v, w) in g.edges
  {
    set e | e in g.edges && e.0 == v :: e.1
  }

  lemma RemoveVertexIsRestrict<V(!new)>(g: Graph<V>, keep: set<V>, v: V)
    requires v in keep
    ensures RemoveVertex(Restrict(g, keep), v) == Restrict(g, keep - {v})
  {
  }

  lemma RestrictAll<V(!new)>(g: Graph<V>)
    requires WellFormed(g)
    ensures Restrict(g, g.vertices) == g
  {
  }

  // ---------------------------------------------------------------- paths and cycles

  /** p is a walk of g: a non-empty sequence of vertices, each joined to the next by an edge. */
  ghost predicate IsPath<V(!new)>(g: Graph<V>, p: seq<V>) {
    && |p| >= 1
    && (forall i | 0 <= i < |p| :: p[i] in g.vertices)
    && (forall i | 0 <= i < |p| - 1 :: (p[i], p[i + 1]) in g.edges)
  }

  /** p is a closed walk with at least one edge (a self-loop is a cycle). */
  ghost predicate IsCycle<V(!new)>(g: Graph<V>, p: seq<V>) {
    |p| >= 2 && IsPath(g, p) && p[0] == p[|p| - 1]
  }

  ghost predicate HasCycle<V(!new)>(g: Graph<V>) {
    exists p :: IsCycle(g, p)
  }

  ghost predicate Distinct<V(!new)>(s: seq<V>) {
    forall i, j | 0 <= i < |s| && 0 <= j < |s| && i != j :: s[i] != s[j]
  }

  function Elems<V(!new)>(s: seq<V>): (r: set<V>)
    ensures forall x :: x in r <==> x in s
  {
    set x | x in s
  }

  /** A sequence without repetitions has as many elements as its element set. */
  lemma {:induction false} DistinctCard<V(!new)>(s: seq<V>)
    requires Distinct(s)
    ensures |Elems(s)| == |s|
  {
    if s != [] {
      var t := s[1..];
      DistinctCard(t);
      assert Elems(s) == {s[0]} + Elems(t);
      assert forall k | 0 <= k < |t| :: t[k] == s[k + 1] && s[k + 1] != s[0];
    }
  }

  /** Every cycle of an induced subgraph is a cycle of the whole graph. */
  lemma RestrictCycle<V(!new)>(g: Graph<V>, keep: set<V>)
    ensures HasCycle(Restrict(g, keep)) ==> HasCycle(g)
  {
    if HasCycle(Restrict(g, keep)) {
      var p :| IsCycle(Restrict(g, keep), p);
      assert IsCycle(g, p);
    }
  }

  /** A walk that visits a vertex twice contains a cycle. */
  lemma {:induction false} RepeatedVertexCycle<V(!new)>(g: Graph<V>, p: seq<V>, i: nat, j: nat)
    requires IsPath(g, p) && i < j < |p| && p[i] == p[j]
    ensures HasCycle(g)
  {
    var c := p[i..j + 1];
    forall k | 0 <= k < |c| - 1 ensures (c[k], c[k + 1]) in g.edges {
      assert c[k] == p[i + k] && c[k + 1] == p[i + k + 1];
    }
    assert IsCycle(g, c);
  }

  /**
   * Walking backwards along incoming edges from the head of a walk without repetitions either
   * reaches a vertex with no incoming edge or closes a cycle.
   */
  lemma {:induction false} WalkBack<V(!new)>(g: Graph<V>, p: seq<V>) returns (s: V)
    requires WellFormed(g) && IsPath(g, p) && Distinct(p)
    ensures s in g.vertices
    ensures NoIncoming(g, s) || HasCycle(g)
    decreases |g.vertices| - |p|
  {
    DistinctCard(p);
    assert Elems(p) <= g.vertices;
    if NoIncoming(g, p[0]) {
      return p[0];
    }
    var u :| (u, p[0]) in g.edges;
    var q := [u] + p;
    assert IsPath(g, q) by {
      forall i | 0 <= i < |q| - 1 ensures (q[i], q[i + 1]) in g.edges {
        if i > 0 { assert q[i] == p[i - 1] && q[i + 1] == p[i]; }
      }
    }
    if u in p {
      var k :| 0 <= k < |p| && p[k] == u;
      assert q[k + 1] == u;
      RepeatedVertexCycle(g, q, 0, k + 1);
      return u;
    }
    assert Distinct(q) by {
      forall i, j | 0 <= i < |q| && 0 <= j < |q| && i != j ensures q[i] != q[j] {
        if i > 0 && j > 0 { assert q[i] == p[i - 1] && q[j] == p[j - 1]; }
        else if i == 0 { assert q[j] == p[j - 1]; }
        else { assert q[i] == p[i - 1]; }
      }
    }
    DistinctCard(q);
    assert Elems(q) <= g.vertices;
    assert |Elems(q)| <= |g.vertices| by { SubsetCard(Elems(q), g.vertices); }
    s := WalkBack(g, q);
  }

  /** Moving x from todo to done keeps their union. */
  lemma MoveOne<V>(done: set<V>, todo: set<V>, x: V)
    requires x in todo
    ensures (done + {x}) + (todo - {x}) == done + todo
  {
  }

  lemma SubsetCard<V(!new)>(a: set<V>, b: set<V>)
    requires a <= b
    ensures |a| <= |b|
  {
    assert b == a + (b - a);
  }

  /** A non-empty graph without cycles has a vertex that no edge enters. */
  lemma AcyclicHasSource<V(!new)>(g: Graph<V>) returns (s: V)
    requires WellFormed(g) && g.vertices != {}
    ensures s in g.vertices
    ensures NoIncoming(g, s) || HasCycle(g)
  {
    var v :| v in g.vertices;
    s := WalkBack(g, [v]);
  }

  /** A vertex on a cycle has an incoming edge. */
  lemma CycleVertexHasIncoming<V(!new)>(g: Graph<V>, p: seq<V>, k: nat)
    requires IsCycle(g, p) && k < |p|
    ensures !NoIncoming(g, p[k])
  {
    if k == 0 {
      assert (p[|p| - 2], p[|p| - 1]) in g.edges;
    } else {
      assert (p[k - 1], p[k]) in g.edges;
    }
  }
}
