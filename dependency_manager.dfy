/**
 * DependencyManagerBuilder and DependencyManagerImpl: a generic dependency tracker. The builder
 * records, for every entity, the entities it depends on and the entities that depend on it; the
 * manager built from it holds a graph with an edge from each dependency to each of its
 * dependants and lets sources of that graph be resolved one at a time.
 */
module DependencyManagers {
  import opened Wrappers
  import opened Graphs
  import opened GraphUtils

  /** The IllegalArgumentExceptions the manager throws. */
  datatype DependencyError =
    | NotResolvable   // resolve of an entity that still has unresolved dependencies
    | NotManaged      // a query about an entity the builder never saw

  /** The two maps of the builder: what each entity depends on, and what depends on it. */
  datatype Declared<T> = Declared(dependencyMap: map<T, set<T>>, dependantsMap: map<T, set<T>>)

  /**
   * The maps describe one dependency relation from both sides: they have the same entities, and
   * d is a dependency of e exactly when e is a dependant of d.
   */
  ghost predicate MutuallyInverse<T(!new)>(s: Declared<T>) {
    && s.dependencyMap.Keys == s.dependantsMap.Keys
    && DependenciesHaveDependants(s)
    && DependantsHaveDependencies(s)
  }

  ghost predicate DependenciesHaveDependants<T(!new)>(s: Declared<T>) {
    forall e, d | e in s.dependencyMap && d in s.dependencyMap[e] ::
      d in s.dependantsMap && e in s.dependantsMap[d]
  }

  ghost predicate DependantsHaveDependencies<T(!new)>(s: Declared<T>) {
    forall d, e | d in s.dependantsMap && e in s.dependantsMap[d] ::
      e in s.dependencyMap && d in s.dependencyMap[e]
  }

  /** putIfAbsent(e, new HashSet<>()) */
  function Register<T>(m: map<T, set<T>>, e: T): (r: map<T, set<T>>)
    ensures r.Keys == m.Keys + {e}
    ensures forall x | x in m :: r[x] == m[x]
    ensures e !in m ==> r[e] == {}
  {
    if e in m then m else m[e := {}]
  }

  /** add(e): e gets an empty entry in each map where it has none. */
  function AddStep<T>(s: Declared<T>, e: T): Declared<T> {
    Declared(Register(s.dependencyMap, e), Register(s.dependantsMap, e))
  }

  /** addDependency(e, d): both are added, then d joins e's dependencies and e joins d's dependants. */
  function AddDependencyStep<T>(s: Declared<T>, e: T, d: T): (r: Declared<T>)
    ensures r.dependencyMap.Keys == s.dependencyMap.Keys + {e, d}
    ensures r.dependantsMap.Keys == s.dependantsMap.Keys + {e, d}
  {
    var s1 := AddStep(AddStep(s, e), d);
    Declared(
      s1.dependencyMap[e := s1.dependencyMap[e] + {d}],
      s1.dependantsMap[d := s1.dependantsMap[d] + {e}])
  }

  /** The entry of x, or the empty set that add(x) would put there. */
  function Entry<T>(m: map<T, set<T>>, x: T): set<T> {
    if x in m then m[x] else {}
  }

  /** dependencyMap after addDependencies(e, deps): e's entry has gained deps. */
  function WithDependencies<T>(m: map<T, set<T>>, e: T, deps: set<T>): (r: map<T, set<T>>)
    ensures r.Keys == m.Keys + {e} + deps
    ensures forall x | x in r :: r[x] == Entry(m, x) + (if x == e then deps else {})
  {
    map x | x in m.Keys + {e} + deps :: Entry(m, x) + (if x == e then deps else {})
  }

  /** dependantsMap after addDependencies(e, deps): each member of deps has gained e. */
  function WithDependant<T>(m: map<T, set<T>>, e: T, deps: set<T>): (r: map<T, set<T>>)
    ensures r.Keys == m.Keys + {e} + deps
    ensures forall x | x in r :: r[x] == Entry(m, x) + (if x in deps then {e} else {})
  {
    map x | x in m.Keys + {e} + deps :: Entry(m, x) + (if x in deps then {e} else {})
  }

  /**
   * The state after addDependencies(e, deps): e and every member of deps are present, deps has
   * joined e's dependencies, e has joined the dependants of every member of deps, and every other
   * entry is as before.
   */
  function AddAll<T>(s: Declared<T>, e: T, deps: set<T>): Declared<T> {
    Declared(WithDependencies(s.dependencyMap, e, deps), WithDependant(s.dependantsMap, e, deps))
  }

  lemma RegisterEntry<T>(m: map<T, set<T>>, k: T, x: T)
    ensures Entry(Register(m, k), x) == Entry(m, x)
  {
  }

  /** dependencyMap after one more addDependency(e, d) on top of addDependencies(e, done). */
  function DependenciesThen<T>(m: map<T, set<T>>, e: T, done: set<T>, d: T): map<T, set<T>> {
    var m1 := Register(Register(WithDependencies(m, e, done), e), d);
    m1[e := m1[e] + {d}]
  }

  /** dependantsMap after one more addDependency(e, d) on top of addDependencies(e, done). */
  function DependantThen<T>(m: map<T, set<T>>, e: T, done: set<T>, d: T): map<T, set<T>> {
    var m1 := Register(Register(WithDependant(m, e, done), e), d);
    m1[d := m1[d] + {e}]
  }

  lemma DependenciesThenAt<T>(m: map<T, set<T>>, e: T, done: set<T>, d: T, x: T)
    requires x in DependenciesThen(m, e, done, d)
    ensures x in WithDependencies(m, e, done + {d})
    ensures DependenciesThen(m, e, done, d)[x] == WithDependencies(m, e, done + {d})[x]
  {
    var w := WithDependencies(m, e, done);
    RegisterEntry(w, e, x);
    RegisterEntry(Register(w, e), d, x);
  }

  lemma DependantThenAt<T>(m: map<T, set<T>>, e: T, done: set<T>, d: T, x: T)
    requires x in DependantThen(m, e, done, d)
    ensures x in WithDependant(m, e, done + {d})
    ensures DependantThen(m, e, done, d)[x] == WithDependant(m, e, done + {d})[x]
  {
    var w := WithDependant(m, e, done);
    RegisterEntry(w, e, x);
    RegisterEntry(Register(w, e), d, x);
  }

  lemma WithDependenciesStep<T>(m: map<T, set<T>>, e: T, done: set<T>, d: T)
    ensures DependenciesThen(m, e, done, d) == WithDependencies(m, e, done + {d})
  {
    var l := DependenciesThen(m, e, done, d);
    var r := WithDependencies(m, e, done + {d});
    forall x | x in l ensures x in r && l[x] == r[x] {
      DependenciesThenAt(m, e, done, d, x);
    }
    assert l.Keys == r.Keys;
  }

  lemma WithDependantStep<T>(m: map<T, set<T>>, e: T, done: set<T>, d: T)
    ensures DependantThen(m, e, done, d) == WithDependant(m, e, done + {d})
  {
    var l := DependantThen(m, e, done, d);
    var r := WithDependant(m, e, done + {d});
    forall x | x in l ensures x in r && l[x] == r[x] {
      DependantThenAt(m, e, done, d, x);
    }
    assert l.Keys == r.Keys;
  }

  /** add(e) changes nothing the second time. */
  lemma AddIdempotent<T>(s: Declared<T>, e: T)
    ensures AddStep(AddStep(s, e), e) == AddStep(s, e)
    ensures e in s.dependencyMap && e in s.dependantsMap ==> AddStep(s, e) == s
  {
  }

  lemma AddKeepsInverse<T(!new)>(s: Declared<T>, e: T)
    requires MutuallyInverse(s)
    ensures MutuallyInverse(AddStep(s, e))
  {
  }

  /** addDependency records the pair (e, d) and changes no other entity's entries. */
  lemma AddDependencyRecordsPair<T>(s: Declared<T>, e: T, d: T)
    ensures var r := AddDependencyStep(s, e, d);
      && d in r.dependencyMap[e] && e in r.dependantsMap[d]
      && (forall x | x in s.dependencyMap && x != e :: r.dependencyMap[x] == s.dependencyMap[x])
      && (forall x | x in s.dependantsMap && x != d :: r.dependantsMap[x] == s.dependantsMap[x])
  {
  }

  /** addDependency keeps the maps mutually inverse. */
  lemma AddDependencyEntries<T>(s: Declared<T>, e: T, d: T, x: T)
    ensures var r := AddDependencyStep(s, e, d);
      && Entry(r.dependencyMap, x) == Entry(s.dependencyMap, x) + (if x == e then {d} else {})
      && Entry(r.dependantsMap, x) == Entry(s.dependantsMap, x) + (if x == d then {e} else {})
  {
    RegisterEntry(s.dependencyMap, e, x);
    RegisterEntry(Register(s.dependencyMap, e), d, x);
    RegisterEntry(s.dependantsMap, e, x);
    RegisterEntry(Register(s.dependantsMap, e), d, x);
  }

  lemma AddDependencyKeepsDependants<T(!new)>(s: Declared<T>, e: T, d: T)
    requires DependenciesHaveDependants(s)
    ensures DependenciesHaveDependants(AddDependencyStep(s, e, d))
  {
    var r := AddDependencyStep(s, e, d);
    forall x, y | x in r.dependencyMap && y in r.dependencyMap[x]
      ensures y in r.dependantsMap && x in r.dependantsMap[y]
    {
      AddDependencyEntries(s, e, d, x);
      AddDependencyEntries(s, e, d, y);
      assert y in Entry(r.dependencyMap, x);
    }
  }

  lemma AddDependencyKeepsDependencies<T(!new)>(s: Declared<T>, e: T, d: T)
    requires DependantsHaveDependencies(s)
    ensures DependantsHaveDependencies(AddDependencyStep(s, e, d))
  {
    var r := AddDependencyStep(s, e, d);
    forall y, x | y in r.dependantsMap && x in r.dependantsMap[y]
      ensures x in r.dependencyMap && y in r.dependencyMap[x]
    {
      AddDependencyEntries(s, e, d, x);
      AddDependencyEntries(s, e, d, y);
      assert x in Entry(r.dependantsMap, y);
    }
  }

  /** addDependency keeps the maps mutually inverse. */
  lemma AddDependencyKeepsInverse<T(!new)>(s: Declared<T>, e: T, d: T)
    requires MutuallyInverse(s)
    ensures MutuallyInverse(AddDependencyStep(s, e, d))
  {
    AddDependencyKeepsDependants(s, e, d);
    AddDependencyKeepsDependencies(s, e, d);
  }

  lemma WithNoDependencies<T>(m: map<T, set<T>>, e: T)
    ensures WithDependencies(m, e, {}) == Register(m, e)
  {
    var l := WithDependencies(m, e, {});
    assert l.Keys == Register(m, e).Keys;
    assert forall x | x in l :: l[x] == Entry(m, x);
  }

  lemma WithNoDependant<T>(m: map<T, set<T>>, e: T)
    ensures WithDependant(m, e, {}) == Register(m, e)
  {
    var l := WithDependant(m, e, {});
    assert l.Keys == Register(m, e).Keys;
    assert forall x | x in l :: l[x] == Entry(m, x);
  }

  /** addDependencies(e, {}) is add(e). */
  lemma AddAllEmpty<T>(s: Declared<T>, e: T)
    ensures AddAll(s, e, {}) == AddStep(s, e)
  {
    WithNoDependencies(s.dependencyMap, e);
    WithNoDependant(s.dependantsMap, e);
  }

  /**
   * One more addDependency(e, d) extends the recorded set by d, so addDependencies(e, deps) is
   * addDependency(e, d) for each d in deps, in any order.
   */
  lemma AddAllStep<T>(s: Declared<T>, e: T, done: set<T>, d: T)
    ensures AddDependencyStep(AddAll(s, e, done), e, d) == AddAll(s, e, done + {d})
  {
    WithDependenciesStep(s.dependencyMap, e, done, d);
    WithDependantStep(s.dependantsMap, e, done, d);
  }

  /** addDependencies keeps the maps mutually inverse. */
  lemma {:induction false} AddAllKeepsInverse<T(!new)>(s: Declared<T>, e: T, deps: set<T>)
    requires MutuallyInverse(s)
    ensures MutuallyInverse(AddAll(s, e, deps))
    decreases deps
  {
    if deps == {} {
      AddAllEmpty(s, e);
      AddKeepsInverse(s, e);
    } else {
      var d :| d in deps;
      var rest := deps - {d};
      assert rest + {d} == deps;
      AddAllKeepsInverse(s, e, rest);
      var mid := AddAll(s, e, rest);
      AddDependencyKeepsInverse(mid, e, d);
      AddAllStep(s, e, rest, d);
      assert AddAll(s, e, deps) == AddDependencyStep(mid, e, d);
    }
  }

  /** The edges from each entity of from to each of its dependants. */
  function DependantEdges<T(!new)>(dependants: map<T, set<T>>, from: set<T>): (r: set<(T, T)>)
    ensures forall e :: e in r <==> e.0 in from && e.0 in dependants && e.1 in dependants[e.0]
  {
    set d, t | d in from && d in dependants && t in dependants[d] :: (d, t)
  }

  /** The graph build() creates: the entities, and an edge from every dependency to its dependant. */
  function BuiltGraph<T(!new)>(s: Declared<T>): Graph<T> {
    Graph(s.dependencyMap.Keys, DependantEdges(s.dependantsMap, s.dependantsMap.Keys))
  }

  /** The built graph has every edge between entities, and d -> t exactly when t depends on d. */
  lemma BuiltGraphEdges<T(!new)>(s: Declared<T>)
    requires MutuallyInverse(s)
    ensures WellFormed(BuiltGraph(s))
    ensures forall d, t :: (d, t) in BuiltGraph(s).edges <==> t in s.dependencyMap && d in s.dependencyMap[t]
  {
    var g := BuiltGraph(s);
    forall d, t ensures (d, t) in g.edges <==> t in s.dependencyMap && d in s.dependencyMap[t] {
      if (d, t) in g.edges {
        assert d in s.dependantsMap && t in s.dependantsMap[d];
      }
      if t in s.dependencyMap && d in s.dependencyMap[t] {
        assert d in s.dependantsMap && t in s.dependantsMap[d];
      }
    }
    forall x | x in g.edges ensures x.0 in g.vertices && x.1 in g.vertices {
      assert x.0 in s.dependantsMap && x.1 in s.dependantsMap[x.0];
    }
  }

  // ---------------------------------------------------------------- the builder

  class DependencyManagerBuilder<T(==, !new)> {
    var dependencyMap: map<T, set<T>>
    var dependantsMap: map<T, set<T>>

    function State(): Declared<T>
      reads this
    {
      Declared(dependencyMap, dependantsMap)
    }

    ghost predicate Valid()
      reads this
    {
      MutuallyInverse(State())
    }

    /** newBuilder(): both maps empty. */
    constructor ()
      ensures Valid() && State() == Declared(map[], map[])
    {
      dependencyMap := map[];
      dependantsMap := map[];
    }

    method Add(e: T)
      requires Valid()
      modifies this
      ensures Valid() && State() == AddStep(old(State()), e)
    {
      AddKeepsInverse(State(), e);
      if e !in dependantsMap {
        dependantsMap := dependantsMap[e := {}];
      }
      if e !in dependencyMap {
        dependencyMap := dependencyMap[e := {}];
      }
    }

    method AddDependency(e: T, d: T)
      requires Valid()
      modifies this
      ensures Valid() && State() == AddDependencyStep(old(State()), e, d)
    {
      AddDependencyKeepsInverse(State(), e, d);
      Add(e);
      Add(d);
      dependencyMap := dependencyMap[e := dependencyMap[e] + {d}];
      dependantsMap := dependantsMap[d := dependantsMap[d] + {e}];
    }

    /** addDependencies: add(e), then addDependency(e, d) for the members of deps in set order. */
    method AddDependencies(e: T, deps: set<T>)
      requires Valid()
      modifies this
      ensures Valid() && State() == AddAll(old(State()), e, deps)
    {
      ghost var s0 := State();
      AddAllEmpty(s0, e);
      Add(e);
      var todo := deps;
      ghost var done := {};
      while todo != {}
        invariant done + todo == deps
        invariant Valid()
        invariant Declared(dependencyMap, dependantsMap) == AddAll(s0, e, done)
        decreases todo
      {
        var d :| d in todo;
        AddAllStep(s0, e, done, d);
        AddDependency(e, d);
        MoveOne(done, todo, d);
        done := done + {d};
        todo := todo - {d};
      }
      assert done == deps;
    }

    /**
     * build(): a fresh graph with the entities of dependencyMap as vertices and an edge e -> t for
     * every t in dependantsMap[e]; the manager starts with nothing resolved.
     */
    method Build() returns (m: DependencyManagerImpl<T>)
      requires Valid()
      ensures fresh(m) && m.Valid()
      ensures m.graph == BuiltGraph(State()) && m.resolved == {}
      ensures m.dependencyMap == dependencyMap && m.dependantsMap == dependantsMap
    {
      var g := Graph({}, {});
      var vs := dependencyMap.Keys;
      while vs != {}
        invariant vs <= dependencyMap.Keys
        invariant g == Graph(dependencyMap.Keys - vs, {})
        decreases vs
      {
        var v :| v in vs;
        g := Graph(g.vertices + {v}, g.edges);
        vs := vs - {v};
      }
      var es := dependantsMap.Keys;
      while es != {}
        invariant es <= dependantsMap.Keys
        invariant g == Graph(dependencyMap.Keys, DependantEdges(dependantsMap, dependantsMap.Keys - es))
        decreases es
      {
        var e :| e in es;
        var ts := dependantsMap[e];
        while ts != {}
          invariant ts <= dependantsMap[e]
          invariant g.vertices == dependencyMap.Keys
          invariant forall x :: x in g.edges <==>
            x in DependantEdges(dependantsMap, dependantsMap.Keys - es) || (x.0 == e && x.1 in dependantsMap[e] - ts)
          decreases ts
        {
          var t :| t in ts;
          g := Graph(g.vertices, g.edges + {(e, t)});
          ts := ts - {t};
        }
        es := es - {e};
        assert g.edges == DependantEdges(dependantsMap, dependantsMap.Keys - es);
      }
      BuiltGraphEdges(State());
      m := new DependencyManagerImpl(g, dependencyMap, dependantsMap);
    }
  }

  // ---------------------------------------------------------------- the manager

  class DependencyManagerImpl<T(==, !new)> {
    var graph: Graph<T>
    var resolved: set<T>
    const dependencyMap: map<T, set<T>>
    const dependantsMap: map<T, set<T>>

    /**
     * The graph keeps every entity, and has the edge d -> t exactly when t depends on d and d has
     * not been resolved yet.
     */
    ghost predicate Valid()
      reads this
    {
      && MutuallyInverse(Declared(dependencyMap, dependantsMap))
      && resolved <= dependencyMap.Keys
      && graph.vertices == dependencyMap.Keys
      && graph.edges == DependantEdges(dependantsMap, dependantsMap.Keys - resolved)
    }

    constructor (g: Graph<T>, deps: map<T, set<T>>, dependants: map<T, set<T>>)
      requires MutuallyInverse(Declared(deps, dependants))
      requires g == BuiltGraph(Declared(deps, dependants))
      ensures Valid()
      ensures graph == g && resolved == {} && dependencyMap == deps && dependantsMap == dependants
    {
      graph := g;
      resolved := {};
      dependencyMap := deps;
      dependantsMap := dependants;
    }

    /**
     * resolve(e): only a source of the current graph can be resolved; the result is the targets
     * of its outgoing edges at call time, those edges are removed, and e is recorded as resolved.
     */
    method Resolve(e: T) returns (r: Result<set<T>, DependencyError>)
      requires Valid()
      modifies this
      ensures Valid()
      ensures r.Failure? <==> e !in Sources(old(graph))
      ensures r.Failure? ==> r.error == NotResolvable && graph == old(graph) && resolved == old(resolved)
      ensures r.Success? ==> r.value == Successors(old(graph), e)
      ensures r.Success? ==> graph == RemoveOutgoing(old(graph), e) && resolved == old(resolved) + {e}
    {
      if e !in Sources(graph) {
        return Failure(NotResolvable);
      }
      var targets := Successors(graph, e);
      graph := RemoveOutgoing(graph, e);
      resolved := resolved + {e};
      assert graph.edges == DependantEdges(dependantsMap, dependantsMap.Keys - resolved);
      return Success(targets);
    }

    /** isResolvable(e): e is a source, that is every dependency of e is resolved. */
    function IsResolvableEntity(e: T): (r: bool)
      reads this
      requires Valid()
      ensures r <==> e in Sources(graph)
      ensures r <==> e in dependencyMap && dependencyMap[e] <= resolved
    {
      ResolvableIffDependenciesResolved(e);
      e in Sources(graph)
    }

    lemma ResolvableIffDependenciesResolved(e: T)
      requires Valid()
      ensures e in Sources(graph) <==> e in dependencyMap && dependencyMap[e] <= resolved
    {
      assert graph == ManagedGraph(Declared(dependencyMap, dependantsMap), resolved);
      SourcesAreResolvable(Declared(dependencyMap, dependantsMap), resolved, e);
    }

    function IsResolved(e: T): (r: bool)
      reads this
      ensures r <==> e in resolved
    {
      e in resolved
    }

    /** isResolvable(): the graph has no cycle. */
    function IsResolvable(): (r: bool)
      reads this
      requires Valid()
      ensures r <==> !HasCycle(graph)
    {
      BuiltGraphEdges(Declared(dependencyMap, dependantsMap));
      !DetectCycles(graph)
    }

    /** getAllResolvable(): the sources, the entities whose dependencies are all resolved. */
    function GetAllResolvable(): (r: set<T>)
      reads this
      requires Valid()
      ensures forall e :: e in r <==> IsResolvableEntity(e)
    {
      Sources(graph)
    }

    /** getDependantsOn(e): a copy of the dependants declared for e. */
    function GetDependantsOn(e: T): (r: Result<set<T>, DependencyError>)
      reads this
      requires Valid()
      ensures r.Failure? <==> e !in dependantsMap
      ensures r.Failure? ==> r.error == NotManaged
      ensures r.Success? ==> forall t :: t in r.value <==> t in dependencyMap && e in dependencyMap[t]
    {
      if e !in dependantsMap then Failure(NotManaged) else Success(dependantsMap[e])
    }

    /** getDependenciesOf(e): a copy of the dependencies declared for e. */
    function GetDependenciesOf(e: T): (r: Result<set<T>, DependencyError>)
      reads this
      requires Valid()
      ensures r.Failure? <==> e !in dependencyMap
      ensures r.Failure? ==> r.error == NotManaged
      ensures r.Success? ==> forall d :: d in r.value <==> d in dependantsMap && e in dependantsMap[d]
    {
      if e !in dependencyMap then Failure(NotManaged) else Success(dependencyMap[e])
    }

    function GetAllResolved(): (r: set<T>)
      reads this
      ensures forall e :: e in r <==> IsResolved(e)
    {
      resolved
    }
  }

  /** The graph of a manager once the entities of resolved are resolved: their edges are gone. */
  function ManagedGraph<T(!new)>(s: Declared<T>, resolved: set<T>): Graph<T> {
    Graph(s.dependencyMap.Keys, DependantEdges(s.dependantsMap, s.dependantsMap.Keys - resolved))
  }

  /** An entity is a source of the managed graph exactly when all its dependencies are resolved. */
  lemma SourcesAreResolvable<T(!new)>(s: Declared<T>, resolved: set<T>, e: T)
    requires MutuallyInverse(s)
    ensures e in Sources(ManagedGraph(s, resolved)) <==> e in s.dependencyMap && s.dependencyMap[e] <= resolved
  {
    if e in s.dependencyMap && !(s.dependencyMap[e] <= resolved) {
      var d :| d in s.dependencyMap[e] && d !in resolved;
      assert (d, e) in ManagedGraph(s, resolved).edges;
    }
  }

  /**
   * Resolving e unlocks exactly those dependants of e whose other dependencies are already
   * resolved (the chain 3 -> 2 -> 1 in the tests).
   */
  lemma ResolveUnlocksDependants<T(!new)>(s: Declared<T>, resolved: set<T>, e: T, t: T)
    requires MutuallyInverse(s)
    requires t in s.dependencyMap && e in s.dependencyMap[t]
    ensures t in Sources(ManagedGraph(s, resolved + {e})) <==> s.dependencyMap[t] - {e} <= resolved
  {
    SourcesAreResolvable(s, resolved + {e}, t);
  }
}
