/**
 * ManagerAppImpl: the scheduler that launches the configured tasks on an external manager,
 * respecting the resource pool and the dependencies between tasks.
 *
 * The scheduler state is first described as a value (`Scheduler`) with one function per step
 * (a runAvailable pass, the completion of one task) and an invariant those steps keep; the
 * class `ManagerAppImpl` then performs the same steps on its fields, and every method states
 * its new state through those functions. The calls made on the external ManagerFactory and
 * ExternalManager are recorded as a trace of events.
 */
module ManagerApps {
  import opened Graphs
  import opened GraphUtils
  import opened Tasks
  import opened Configurations
  import opened Wrappers

  // ---------------------------------------------------------------- resources

  /** The three resource counters: cpus, memory and disks. */
  datatype Pool = Pool(cpus: int, memory: int, disks: int)

  function Zero(): Pool {
    Pool(0, 0, 0)
  }

  /** What a task takes from the pool while it runs. */
  function Demand(t: Task): Pool {
    Pool(t.cpu, t.memory, t.disks)
  }

  function Plus(a: Pool, b: Pool): Pool {
    Pool(a.cpus + b.cpus, a.memory + b.memory, a.disks + b.disks)
  }

  function Minus(a: Pool, b: Pool): Pool {
    Pool(a.cpus - b.cpus, a.memory - b.memory, a.disks - b.disks)
  }

  predicate NonNegative(p: Pool) {
    p.cpus >= 0 && p.memory >= 0 && p.disks >= 0
  }

  /** Every counter of a is at most the matching counter of b. */
  predicate Within(a: Pool, b: Pool) {
    a.cpus <= b.cpus && a.memory <= b.memory && a.disks <= b.disks
  }

  ghost predicate NonNegativeDemands(ts: set<Task>) {
    forall t | t in ts :: NonNegative(Demand(t))
  }

  /** isAbleToRun: the task's cpu, disks and memory each fit the counters. */
  predicate Fits(t: Task, p: Pool) {
    t.cpu <= p.cpus && t.disks <= p.disks && t.memory <= p.memory
  }

  /** Every task of ts fits the counters p. */
  predicate AllFit(ts: set<Task>, p: Pool) {
    forall t | t in ts :: Fits(t, p)
  }

  /** A task fits exactly when taking its demand leaves no counter negative. */
  lemma FitsIffNothingNegative(t: Task, p: Pool)
    ensures Fits(t, p) <==> NonNegative(Minus(p, Demand(t)))
  {
  }

  /** The summed demand of a sequence of tasks. */
  function SumSeq(ts: seq<Task>): Pool {
    if ts == [] then Zero() else Plus(Demand(ts[0]), SumSeq(ts[1..]))
  }

  /** The summed demand of a set of tasks. */
  ghost function SumSet(ts: set<Task>): Pool
    decreases ts
  {
    if ts == {} then Zero() else var t :| t in ts; Plus(Demand(t), SumSet(ts - {t}))
  }

  /** The sum over a set does not depend on the element taken first. */
  lemma {:induction false} SumSetRemove(ts: set<Task>, t: Task)
    requires t in ts
    ensures SumSet(ts) == Plus(Demand(t), SumSet(ts - {t}))
    decreases ts
  {
    var u :| u in ts && SumSet(ts) == Plus(Demand(u), SumSet(ts - {u}));
    if u != t {
      SumSetRemove(ts - {u}, t);
      SumSetRemove(ts - {t}, u);
      assert ts - {u} - {t} == ts - {t} - {u};
      var rest := SumSet(ts - {u} - {t});
      assert SumSet(ts - {u}) == Plus(Demand(t), rest);
      assert SumSet(ts - {t}) == Plus(Demand(u), rest);
      assert SumSet(ts) == Plus(Demand(u), Plus(Demand(t), rest));
      assert Plus(Demand(u), Plus(Demand(t), rest)) == Plus(Demand(t), Plus(Demand(u), rest));
    }
  }

  /** The sum over the elements of a sequence without repetitions is the sum of the sequence. */
  lemma {:induction false} SumSetOfSeq(ts: seq<Task>)
    requires Distinct(ts)
    ensures SumSet(Elems(ts)) == SumSeq(ts)
  {
    if ts != [] {
      var rest := ts[1..];
      DistinctTail(ts);
      SumSetOfSeq(rest);
      SumSetRemove(Elems(ts), ts[0]);
      assert Elems(ts) - {ts[0]} == Elems(rest);
    }
  }

  /** Adding a set of tasks disjoint from s adds their summed demand. */
  lemma {:induction false} SumSetUnion(s: set<Task>, ts: seq<Task>)
    requires Distinct(ts) && Elems(ts) !! s
    ensures SumSet(s + Elems(ts)) == Plus(SumSet(s), SumSeq(ts))
  {
    if ts != [] {
      var rest := ts[1..];
      DistinctTail(ts);
      assert Elems(rest) <= Elems(ts);
      SumSetUnion(s, rest);
      SumSetRemove(s + Elems(ts), ts[0]);
      assert s + Elems(ts) - {ts[0]} == s + Elems(rest);
      assert SumSet(s + Elems(ts)) == Plus(Demand(ts[0]), Plus(SumSet(s), SumSeq(rest)));
      assert SumSeq(ts) == Plus(Demand(ts[0]), SumSeq(rest));
    } else {
      assert s + Elems(ts) == s;
    }
  }

  // ---------------------------------------------------------------- sequences without repetitions

  lemma DistinctTail(s: seq<Task>)
    requires Distinct(s) && s != []
    ensures Distinct(s[1..]) && s[0] !in s[1..]
  {
    assert forall j | 0 <= j < |s[1..]| :: s[1..][j] == s[j + 1];
  }

  lemma DistinctCons(x: Task, s: seq<Task>)
    requires Distinct(s) && x !in s
    ensures Distinct([x] + s)
  {
    forall i, j | 0 <= i < |[x] + s| && 0 <= j < |[x] + s| && i != j ensures ([x] + s)[i] != ([x] + s)[j] {
      if i > 0 && j > 0 {
        assert ([x] + s)[i] == s[i - 1] && ([x] + s)[j] == s[j - 1];
      }
    }
  }

  lemma DistinctAppend(a: seq<Task>, b: seq<Task>)
    requires Distinct(a) && Distinct(b) && Elems(a) !! Elems(b)
    ensures Distinct(a + b)
  {
    forall i, j | 0 <= i < |a + b| && 0 <= j < |a + b| && i != j ensures (a + b)[i] != (a + b)[j] {
      if i < |a| && j < |a| {
        assert (a + b)[i] == a[i] && (a + b)[j] == a[j];
      } else if i < |a| {
        assert (a + b)[i] == a[i] && (a + b)[j] == b[j - |a|];
        assert a[i] in Elems(a) && b[j - |a|] in Elems(b);
      } else if j < |a| {
        assert (a + b)[i] == b[i - |a|] && (a + b)[j] == a[j];
        assert b[i - |a|] in Elems(b) && a[j] in Elems(a);
      } else {
        assert (a + b)[i] == b[i - |a|] && (a + b)[j] == b[j - |a|];
      }
    }
  }

  // ---------------------------------------------------------------- one runAvailable pass

  /** The outcome of a pass: the tasks launched, the tasks kept back, and the counters left. */
  datatype Admission = Admission(launched: seq<Task>, kept: seq<Task>, left: Pool)

  /**
   * runAvailable over the ready tasks in iteration order: a task is launched when it fits the
   * counters that the launches before it left (runIfPossible), and kept back otherwise.
   */
  function Admit(ready: seq<Task>, pool: Pool): Admission
    decreases |ready|
  {
    if ready == [] then Admission([], [], pool)
    else if Fits(ready[0], pool) then
      var a := Admit(ready[1..], Minus(pool, Demand(ready[0])));
      Admission([ready[0]] + a.launched, a.kept, a.left)
    else
      var a := Admit(ready[1..], pool);
      Admission(a.launched, [ready[0]] + a.kept, a.left)
  }

  /** Every ready task is either launched or kept back, never both, and none twice. */
  lemma {:induction false} AdmitSplitsReady(ready: seq<Task>, pool: Pool)
    requires Distinct(ready)
    ensures Elems(Admit(ready, pool).launched) + Elems(Admit(ready, pool).kept) == Elems(ready)
    ensures Elems(Admit(ready, pool).launched) !! Elems(Admit(ready, pool).kept)
    ensures Distinct(Admit(ready, pool).launched) && Distinct(Admit(ready, pool).kept)
    decreases |ready|
  {
    if ready != [] {
      var x := ready[0];
      DistinctTail(ready);
      var p := if Fits(x, pool) then Minus(pool, Demand(x)) else pool;
      AdmitSplitsReady(ready[1..], p);
      var a := Admit(ready[1..], p);
      assert Elems(ready) == {x} + Elems(ready[1..]);
      if Fits(x, pool) {
        DistinctCons(x, a.launched);
      } else {
        DistinctCons(x, a.kept);
      }
    }
  }

  /** The counters left plus the demands launched give back the counters the pass started from. */
  lemma {:induction false} AdmitConserves(ready: seq<Task>, pool: Pool)
    ensures Plus(Admit(ready, pool).left, SumSeq(Admit(ready, pool).launched)) == pool
    decreases |ready|
  {
    if ready != [] {
      var x := ready[0];
      if Fits(x, pool) {
        AdmitConserves(ready[1..], Minus(pool, Demand(x)));
      } else {
        AdmitConserves(ready[1..], pool);
      }
    }
  }

  /** Each task of l fits the counters that the tasks before it in l leave of pool. */
  ghost predicate EachFits(l: seq<Task>, pool: Pool) {
    forall i | 0 <= i < |l| :: Fits(l[i], Minus(pool, SumSeq(l[..i])))
  }

  lemma EachFitsCons(x: Task, l: seq<Task>, pool: Pool)
    requires Fits(x, pool) && EachFits(l, Minus(pool, Demand(x)))
    ensures EachFits([x] + l, pool)
  {
    var xl := [x] + l;
    forall i | 0 <= i < |xl| ensures Fits(xl[i], Minus(pool, SumSeq(xl[..i]))) {
      if i == 0 {
        assert xl[..i] == [];
      } else {
        assert xl[..i] == [x] + l[..i - 1];
        assert xl[..i][1..] == l[..i - 1];
        assert SumSeq(xl[..i]) == Plus(Demand(x), SumSeq(l[..i - 1]));
        assert xl[i] == l[i - 1];
      }
    }
  }

  /** Each launched task fitted the counters as the launches before it had left them. */
  lemma {:induction false} AdmitLaunchesOnlyFitting(ready: seq<Task>, pool: Pool)
    ensures EachFits(Admit(ready, pool).launched, pool)
    decreases |ready|
  {
    if ready != [] {
      var x := ready[0];
      if Fits(x, pool) {
        var p := Minus(pool, Demand(x));
        AdmitLaunchesOnlyFitting(ready[1..], p);
        EachFitsCons(x, Admit(ready[1..], p).launched, pool);
      } else {
        AdmitLaunchesOnlyFitting(ready[1..], pool);
      }
    }
  }

  /** A pass that starts with no negative counter ends with none. */
  lemma {:induction false} AdmitKeepsNonNegative(ready: seq<Task>, pool: Pool)
    requires NonNegative(pool)
    ensures NonNegative(Admit(ready, pool).left)
    decreases |ready|
  {
    if ready != [] {
      var x := ready[0];
      if Fits(x, pool) {
        AdmitKeepsNonNegative(ready[1..], Minus(pool, Demand(x)));
      } else {
        AdmitKeepsNonNegative(ready[1..], pool);
      }
    }
  }

  /** No task of kept fits the counters p. */
  predicate NoneFits(kept: seq<Task>, p: Pool) {
    forall i | 0 <= i < |kept| :: !Fits(kept[i], p)
  }

  lemma NoneFitsCons(x: Task, kept: seq<Task>, p: Pool, q: Pool)
    requires !Fits(x, q) && Within(p, q) && NoneFits(kept, p)
    ensures NoneFits([x] + kept, p)
  {
    forall i | 0 <= i < |[x] + kept| ensures !Fits(([x] + kept)[i], p) {
      if i > 0 {
        assert ([x] + kept)[i] == kept[i - 1];
      }
    }
  }

  /**
   * With non-negative demands the pass is greedy to the end: the counters only shrink, so a
   * task kept back does not fit what is left either.
   */
  lemma {:induction false} AdmitIsMaximal(ready: seq<Task>, pool: Pool)
    requires forall i | 0 <= i < |ready| :: NonNegative(Demand(ready[i]))
    ensures Within(Admit(ready, pool).left, pool)
    ensures NoneFits(Admit(ready, pool).kept, Admit(ready, pool).left)
    decreases |ready|
  {
    if ready != [] {
      var x := ready[0];
      assert NonNegative(Demand(x));
      assert forall i | 0 <= i < |ready[1..]| :: ready[1..][i] == ready[i + 1];
      if Fits(x, pool) {
        AdmitIsMaximal(ready[1..], Minus(pool, Demand(x)));
      } else {
        AdmitIsMaximal(ready[1..], pool);
        var a := Admit(ready[1..], pool);
        NoneFitsCons(x, a.kept, a.left, pool);
      }
    }
  }

  /** The first step of a pass. */
  lemma AdmitStep(ready: seq<Task>, pool: Pool)
    requires ready != []
    ensures Fits(ready[0], pool) ==> (Admit(ready, pool) ==
      var a := Admit(ready[1..], Minus(pool, Demand(ready[0]))); Admission([ready[0]] + a.launched, a.kept, a.left))
    ensures !Fits(ready[0], pool) ==> (Admit(ready, pool) ==
      var a := Admit(ready[1..], pool); Admission(a.launched, [ready[0]] + a.kept, a.left))
  {
  }

  /** A non-empty pass whose first task fits the counters launches at least that task. */
  lemma AdmitLaunchesFirstFitting(ready: seq<Task>, pool: Pool)
    requires ready != [] && Fits(ready[0], pool)
    ensures Admit(ready, pool).launched != []
  {
  }

  // ---------------------------------------------------------------- the scheduler as a value

  /**
   * The scheduler's state: the counters still available, the dependency graph of the tasks not
   * complete yet, the ready queue in iteration order, and the running and the complete tasks.
   */
  datatype Scheduler = Scheduler(
    available: Pool, graph: Graph<Task>, ready: seq<Task>, running: set<Task>, complete: set<Task>)

  /** runAvailable: the tasks the pass launches leave the queue and join the running ones. */
  function RunAvailableStep(s: Scheduler): Scheduler {
    var a := Admit(s.ready, s.available);
    s.(available := a.left, ready := a.kept, running := s.running + Elems(a.launched))
  }

  /**
   * The tasks onTaskDone(t) queues: the sources of the graph without t that are neither ready,
   * nor running, nor complete (taskNotProcessed) once t has moved to complete.
   */
  function NewlyReady(s: Scheduler, t: Task): set<Task> {
    set v | v in Sources(RemoveVertex(s.graph, t)) && v !in s.ready && v !in s.running - {t} && v !in s.complete + {t}
  }

  /** onTaskDone(t), where queued lists the newly ready tasks in the order they join the queue. */
  function TaskDoneStep(s: Scheduler, t: Task, queued: seq<Task>): Scheduler {
    Scheduler(Plus(s.available, Demand(t)), RemoveVertex(s.graph, t), s.ready + queued, s.running - {t}, s.complete + {t})
  }

  /** queued lists every element of ts exactly once. */
  ghost predicate Enumerates(queued: seq<Task>, ts: set<Task>) {
    Distinct(queued) && Elems(queued) == ts
  }

  /**
   * What every state reached from the whole pool `total` and the whole graph `g0` satisfies:
   * the graph holds exactly the tasks not complete yet; the queued and the running tasks are
   * exactly its sources, the queue without repetitions; a complete task's dependencies are
   * complete; and the available counters plus the running demands make up the pool.
   */
  ghost predicate Inv(s: Scheduler, total: Pool, g0: Graph<Task>) {
    && WellFormed(g0)
    && s.complete <= g0.vertices
    && s.graph == Restrict(g0, g0.vertices - s.complete)
    && Distinct(s.ready)
    && Elems(s.ready) !! s.running
    && Elems(s.ready) + s.running == Sources(s.graph)
    && (forall d, t | (d, t) in g0.edges && t in s.complete :: d in s.complete)
    && Plus(s.available, SumSet(s.running)) == total
  }

  /** process() starts from the whole pool, the whole graph and its sources queued. */
  lemma StartInv(total: Pool, g0: Graph<Task>, ready: seq<Task>)
    requires WellFormed(g0) && Enumerates(ready, Sources(g0))
    ensures Inv(Scheduler(total, g0, ready, {}, {}), total, g0)
  {
    RestrictAll(g0);
    assert g0.vertices - {} == g0.vertices;
  }

  /**
   * No task is queued, running or complete before all its dependencies are complete; the
   * three collections are disjoint and hold only tasks of the graph.
   */
  lemma InvDependenciesComplete(s: Scheduler, total: Pool, g0: Graph<Task>)
    requires Inv(s, total, g0)
    ensures forall d, t | (d, t) in g0.edges && (t in s.ready || t in s.running || t in s.complete) :: d in s.complete
    ensures Elems(s.ready) !! s.running && Elems(s.ready) !! s.complete && s.running !! s.complete
    ensures Elems(s.ready) + s.running + s.complete <= g0.vertices
  {
    forall d, t | (d, t) in g0.edges && (t in s.ready || t in s.running) ensures d in s.complete {
      assert t in Sources(s.graph);
    }
  }

  /** A runAvailable pass keeps the invariant. */
  lemma RunAvailableKeepsInv(s: Scheduler, total: Pool, g0: Graph<Task>)
    requires Inv(s, total, g0)
    ensures Inv(RunAvailableStep(s), total, g0)
  {
    var a := Admit(s.ready, s.available);
    AdmitSplitsReady(s.ready, s.available);
    AdmitConserves(s.ready, s.available);
    SumSetUnion(s.running, a.launched);
    var r := RunAvailableStep(s);
    assert Elems(r.ready) + r.running == Elems(s.ready) + s.running;
  }

  /** Completing a running task keeps the invariant. */
  lemma TaskDoneKeepsInv(s: Scheduler, t: Task, queued: seq<Task>, total: Pool, g0: Graph<Task>)
    requires Inv(s, total, g0) && t in s.running && Enumerates(queued, NewlyReady(s, t))
    ensures Inv(TaskDoneStep(s, t, queued), total, g0)
  {
    InvDependenciesComplete(s, total, g0);
    var r := TaskDoneStep(s, t, queued);
    var keep := g0.vertices - s.complete;
    assert t in Sources(s.graph);
    RemoveVertexIsRestrict(g0, keep, t);
    assert keep - {t} == g0.vertices - r.complete;
    DistinctAppend(s.ready, queued);
    SumSetRemove(s.running, t);
    SourcesAfterRemoval(s, t, total, g0);
  }

  /** The sources of the graph without t are the tasks still queued or running, and the new ones. */
  lemma SourcesAfterRemoval(s: Scheduler, t: Task, total: Pool, g0: Graph<Task>)
    requires Inv(s, total, g0) && t in s.running
    ensures Sources(RemoveVertex(s.graph, t)) == Elems(s.ready) + (s.running - {t}) + NewlyReady(s, t)
  {
    var g := RemoveVertex(s.graph, t);
    forall v | v in Elems(s.ready) + (s.running - {t}) ensures v in Sources(g) {
      assert v in Sources(s.graph) && v != t;
    }
    forall v | v in Sources(g) ensures v in Elems(s.ready) + (s.running - {t}) + NewlyReady(s, t) {
      assert v !in s.complete + {t};
    }
  }

  /**
   * The main loop never waits for nothing: while some task has not been launched, a
   * runAvailable pass leaves at least one task running, provided every task fits the whole pool
   * and the graph has no cycle (what canProcess checks).
   */
  lemma RunAvailableMakesProgress(s: Scheduler, total: Pool, g0: Graph<Task>)
    requires Inv(s, total, g0) && !HasCycle(g0) && (forall v | v in g0.vertices :: Fits(v, total))
    requires s.complete + s.running != g0.vertices
    ensures RunAvailableStep(s).running != {}
  {
    if s.running == {} {
      assert SumSet(s.running) == Zero();
      assert s.available == total;
      var keep := g0.vertices - s.complete;
      assert s.complete < g0.vertices;
      var x :| x in g0.vertices - s.complete;
      assert x in s.graph.vertices;
      RestrictCycle(g0, keep);
      if Sources(s.graph) == {} {
        SourcelessMeansCycle(s.graph);
      }
      assert s.ready != [];
      AdmitLaunchesFirstFitting(s.ready, s.available);
      var l := Admit(s.ready, s.available).launched;
      assert l[0] in RunAvailableStep(s).running;
    }
  }

  // ---------------------------------------------------------------- the order of the launches

  /** Every edge of g between two elements of o goes forward in o. */
  ghost predicate Forward(g: Graph<Task>, o: seq<Task>) {
    forall i, j | 0 <= i < |o| && 0 <= j < |o| && (o[i], o[j]) in g.edges :: i < j
  }

  /** o lists the tasks launched so far, each once, every dependency before its dependant. */
  ghost predicate LaunchOrder(s: Scheduler, g0: Graph<Task>, o: seq<Task>) {
    Distinct(o) && Elems(o) == s.running + s.complete && Forward(g0, o)
  }

  /** The tasks a pass launches extend the launch order. */
  lemma RunAvailableExtendsOrder(s: Scheduler, total: Pool, g0: Graph<Task>, o: seq<Task>)
    requires Inv(s, total, g0) && LaunchOrder(s, g0, o)
    ensures LaunchOrder(RunAvailableStep(s), g0, o + Admit(s.ready, s.available).launched)
  {
    var l := Admit(s.ready, s.available).launched;
    AdmitSplitsReady(s.ready, s.available);
    InvDependenciesComplete(s, total, g0);
    DistinctAppend(o, l);
    var o2 := o + l;
    forall i, j | 0 <= i < |o2| && 0 <= j < |o2| && (o2[i], o2[j]) in g0.edges ensures i < j {
      if j < |o| {
        assert o2[j] == o[j] && o[j] in Elems(o);
      } else {
        assert o2[j] == l[j - |o|] && l[j - |o|] in Elems(l);
      }
      assert o2[i] in s.complete;
      if i < |o| && j < |o| {
        assert o2[i] == o[i] && o2[j] == o[j];
      }
    }
  }

  /** Completing a task does not change which tasks have been launched. */
  lemma TaskDoneKeepsOrder(s: Scheduler, t: Task, queued: seq<Task>, g0: Graph<Task>, o: seq<Task>)
    requires LaunchOrder(s, g0, o) && t in s.running
    ensures LaunchOrder(TaskDoneStep(s, t, queued), g0, o)
  {
    assert (s.running - {t}) + (s.complete + {t}) == s.running + s.complete;
  }

  /** Completing a task gives its demand back, which keeps the counters non-negative. */
  lemma TaskDoneKeepsNonNegative(s: Scheduler, t: Task, total: Pool, g0: Graph<Task>)
    requires Inv(s, total, g0) && t in s.running
    requires NonNegative(s.available) && NonNegativeDemands(g0.vertices)
    ensures NonNegative(Plus(s.available, Demand(t)))
  {
    InvDependenciesComplete(s, total, g0);
  }

  /**
   * What process() keeps about a state: the scheduler invariant, the launch order, the calls
   * made so far and, when no demand is negative, non-negative counters.
   */
  ghost predicate Tracks(s: Scheduler, total: Pool, g0: Graph<Task>, o: seq<Task>, calls: seq<Event>) {
    && Inv(s, total, g0)
    && LaunchOrder(s, g0, o)
    && calls == [CreateCall(total.cpus, total.memory, total.disks)] + RunCalls(o)
    && (NonNegative(total) && NonNegativeDemands(g0.vertices) ==> NonNegative(s.available))
  }

  lemma RunAvailableKeepsTracks(s: Scheduler, total: Pool, g0: Graph<Task>, o: seq<Task>, calls: seq<Event>)
    requires Tracks(s, total, g0, o, calls)
    ensures var l := Admit(s.ready, s.available).launched;
      Tracks(RunAvailableStep(s), total, g0, o + l, calls + RunCalls(l))
  {
    var l := Admit(s.ready, s.available).launched;
    RunAvailableKeepsInv(s, total, g0);
    RunAvailableExtendsOrder(s, total, g0, o);
    if NonNegative(s.available) {
      AdmitKeepsNonNegative(s.ready, s.available);
    }
    RunCallsAppend(o, l);
  }

  lemma TaskDoneKeepsTracks(s: Scheduler, t: Task, queued: seq<Task>, total: Pool, g0: Graph<Task>, o: seq<Task>, calls: seq<Event>)
    requires Tracks(s, total, g0, o, calls) && t in s.running && Enumerates(queued, NewlyReady(s, t))
    ensures Tracks(TaskDoneStep(s, t, queued), total, g0, o, calls)
  {
    TaskDoneKeepsInv(s, t, queued, total, g0);
    TaskDoneKeepsOrder(s, t, queued, g0, o);
    if NonNegative(total) && NonNegativeDemands(g0.vertices) {
      TaskDoneKeepsNonNegative(s, t, total, g0);
    }
  }

  /** Once every task has been launched, the launch order is a topological order of the graph. */
  lemma AllLaunchedIsTopologicalOrder(s: Scheduler, g0: Graph<Task>, o: seq<Task>)
    requires LaunchOrder(s, g0, o) && s.running + s.complete == g0.vertices
    ensures IsTopologicalOrder(g0, o)
  {
  }

  // ---------------------------------------------------------------- the graph of a configuration

  /** The dependencies of every task of a configuration, as getDepenciesOf gives them. */
  ghost function Dependencies(c: Configuration): (r: map<Task, set<Task>>)
    reads c
    requires c.Valid()
    ensures r.Keys == c.GetTasks()
  {
    DependencyMap(c.nameToTask, c.nameToDepNames)
  }

  /** Each task of the maps with the tasks its dependency names stand for. */
  function DependencyMap(tasks: map<string, Task>, depNames: map<string, seq<string>>): map<Task, set<Task>>
    requires ConfigInvariant(tasks, depNames)
  {
    map t | t in TasksOf(tasks) :: DependenciesOf(tasks, depNames, t).value
  }

  /** The edges buildGraph adds for the tasks ts: d -> t for every dependency d of t. */
  function EdgesInto(deps: map<Task, set<Task>>, ts: set<Task>): set<(Task, Task)>
    requires ts <= deps.Keys
  {
    set t, d | t in ts && d in deps[t] :: (d, t)
  }

  /** The edges into t from the tasks ds. */
  function Row(ds: set<Task>, t: Task): set<(Task, Task)> {
    set d | d in ds :: (d, t)
  }

  lemma RowAdd(ds: set<Task>, d: Task, t: Task)
    ensures Row(ds + {d}, t) == Row(ds, t) + {(d, t)}
  {
  }

  lemma EdgesIntoAdd(deps: map<Task, set<Task>>, ts: set<Task>, t: Task)
    requires ts + {t} <= deps.Keys
    ensures EdgesInto(deps, ts + {t}) == EdgesInto(deps, ts) + Row(deps[t], t)
  {
  }

  /** vs.forEach(graph::addVertex) */
  method AddVertices(g: Graph<Task>, vs: set<Task>) returns (r: Graph<Task>)
    ensures r == Graph(g.vertices + vs, g.edges)
  {
    r := g;
    var todo := vs;
    ghost var added: set<Task> := {};
    while todo != {}
      invariant added + todo == vs
      invariant r == Graph(g.vertices + added, g.edges)
      decreases todo
    {
      var v :| v in todo;
      MoveOne(added, todo, v);
      r := Graph(r.vertices + {v}, r.edges);
      added := added + {v};
      todo := todo - {v};
    }
  }

  /** ds.forEach(d -> graph.addEdge(d, t)) */
  method AddEdgesInto(g: Graph<Task>, ds: set<Task>, t: Task) returns (r: Graph<Task>)
    ensures r == Graph(g.vertices, g.edges + Row(ds, t))
  {
    r := g;
    var todo := ds;
    ghost var added: set<Task> := {};
    while todo != {}
      invariant added + todo == ds
      invariant r == Graph(g.vertices, g.edges + Row(added, t))
      decreases todo
    {
      var d :| d in todo;
      RowAdd(added, d, t);
      MoveOne(added, todo, d);
      r := Graph(r.vertices, r.edges + {(d, t)});
      added := added + {d};
      todo := todo - {d};
    }
  }

  /** For every task t of deps, an edge into t from each of its dependencies. */
  method AddDependencyEdges(g: Graph<Task>, deps: map<Task, set<Task>>) returns (r: Graph<Task>)
    ensures r == Graph(g.vertices, g.edges + EdgesInto(deps, deps.Keys))
  {
    r := g;
    var ts := deps.Keys;
    ghost var done: set<Task> := {};
    while ts != {}
      invariant done + ts == deps.Keys
      invariant r == Graph(g.vertices, g.edges + EdgesInto(deps, done))
      decreases ts
    {
      var t :| t in ts;
      r := AddEdgesInto(r, deps[t], t);
      EdgesIntoAdd(deps, done, t);
      MoveOne(done, ts, t);
      done := done + {t};
      ts := ts - {t};
    }
  }

  /** The graph of a dependency map: its tasks, with an edge d -> t for every dependency d of t. */
  function GraphOf(deps: map<Task, set<Task>>): Graph<Task> {
    Graph(deps.Keys, EdgesInto(deps, deps.Keys))
  }

  /** Adds the vertices and then the edges of GraphOf(deps) to g. */
  method AddTaskGraph(g: Graph<Task>, deps: map<Task, set<Task>>) returns (r: Graph<Task>)
    ensures r.vertices == g.vertices + GraphOf(deps).vertices
    ensures r.edges == g.edges + GraphOf(deps).edges
  {
    r := AddVertices(g, deps.Keys);
    r := AddDependencyEdges(r, deps);
  }

  /** The graph buildGraph builds from a configuration. */
  ghost function TaskGraph(c: Configuration): Graph<Task>
    reads c
    requires c.Valid()
  {
    GraphOf(Dependencies(c))
  }

  lemma TaskGraphWellFormed(c: Configuration)
    requires c.Valid()
    ensures WellFormed(TaskGraph(c))
  {
  }

  /** One vertex per task, and an edge d -> t exactly when t names d as a dependency. */
  lemma TaskGraphShape(c: Configuration)
    requires c.Valid()
    ensures forall d, t :: (d, t) in TaskGraph(c).edges <==>
      t in c.GetTasks() && d in c.GetTasks() && d.name in c.nameToDepNames[t.name]
  {
  }

  /** The pool a configuration declares in its first line. */
  function ConfigPool(c: Configuration): Pool
    reads c
  {
    Pool(c.cpus, c.memory, c.disks)
  }

  /** canProcess on a freshly built manager: every task fits the pool and there is no cycle. */
  ghost predicate Accepts(c: Configuration)
    reads c
    requires c.Valid()
  {
    AllFit(c.GetTasks(), ConfigPool(c)) && !HasCycle(TaskGraph(c))
  }

  // ---------------------------------------------------------------- the calls on the manager

  /** factory.create(cpus, memory, disks), manager.run(name, cpu, memory, disks, callback), fail(). */
  datatype Event = CreateCall(cpus: int, memory: int, disks: int) | RunCall(name: string, cpu: int, memory: int, disks: int) | FailCall

  /** The run calls for the tasks ts, in order. */
  function RunCalls(ts: seq<Task>): (r: seq<Event>)
    ensures |r| == |ts| && FailCall !in r
  {
    seq(|ts|, i requires 0 <= i < |ts| => RunCall(ts[i].name, ts[i].cpu, ts[i].memory, ts[i].disks))
  }

  lemma RunCallsAppend(a: seq<Task>, b: seq<Task>)
    ensures RunCalls(a + b) == RunCalls(a) + RunCalls(b)
  {
    assert forall i | 0 <= i < |a + b| :: RunCalls(a + b)[i] == (RunCalls(a) + RunCalls(b))[i];
  }

  // ---------------------------------------------------------------- the manager

  class ManagerAppImpl {
    var cpus: int
    var memory: int
    var disks: int
    var dependencyGraph: Graph<Task>
    var readyToRun: seq<Task>
    var running: set<Task>
    var complete: set<Task>
    var totalTasks: int
    /** The calls made on the factory and on the manager it created, oldest first. */
    var calls: seq<Event>
    /** The pool and the graph process() started from, and the tasks launched so far in order. */
    ghost var total: Pool
    ghost var initialGraph: Graph<Task>
    ghost var launched: seq<Task>

    function Counters(): Pool
      reads this
    {
      Pool(cpus, memory, disks)
    }

    function State(): Scheduler
      reads this
    {
      Scheduler(Counters(), dependencyGraph, readyToRun, running, complete)
    }

    /** The state the constructor leaves. */
    ghost predicate Pristine()
      reads this
    {
      dependencyGraph == Graph({}, {}) && readyToRun == [] && running == {} && complete == {} && calls == []
    }

    /** What holds throughout process(). */
    ghost predicate Processing()
      reads this
    {
      Tracks(State(), total, initialGraph, launched, calls)
    }

    /** What canProcess established about the pool and the graph process() starts from. */
    ghost predicate Admissible()
      reads this
    {
      !HasCycle(initialGraph) && AllFit(initialGraph.vertices, total)
    }

    constructor ()
      ensures Pristine()
    {
      cpus, memory, disks := 0, 0, 0;
      dependencyGraph := Graph({}, {});
      readyToRun, running, complete := [], {}, {};
      totalTasks := 0;
      calls := [];
    }

    /**
     * processFile, given the parsed configuration: the run is rejected, by a single fail() on a
     * manager of no capacity, exactly when some task exceeds the pool or the dependencies form a
     * cycle; otherwise the manager gets the whole pool and every task is run once, after all
     * its dependencies.
     */
    method ProcessFile(config: Configuration)
      requires config.Valid() && Pristine()
      modifies this
      ensures !Accepts(config) ==> calls == [CreateCall(0, 0, 0), FailCall]
      ensures Accepts(config) ==> calls == [CreateCall(config.cpus, config.memory, config.disks)] + RunCalls(launched)
      ensures Accepts(config) ==> IsTopologicalOrder(TaskGraph(config), launched)
      ensures FailCall in calls <==> !Accepts(config)
    {
      ghost var tasks, n := LoadResources(config);
      BuildGraph(config);
      TaskGraphWellFormed(config);
      assert dependencyGraph == TaskGraph(config) && dependencyGraph.vertices == tasks;
      var ok := CanProcess(config);
      assert ok == Accepts(config);
      if ok {
        Process(tasks, n);
      } else {
        Fail();
      }
      assert ok == Accepts(config);
    }

    /** loadResources: the pool of the configuration, and the number of its tasks. */
    method LoadResources(config: Configuration) returns (ghost tasks: set<Task>, ghost n: int)
      requires config.Valid()
      modifies this`totalTasks, this`cpus, this`memory, this`disks
      ensures tasks == config.GetTasks() && n == totalTasks && Counts(tasks, n)
      ensures Counters() == ConfigPool(config)
    {
      totalTasks := |config.GetTasks()|;
      tasks, n := config.GetTasks(), totalTasks;
      cpus := config.cpus;
      memory := config.memory;
      disks := config.disks;
    }

    /** buildGraph: a vertex for every task, then an edge from every dependency to its dependant. */
    method BuildGraph(config: Configuration)
      requires config.Valid()
      modifies this`dependencyGraph
      ensures dependencyGraph.vertices == old(dependencyGraph).vertices + TaskGraph(config).vertices
      ensures dependencyGraph.edges == old(dependencyGraph).edges + TaskGraph(config).edges
    {
      var tasks := config.GetTasks();
      var deps := map t | t in tasks :: config.GetDepenciesOf(t).value;
      assert deps == Dependencies(config);
      dependencyGraph := AddTaskGraph(dependencyGraph, deps);
    }

    /** isEnoughResources: every task fits the counters. */
    function IsEnoughResources(config: Configuration): bool
      reads this, config
      requires config.Valid()
    {
      AllFit(config.GetTasks(), Counters())
    }

    /** canProcess: every task fits the counters and the dependency graph has no cycle. */
    function CanProcess(config: Configuration): (r: bool)
      reads this, config
      requires config.Valid() && WellFormed(dependencyGraph)
      ensures r <==> AllFit(config.GetTasks(), Counters()) && !HasCycle(dependencyGraph)
    {
      IsEnoughResources(config) && !DetectCycles(dependencyGraph)
    }

    /** fail: a manager of no capacity is created and told to fail. */
    method Fail()
      modifies this`calls
      ensures calls == old(calls) + [CreateCall(0, 0, 0), FailCall]
    {
      calls := calls + [CreateCall(0, 0, 0), FailCall];
    }

    /**
     * process: a manager with the whole pool, the sources queued, then runAvailable and the
     * completion of some running task until every task has been launched.
     */
    method Process(ghost tasks: set<Task>, ghost n: int)
      requires WellFormed(dependencyGraph) && readyToRun == [] && running == {} && complete == {} && calls == []
      requires tasks == dependencyGraph.vertices && n == totalTasks && Counts(tasks, n)
      requires !HasCycle(dependencyGraph) && AllFit(tasks, Counters())
      modifies this`cpus, this`memory, this`disks, this`calls, this`readyToRun, this`running, this`complete,
        this`dependencyGraph, this`total, this`initialGraph, this`launched
      ensures total == old(Counters()) && initialGraph == old(dependencyGraph)
      ensures running + complete == initialGraph.vertices
      ensures calls == [CreateCall(total.cpus, total.memory, total.disks)] + RunCalls(launched)
      ensures IsTopologicalOrder(initialGraph, launched)
    {
      total, initialGraph, launched := Counters(), dependencyGraph, [];
      Begin();
      var done := AllTasksLaunched(tasks, n);
      while !done
        invariant Processing() && Admissible() && tasks == initialGraph.vertices && n == totalTasks
        invariant done <==> complete + running == initialGraph.vertices
        modifies this`cpus, this`memory, this`disks, this`calls, this`readyToRun, this`running, this`complete,
          this`dependencyGraph, this`launched
        decreases initialGraph.vertices - complete
      {
        Round();
        done := AllTasksLaunched(tasks, n);
      }
      AllLaunchedIsTopologicalOrder(State(), initialGraph, launched);
    }

    /** The manager is created with the whole pool and the sources of the graph are queued. */
    method Begin()
      requires WellFormed(dependencyGraph) && initialGraph == dependencyGraph && total == Counters()
      requires readyToRun == [] && running == {} && complete == {} && calls == [] && launched == []
      modifies this`calls, this`readyToRun
      ensures Processing()
    {
      calls := calls + [CreateCall(cpus, memory, disks)];
      Enqueue(Sources(dependencyGraph));
      StartInv(total, initialGraph, readyToRun);
    }

    /**
     * allTasksLaunched: as many tasks are complete or running as the configuration has, which
     * is when every task of the graph is.
     */
    method AllTasksLaunched(ghost tasks: set<Task>, ghost n: int) returns (r: bool)
      requires Processing() && tasks == initialGraph.vertices && n == totalTasks && Counts(tasks, n)
      ensures r <==> complete + running == initialGraph.vertices
    {
      InvDependenciesComplete(State(), total, initialGraph);
      assert |tasks| == n;
      LaunchedCount(complete, running, initialGraph);
      r := |complete + running| == totalTasks;
    }

    /**
     * One turn of process()'s loop: runAvailable, then the completion of some running task,
     * which the manager reports through the callback.
     */
    method Round()
      requires Processing() && Admissible() && complete + running != initialGraph.vertices
      modifies this`cpus, this`memory, this`disks, this`calls, this`readyToRun, this`running, this`complete,
        this`dependencyGraph, this`launched
      ensures Processing() && initialGraph.vertices - complete < old(initialGraph.vertices - complete)
    {
      Launch();
      var t :| t in running;
      Finish(t);
    }

    /** One runAvailable pass of process(), which launches at least one task. */
    method Launch()
      requires Processing() && Admissible() && complete + running != initialGraph.vertices
      modifies this`cpus, this`memory, this`disks, this`calls, this`readyToRun, this`running, this`launched
      ensures Processing() && running != {} && complete == old(complete)
    {
      ghost var s0 := State();
      ghost var l := Admit(readyToRun, Counters()).launched;
      ghost var o, c := launched + l, calls + RunCalls(l);
      RunAvailableKeepsTracks(s0, total, initialGraph, launched, calls);
      RunAvailableMakesProgress(s0, total, initialGraph);
      RunAvailable();
      assert Tracks(State(), total, initialGraph, launched, calls) == Tracks(RunAvailableStep(s0), total, initialGraph, o, c);
    }

    /** The completion of one running task, as the manager reports it to process(). */
    method Finish(t: Task)
      requires Processing() && t in running
      modifies this`cpus, this`memory, this`disks, this`running, this`complete, this`dependencyGraph, this`readyToRun
      ensures Processing() && complete == old(complete) + {t} && t in initialGraph.vertices - old(complete)
    {
      ghost var s1 := State();
      InvDependenciesComplete(s1, total, initialGraph);
      OnTaskDone(t);
      TaskDoneKeepsTracks(s1, t, readyToRun[|s1.ready|..], total, initialGraph, launched, calls);
    }

    /**
     * runAvailable: each queued task, in queue order, is run when it fits the counters its
     * predecessors in the pass left; the tasks run leave the queue and join the running ones.
     */
    method RunAvailable()
      modifies this`cpus, this`memory, this`disks, this`calls, this`readyToRun, this`running, this`launched
      ensures State() == RunAvailableStep(old(State()))
      ensures calls == old(calls) + RunCalls(Admit(old(readyToRun), old(Counters())).launched)
      ensures launched == old(launched) + Admit(old(readyToRun), old(Counters())).launched
    {
      var newRunning, kept := RunEachIfPossible();
      readyToRun := kept;
      running := running + Elems(newRunning);
      launched := launched + newRunning;
    }

    /**
     * The stream of runAvailable: runIfPossible on every queued task in queue order, collecting
     * the tasks it ran (newRunning) apart from those it left queued.
     */
    method RunEachIfPossible() returns (newRunning: seq<Task>, kept: seq<Task>)
      modifies this`cpus, this`memory, this`disks, this`calls
      ensures Admission(newRunning, kept, Counters()) == Admit(readyToRun, old(Counters()))
      ensures calls == old(calls) + RunCalls(newRunning)
    {
      ghost var a0 := Admit(readyToRun, Counters());
      newRunning, kept := [], [];
      var i := 0;
      while i < |readyToRun|
        invariant 0 <= i <= |readyToRun|
        invariant var a := Admit(readyToRun[i..], Counters()); a0 == Admission(newRunning + a.launched, kept + a.kept, a.left)
        invariant calls == old(calls) + RunCalls(newRunning)
        modifies this`cpus, this`memory, this`disks, this`calls
      {
        var t := readyToRun[i];
        AdmitStep(readyToRun[i..], Counters());
        assert readyToRun[i..][1..] == readyToRun[i + 1..];
        RunCallsAppend(newRunning, [t]);
        var r := RunIfPossible(t);
        if r.Some? {
          newRunning := newRunning + [t];
        } else {
          kept := kept + [t];
        }
        i := i + 1;
      }
      assert readyToRun[i..] == [];
    }

    /** runIfPossible: the task is run when it fits the counters (isAbleToRun), and reported as run. */
    method RunIfPossible(t: Task) returns (r: Option<Task>)
      modifies this`cpus, this`memory, this`disks, this`calls
      ensures r == (if Fits(t, old(Counters())) then Some(t) else None)
      ensures r.Some? ==> Counters() == Minus(old(Counters()), Demand(t)) && calls == old(calls) + RunCalls([t])
      ensures r.None? ==> Counters() == old(Counters()) && calls == old(calls)
    {
      if Fits(t, Counters()) {
        Run(t);
        r := Some(t);
      } else {
        r := None;
      }
    }

    /** run: the task's demand is taken from the counters and the task handed to the manager. */
    method Run(t: Task)
      modifies this`cpus, this`memory, this`disks, this`calls
      ensures Counters() == Minus(old(Counters()), Demand(t))
      ensures calls == old(calls) + [RunCall(t.name, t.cpu, t.memory, t.disks)]
    {
      UseResources(t);
      calls := calls + [RunCall(t.name, t.cpu, t.memory, t.disks)];
    }

    method UseResources(t: Task)
      modifies this`cpus, this`memory, this`disks
      ensures Counters() == Minus(old(Counters()), Demand(t))
    {
      cpus := cpus - t.cpu;
      memory := memory - t.memory;
      disks := disks - t.disks;
    }

    method RestoreResources(t: Task)
      modifies this`cpus, this`memory, this`disks
      ensures Counters() == Plus(old(Counters()), Demand(t))
    {
      cpus := cpus + t.cpu;
      memory := memory + t.memory;
      disks := disks + t.disks;
    }

    /** taskNotProcessed: the task is neither queued, nor running, nor complete. */
    predicate TaskNotProcessed(v: Task)
      reads this
    {
      v !in readyToRun && v !in running && v !in complete
    }

    /**
     * onTaskDone: the task's demand goes back to the counters, the task moves from running to
     * complete and leaves the graph, and the sources of the graph not processed yet are queued.
     */
    method OnTaskDone(t: Task)
      requires t in running
      modifies this`cpus, this`memory, this`disks, this`running, this`complete, this`dependencyGraph, this`readyToRun
      ensures |readyToRun| >= |old(readyToRun)|
      ensures Enumerates(readyToRun[|old(readyToRun)|..], NewlyReady(old(State()), t))
      ensures State() == TaskDoneStep(old(State()), t, readyToRun[|old(readyToRun)|..])
    {
      RestoreResources(t);
      running := running - {t};
      complete := complete + {t};
      dependencyGraph := RemoveVertex(dependencyGraph, t);
      var newReady := set v | v in Sources(dependencyGraph) && TaskNotProcessed(v);
      Enqueue(newReady);
      assert readyToRun == old(readyToRun) + readyToRun[|old(readyToRun)|..];
    }

    /** readyToRun.addAll(ts): the tasks of ts join the end of the queue in some order. */
    method Enqueue(ts: set<Task>)
      modifies this`readyToRun
      ensures |readyToRun| >= |old(readyToRun)| && readyToRun[..|old(readyToRun)|] == old(readyToRun)
      ensures Enumerates(readyToRun[|old(readyToRun)|..], ts)
    {
      var todo := ts;
      var added: seq<Task> := [];
      while todo != {}
        invariant todo <= ts
        invariant Distinct(added) && Elems(added) == ts - todo
        modifies {}
        decreases todo
      {
        var t :| t in todo;
        DistinctAppend(added, [t]);
        added := added + [t];
        todo := todo - {t};
      }
      readyToRun := readyToRun + added;
      assert readyToRun[|old(readyToRun)|..] == added;
    }
  }

  /**
   * n is the number of elements of s. Stated for every set equal to s, so that the fact is
   * only used where the size of such a set is asked for.
   */
  ghost predicate Counts(s: set<Task>, n: int) {
    forall r: set<Task> | r == s :: |r| == n
  }

  /** While the tasks launched are among the graph's, counting them tells whether all are. */
  lemma LaunchedCount(complete: set<Task>, running: set<Task>, g0: Graph<Task>)
    requires complete + running <= g0.vertices
    ensures |complete + running| == |g0.vertices| <==> complete + running == g0.vertices
  {
    if |complete + running| == |g0.vertices| {
      SameSizeSubset(complete + running, g0.vertices);
    }
  }

  /** A subset as large as its superset is the superset. */
  lemma SameSizeSubset(a: set<Task>, b: set<Task>)
    requires a <= b && |a| == |b|
    ensures a == b
  {
    if a != b {
      assert !(b <= a);
      var x :| x in b && x !in a;
      SubsetCard(a, b - {x});
    }
  }
}
