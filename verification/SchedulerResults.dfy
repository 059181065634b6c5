/** What holds of every run of the scheduler: `begin` at most once, the outcome of a
    run that ends, and how many rounds it can take. */
module SchedulerResults {
  import opened DependencyGraph
  import opened Scheduler

  // ----- begin is called at most once -----

  /** Members still to be visited in this phase have not been begun, and no two visits
      that are still to come are of the same member. */
  ghost predicate OnceInv<N>(g: Graph<N>, s: State<N>) {
    && BegunAtMostOnce(s)
    && match s.phase
       case Starting(todo) => forall m | m in todo :: m !in s.calls
       case Head => true
       case Releasing(outer, inner, _) =>
         && outer <= s.succeeded + s.failed
         && (forall d | d in inner :: d !in s.calls)
         && (forall x, d | x in outer && d in Dependents(g, x) :: d !in s.calls && d !in inner)
  }

  lemma StepKeepsOnce<N>(g: Graph<N>, s: State<N>, step: Step<N>)
    requires Closed(g) && AtMostOneDependency(g) && SiblingsAgree(g)
    requires Inv(g, s) && OnceInv(g, s) && Enabled(g, s, step)
    ensures OnceInv(g, Apply(g, s, step))
  {
    match step
    case Start(m, raises) =>
    case Started =>
    case Poll(complete, raised) =>
      forall x, d | x in complete && d in Dependents(g, x) ensures d !in s.calls {
        assert x !in s.succeeded;
      }
    case Take(m) =>
    case Visit(d, raises) =>
    case Sleep =>
  }

  lemma SingleSiblingsAgree<N>(g: Graph<N>)
    requires Closed(g) && AtMostOneDependency(g)
    ensures SiblingsAgree(g)
  {
  }

  lemma {:induction false} RunKeepsOnce<N>(g: Graph<N>, steps: seq<Step<N>>)
    requires Closed(g) && AtMostOneDependency(g) && ValidRun(g, steps)
    ensures OnceInv(g, Exec(g, steps))
  {
    SingleSiblingsAgree(g);
    if steps == [] {
    } else {
      var before := steps[..|steps| - 1];
      RunKeepsOnce(g, before);
      RunKeepsInv(g, before);
      StepKeepsOnce(g, Exec(g, before), steps[|steps| - 1]);
    }
  }

  lemma RunBeginsOnce<N>(g: Graph<N>, steps: seq<Step<N>>)
    requires Closed(g) && AtMostOneDependency(g) && ValidRun(g, steps)
    ensures BegunAtMostOnce(Exec(g, steps))
  {
    RunKeepsOnce(g, steps);
  }

  /** Nothing in the run makes `begin` raise. */
  ghost predicate NoBeginFails<N>(steps: seq<Step<N>>) {
    forall step | step in steps :: step.Start? || step.Visit? ==> !step.raises
  }

  lemma StepKeepsBegun<N>(g: Graph<N>, s: State<N>, step: Step<N>)
    requires Closed(g) && Enabled(g, s, step) && (step.Start? || step.Visit? ==> !step.raises)
    requires BegunAtMostOnce(s) && CalledAre(s, s.begun)
    ensures BegunAtMostOnce(Apply(g, s, step)) && CalledAre(Apply(g, s, step), Apply(g, s, step).begun)
  {
  }

  /** On any graph, a member can be begun a second time only after its `begin` has failed. */
  lemma {:induction false} BegunTwiceOnlyAfterFailure<N>(g: Graph<N>, steps: seq<Step<N>>)
    requires Closed(g) && ValidRun(g, steps) && NoBeginFails(steps)
    ensures BegunAtMostOnce(Exec(g, steps)) && CalledAre(Exec(g, steps), Exec(g, steps).begun)
  {
    hide Apply, Enabled;
    if steps == [] {
    } else {
      var before := steps[..|steps| - 1];
      BegunTwiceOnlyAfterFailure(g, before);
      StepKeepsBegun(g, Exec(g, before), steps[|steps| - 1]);
    }
  }

  // ----- the outcome -----

  ghost predicate FailedBelow<N>(g: Graph<N>, s: State<N>, m: N)
    requires Closed(g) && m in g
  {
    FullDeps(g, m) * s.failed != {}
  }

  /** Exactly one of: it succeeded; it failed; it was never begun because one of its
      transitive dependencies failed. */
  ghost predicate Settled<N>(g: Graph<N>, s: State<N>, m: N)
    requires Closed(g) && m in g
  {
    || (m in s.succeeded && m !in s.failed && m in s.calls && !FailedBelow(g, s, m))
    || (m !in s.succeeded && m in s.failed && m in s.calls && !FailedBelow(g, s, m))
    || (m !in s.succeeded && m !in s.failed && m !in s.calls && FailedBelow(g, s, m))
  }

  lemma {:induction false} FinishedIsSettled<N>(g: Graph<N>, s: State<N>, m: N)
    requires Closed(g) && Acyclic(g) && Inv(g, s) && m in g
    requires s.phase.Head? && s.pending == {}
    ensures Settled(g, s, m)
    decreases |FullDeps(g, m)|
  {
    InvOrderSafe(g, s);
    if m !in Released(s) {
      var b :| b in g[m] && b !in s.succeeded;
      RankDecreases(g, m, b);
      FinishedIsSettled(g, s, b);
      FullDepsTransitive(g, m, b);
      if b in s.failed {
        assert b in FullDeps(g, m) * s.failed;
      } else {
        var f :| f in FullDeps(g, b) * s.failed;
        assert f in FullDeps(g, m) * s.failed;
      }
    }
  }

  /** Every run that comes to its end settles every member. */
  lemma RunSettles<N>(g: Graph<N>, steps: seq<Step<N>>)
    requires Closed(g) && Acyclic(g) && SiblingsAgree(g) && ValidRun(g, steps)
    requires Exec(g, steps).phase.Head? && Exec(g, steps).pending == {}
    ensures forall m | m in g :: Settled(g, Exec(g, steps), m)
    ensures Exec(g, steps).failed == {} <==> Exec(g, steps).succeeded == g.Keys
  {
    var s := Exec(g, steps);
    RunKeepsInv(g, steps);
    forall m | m in g ensures Settled(g, s, m) {
      FinishedIsSettled(g, s, m);
    }
  }

  /** Nothing that depends on a failed member is ever begun, neither before it fails nor after. */
  lemma NothingBegunAboveFailure<N>(g: Graph<N>, steps: seq<Step<N>>, m: N, f: N)
    requires Closed(g) && SiblingsAgree(g) && ValidRun(g, steps)
    requires m in g && f in FullDeps(g, m) && f in Exec(g, steps).failed
    ensures m !in Exec(g, steps).calls
  {
    RunKeepsInv(g, steps);
    InvOrderSafe(g, Exec(g, steps));
  }

  // ----- progress -----

  /** No member sits through `k` polls in a row. */
  ghost predicate Patient<N>(g: Graph<N>, steps: seq<Step<N>>, k: nat)
    requires Closed(g)
  {
    && (forall m | m in Exec(g, steps).pending :: Polls(Exec(g, steps), m) < k)
    && (steps != [] ==> Patient(g, steps[..|steps| - 1], k))
  }

  lemma PatientOneMore<N>(g: Graph<N>, steps: seq<Step<N>>, step: Step<N>, k: nat)
    requires Closed(g) && Patient(g, steps, k)
    requires forall m | m in Exec(g, steps + [step]).pending :: Polls(Exec(g, steps + [step]), m) < k
    ensures Patient(g, steps + [step], k)
  {
    assert (steps + [step])[..|steps|] == steps;
  }

  /** A member of height `h` is waited for during rounds `k * (h - 1)` to `k * h` at the latest. */
  ghost predicate OnTime<N>(g: Graph<N>, s: State<N>, k: nat)
    requires Closed(g) && Acyclic(g)
  {
    && s.pending <= g.Keys
    && (!s.phase.Starting? ==> s.waited.Keys == s.pending)
    && (s.phase.Starting? ==> s.rounds == 0)
    && (forall m | m in s.pending :: s.rounds <= k * (Height(g, m) - 1) + Polls(s, m))
    && (s.phase.Releasing? ==>
          && (forall x | x in s.phase.outer :: x in g && s.rounds <= k * Height(g, x))
          && (forall d | d in s.phase.inner :: d in g && s.rounds <= k * (Height(g, d) - 1)))
  }

  lemma PollOnTime<N>(g: Graph<N>, s: State<N>, complete: set<N>, raised: set<N>, k: nat)
    requires Closed(g) && Acyclic(g) && OnTime(g, s, k) && Enabled(g, s, Poll(complete, raised))
    requires forall m | m in s.pending :: Polls(s, m) < k
    ensures OnTime(g, Polled(s, complete, raised), k)
  {
    forall x | x in complete ensures s.rounds + 1 <= k * Height(g, x) {
      assert k * (Height(g, x) - 1) + k == k * Height(g, x);
    }
  }

  lemma TakeOnTime<N>(g: Graph<N>, s: State<N>, m: N, k: nat)
    requires Closed(g) && Acyclic(g) && OnTime(g, s, k) && Enabled(g, s, Take(m))
    ensures OnTime(g, Apply(g, s, Take(m)), k)
  {
    forall d | d in Dependents(g, m) ensures s.rounds <= k * (Height(g, d) - 1) {
      HeightStep(g, d, m);
      MulMonotone(k, Height(g, m), Height(g, d) - 1);
    }
  }

  lemma MulMonotone(k: nat, a: int, b: int)
    requires a <= b
    ensures k * a <= k * b
  {
  }

  lemma StartOnTime<N>(g: Graph<N>, k: nat)
    requires Closed(g) && Acyclic(g)
    ensures OnTime(g, Init(g), k)
  {
    forall m | m in Roots(g) ensures 0 <= k * (Height(g, m) - 1) {
      HeightPositive(g, m);
      MulMonotone(k, 0, Height(g, m) - 1);
    }
  }

  lemma VisitOnTime<N>(g: Graph<N>, s: State<N>, d: N, raises: bool, k: nat)
    requires Closed(g) && Acyclic(g) && OnTime(g, s, k) && Enabled(g, s, Visit(d, raises))
    ensures OnTime(g, Apply(g, s, Visit(d, raises)), k)
  {
    var t := Apply(g, s, Visit(d, raises));
    forall m | m in t.pending ensures s.rounds <= k * (Height(g, m) - 1) + Polls(t, m) {
      if m in s.pending {
        assert Polls(t, m) == Polls(s, m);
      }
    }
  }

  lemma StartPhaseOnTime<N>(g: Graph<N>, s: State<N>, step: Step<N>, k: nat)
    requires Closed(g) && Acyclic(g) && OnTime(g, s, k) && Enabled(g, s, step)
    requires step.Start? || step.Started?
    ensures OnTime(g, Apply(g, s, step), k)
  {
    var t := Apply(g, s, step);
    forall m | m in t.pending ensures t.rounds <= k * (Height(g, m) - 1) + Polls(t, m) {
      HeightPositive(g, m);
      MulMonotone(k, 0, Height(g, m) - 1);
    }
  }

  lemma StepOnTime<N>(g: Graph<N>, s: State<N>, step: Step<N>, k: nat)
    requires Closed(g) && Acyclic(g) && OnTime(g, s, k) && Enabled(g, s, step)
    requires forall m | m in s.pending :: Polls(s, m) < k
    ensures OnTime(g, Apply(g, s, step), k)
  {
    match step
    case Start(m, raises) => StartPhaseOnTime(g, s, step, k);
    case Started => StartPhaseOnTime(g, s, step, k);
    case Poll(complete, raised) => PollOnTime(g, s, complete, raised, k);
    case Take(m) => TakeOnTime(g, s, m, k);
    case Visit(d, raises) => VisitOnTime(g, s, d, raises, k);
    case Sleep =>
  }

  lemma {:induction false} RunOnTime<N>(g: Graph<N>, steps: seq<Step<N>>, k: nat)
    requires Closed(g) && Acyclic(g) && ValidRun(g, steps) && Patient(g, steps, k)
    ensures OnTime(g, Exec(g, steps), k)
  {
    if steps == [] {
      StartOnTime(g, k);
    } else {
      var before := steps[..|steps| - 1];
      RunOnTime(g, before, k);
      StepOnTime(g, Exec(g, before), steps[|steps| - 1], k);
    }
  }

  /** When no member sits through `k` polls and the longest dependency chain has `l`
      members, a round is started only if fewer than `k * l` have been made. This asks no
      more of the graph than that it is acyclic. */
  lemma RoundsBelow<N>(g: Graph<N>, steps: seq<Step<N>>, k: nat)
    requires Closed(g) && Acyclic(g) && ValidRun(g, steps) && Patient(g, steps, k)
    requires Exec(g, steps).phase.Head? && Exec(g, steps).pending != {}
    ensures Exec(g, steps).rounds < k * LongestChain(g)
  {
    RunOnTime(g, steps, k);
    var m :| m in Exec(g, steps).pending;
    HeightWithinLongest(g, m);
    WithinWindow(k, Height(g, m), LongestChain(g));
  }

  lemma WithinWindow(k: nat, h: nat, l: nat)
    requires h <= l
    ensures k * (h - 1) + k <= k * l
  {
    MulMonotone(k, h, l);
  }

  lemma RoundsStep<N>(g: Graph<N>, s: State<N>, step: Step<N>)
    requires Closed(g) && Enabled(g, s, step)
    ensures Apply(g, s, step).rounds == if step.Poll? then s.rounds + 1 else s.rounds
  {
  }

  lemma {:induction false} RoundsBounded<N>(g: Graph<N>, steps: seq<Step<N>>, k: nat)
    requires Closed(g) && Acyclic(g) && ValidRun(g, steps) && Patient(g, steps, k)
    ensures Exec(g, steps).rounds <= k * LongestChain(g)
  {
    hide Acyclic, LongestChain, Apply, Polls;
    if steps == [] {
    } else {
      var before := steps[..|steps| - 1];
      RoundsBounded(g, before, k);
      RoundsStep(g, Exec(g, before), steps[|steps| - 1]);
      if steps[|steps| - 1].Poll? {
        RoundsBelow(g, before, k);
      }
    }
  }
}
