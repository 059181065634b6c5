/** The scheduler of sat/waiting.py:483-548 as a step machine over a dependency graph.
    Poll outcomes, `begin` failures, timeouts, retries and the order in which sets are
    visited are all left open: a run is any sequence of enabled steps. A timeout or a
    retry neither changes the state nor moves away from the loop head, so a run may
    span several attempts. */
module Scheduler {
  import opened DependencyGraph

  datatype Phase<N> =
    | Starting(todo: set<N>)                                         // pre_wait_action
    | Head                                                           // polling loop head
    | Releasing(outer: set<N>, inner: set<N>, settled: set<N>) // the two nested loops

  datatype Step<N> =
    | Start(member: N, raises: bool)           // begin a member without dependencies
    | Started                                  // pending -= failed
    | Poll(complete: set<N>, raised: set<N>)   // poll every pending member
    | Take(member: N)                          // next completed member
    | Visit(dependent: N, raises: bool)        // next dependent of it
    | Sleep                                    // both loops are done

  /** The waiter's fields, and a record of the run: `succeeded` holds the members
      polled complete that were not in `failed` then, `calls` the `begin` calls in
      order, `rounds` the number of polling rounds and `waited` the number of polls
      each pending member has sat through. */
  datatype State<N> = State(
    pending: set<N>, failed: set<N>, begun: set<N>, phase: Phase<N>,
    succeeded: set<N>, calls: seq<N>, rounds: nat, waited: map<N, nat>)

  ghost function Roots<N>(g: Graph<N>): set<N> {
    set m | m in g && g[m] == {}
  }

  ghost function Init<N>(g: Graph<N>): State<N> {
    State(Roots(g), {}, {}, Starting(Roots(g)), {}, [], 0, map[])
  }

  /** `_begin_member` (sat/waiting.py:498-515). */
  ghost function BeginMember<N>(s: State<N>, m: N, raises: bool): State<N> {
    if m in s.begun then s
    else if raises then s.(failed := s.failed + {m}, calls := s.calls + [m])
    else s.(begun := s.begun + {m}, calls := s.calls + [m])
  }

  ghost predicate Enabled<N>(g: Graph<N>, s: State<N>, step: Step<N>) {
    match step
    case Start(m, _) => s.phase.Starting? && m in s.phase.todo
    case Started => s.phase.Starting? && s.phase.todo == {}
    case Poll(complete, raised) =>
      s.phase.Head? && s.pending != {} && complete + raised <= s.pending && complete !! raised
    case Take(m) => s.phase.Releasing? && s.phase.inner == {} && m in s.phase.outer
    case Visit(d, _) => s.phase.Releasing? && d in s.phase.inner
    case Sleep => s.phase.Releasing? && s.phase.inner == {} && s.phase.outer == {}
  }

  /** The test that releases a dependent (sat/waiting.py:542). */
  ghost predicate Unblocked<N>(g: Graph<N>, s: State<N>, d: N)
    requires Closed(g)
  {
    d in g && FullDeps(g, d) !! s.pending + s.failed
  }

  ghost function Polls<N>(s: State<N>, m: N): nat {
    if m in s.waited then s.waited[m] else 0
  }

  ghost function Polled<N>(s: State<N>, complete: set<N>, raised: set<N>): State<N> {
    var failed := s.failed + raised;
    var pending := s.pending - (complete + failed);
    s.(pending := pending, failed := failed, phase := Releasing(complete, {}, s.succeeded),
       succeeded := s.succeeded + (complete - failed), rounds := s.rounds + 1,
       waited := map m | m in pending :: Polls(s, m) + 1)
  }

  ghost function Visited<N>(g: Graph<N>, s: State<N>, d: N, raises: bool): State<N>
    requires Closed(g)
  {
    if !Unblocked(g, s, d) then s
    else BeginMember(s.(pending := s.pending + {d},
                        waited := if d in s.pending then s.waited else s.waited[d := 0]), d, raises)
  }

  ghost function Apply<N>(g: Graph<N>, s: State<N>, step: Step<N>): State<N>
    requires Closed(g) && Enabled(g, s, step)
  {
    match step
    case Start(m, raises) => BeginMember(s, m, raises).(phase := Starting(s.phase.todo - {m}))
    case Started => s.(pending := s.pending - s.failed, phase := Head,
                       waited := map m | m in s.pending - s.failed :: 0)
    case Poll(complete, raised) => Polled(s, complete, raised)
    case Take(m) => s.(phase := Releasing(s.phase.outer - {m}, Dependents(g, m), s.phase.settled))
    case Visit(d, raises) =>
      Visited(g, s, d, raises).(phase := s.phase.(inner := s.phase.inner - {d}))
    case Sleep => s.(phase := Head)
  }

  // ----- runs -----

  /** The state after a sequence of steps; a step that is not enabled is passed over. */
  ghost function Exec<N>(g: Graph<N>, steps: seq<Step<N>>): State<N>
    requires Closed(g)
  {
    if steps == [] then Init(g)
    else
      var s := Exec(g, steps[..|steps| - 1]);
      var step := steps[|steps| - 1];
      if Enabled(g, s, step) then Apply(g, s, step) else s
  }

  /** A run is a sequence of steps each of which is enabled where it is taken. */
  ghost predicate ValidRun<N>(g: Graph<N>, steps: seq<Step<N>>)
    requires Closed(g)
  {
    steps != [] ==>
      && ValidRun(g, steps[..|steps| - 1])
      && Enabled(g, Exec(g, steps[..|steps| - 1]), steps[|steps| - 1])
  }

  lemma ExecOneMore<N>(g: Graph<N>, steps: seq<Step<N>>, step: Step<N>)
    requires Closed(g) && ValidRun(g, steps) && Enabled(g, Exec(g, steps), step)
    ensures ValidRun(g, steps + [step])
    ensures Exec(g, steps + [step]) == Apply(g, Exec(g, steps), step)
  {
    assert (steps + [step])[..|steps|] == steps;
  }

  // ----- what a run should guarantee -----

  /** Whatever has been begun has all its transitive dependencies polled complete, and
      none of them failed. As `succeeded - failed` is all that is asked of, this holds in
      every state of a run exactly when it holds whenever `begin` is called. */
  ghost predicate OrderSafe<N>(g: Graph<N>, s: State<N>)
    requires Closed(g)
  {
    forall m | m in s.calls :: m in g && FullDeps(g, m) <= s.succeeded - s.failed
  }

  ghost predicate BegunAtMostOnce<N>(s: State<N>) {
    forall i, j | 0 <= i < j < |s.calls| :: s.calls[i] != s.calls[j]
  }

  /** Any two direct dependencies of a member have the same transitive dependencies. */
  ghost predicate SiblingsAgree<N>(g: Graph<N>)
    requires Closed(g)
  {
    forall d, a, b | d in g && a in g[d] && b in g[d] :: FullDeps(g, a) == FullDeps(g, b)
  }

  ghost predicate AtMostOneDependency<N>(g: Graph<N>) {
    forall d, a, b | d in g && a in g[d] && b in g[d] :: a == b
  }

  // ----- the invariant -----

  ghost function Released<N>(s: State<N>): set<N> {
    s.pending + s.succeeded + s.failed
  }

  ghost predicate CalledAre<N>(s: State<N>, called: set<N>) {
    && (forall m | m in s.calls :: m in called)
    && (forall m | m in called :: m in s.calls)
  }

  ghost predicate PhaseInv<N>(g: Graph<N>, s: State<N>) {
    match s.phase
    case Starting(todo) =>
      && s.succeeded == {} && s.failed <= s.pending == Roots(g) && todo <= s.pending
      && CalledAre(s, s.pending - todo)
    case Head =>
      && CalledAre(s, Released(s))
      && (forall m | m in g && g[m] <= s.succeeded :: m in Released(s))
    case Releasing(outer, inner, settled) =>
      && CalledAre(s, Released(s))
      && settled <= s.succeeded && ClosedUnder(g, settled)
      && (forall m | m in s.succeeded :: m in g && g[m] <= settled)
      && (forall m | m in g && g[m] <= settled :: m in Released(s))
      && (forall m | m in outer :: m in g && m !in settled && g[m] <= settled)
      && (forall d | d in inner :: d in g && exists m | m in g[d] :: m in g && m !in settled && g[m] <= settled)
      && (forall m | m in g && g[m] <= s.succeeded ::
            m in Released(s) || m in inner || exists x | x in outer :: x in g[m])
  }

  ghost predicate Inv<N>(g: Graph<N>, s: State<N>) {
    && Released(s) <= g.Keys
    && s.succeeded !! s.pending + s.failed
    && (forall m | m in Released(s) :: g[m] <= s.succeeded)
    && (forall m | m in s.begun :: m in s.calls)
    && PhaseInv(g, s)
  }

  lemma PollKeepsInv<N>(g: Graph<N>, s: State<N>, complete: set<N>, raised: set<N>)
    requires Closed(g) && Inv(g, s) && Enabled(g, s, Poll(complete, raised))
    ensures Inv(g, Polled(s, complete, raised))
  {
    var t := Polled(s, complete, raised);
    assert Released(t) == Released(s);
    forall m | m in g && g[m] <= t.succeeded
      ensures m in Released(t) || exists x | x in complete :: x in g[m]
    {
      if !(g[m] <= s.succeeded) {
        var x :| x in g[m] && x !in s.succeeded;
        assert x in complete;
      }
    }
  }

  /** A dependent that passes the release test has all its direct dependencies done. */
  lemma UnblockedIsReady<N>(g: Graph<N>, s: State<N>, d: N)
    requires Closed(g) && SiblingsAgree(g) && Inv(g, s)
    requires s.phase.Releasing? && d in s.phase.inner && Unblocked(g, s, d)
    ensures g[d] <= s.succeeded && d !in s.succeeded
  {
    var settled := s.phase.settled;
    var m :| m in g[d] && m !in settled && g[m] <= settled;
    FullDepsWithin(g, m, settled);
    forall b | b in g[d] ensures b in s.succeeded {
      assert FullDeps(g, b) == FullDeps(g, m);
      FullDepsWithin(g, b, settled);
      assert b in Released(s);
    }
  }

  /** Conversely, a member whose direct dependencies are done passes it. */
  lemma ReadyIsUnblocked<N>(g: Graph<N>, s: State<N>, d: N)
    requires Closed(g) && Inv(g, s) && d in g && g[d] <= s.succeeded
    ensures Unblocked(g, s, d)
  {
    assert ClosedUnder(g, s.succeeded);
    FullDepsWithin(g, d, s.succeeded);
  }

  lemma VisitKeepsInv<N>(g: Graph<N>, s: State<N>, d: N, raises: bool)
    requires Closed(g) && SiblingsAgree(g) && Inv(g, s) && Enabled(g, s, Visit(d, raises))
    ensures Inv(g, Apply(g, s, Visit(d, raises)))
  {
    var t := Apply(g, s, Visit(d, raises));
    if Unblocked(g, s, d) {
      UnblockedIsReady(g, s, d);
      assert Released(t) == Released(s) + {d};
    } else if g[d] <= s.succeeded {
      ReadyIsUnblocked(g, s, d);
    }
  }

  lemma StepKeepsInv<N>(g: Graph<N>, s: State<N>, step: Step<N>)
    requires Closed(g) && SiblingsAgree(g) && Inv(g, s) && Enabled(g, s, step)
    ensures Inv(g, Apply(g, s, step))
  {
    match step
    case Start(m, raises) =>
    case Started =>
    case Poll(complete, raised) => PollKeepsInv(g, s, complete, raised);
    case Take(m) =>
    case Visit(d, raises) => VisitKeepsInv(g, s, d, raises);
    case Sleep =>
  }

  lemma {:induction false} RunKeepsInv<N>(g: Graph<N>, steps: seq<Step<N>>)
    requires Closed(g) && SiblingsAgree(g) && ValidRun(g, steps)
    ensures Inv(g, Exec(g, steps))
  {
    if steps == [] {
    } else {
      var before := steps[..|steps| - 1];
      RunKeepsInv(g, before);
      StepKeepsInv(g, Exec(g, before), steps[|steps| - 1]);
    }
  }

  lemma InvOrderSafe<N>(g: Graph<N>, s: State<N>)
    requires Closed(g) && Inv(g, s)
    ensures OrderSafe(g, s)
  {
    forall m | m in s.calls ensures m in g && FullDeps(g, m) <= s.succeeded - s.failed {
      FullDepsWithin(g, m, s.succeeded);
    }
  }
}
