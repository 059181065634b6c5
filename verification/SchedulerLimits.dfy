/** Which dependency graphs the scheduler handles correctly in every run: exact
    conditions, with a run that goes wrong built for every graph outside them. */
module SchedulerLimits {
  import opened DependencyGraph
  import opened Scheduler
  import opened SchedulerResults

  ghost function ReadyAfter<N>(g: Graph<N>, done: set<N>): set<N> {
    set m | m in g && g[m] <= done
  }

  /** The loop head of a run without failures in which exactly `done` has completed. */
  ghost predicate AtHead<N>(g: Graph<N>, s: State<N>, done: set<N>) {
    && s.phase.Head? && s.failed == {} && s.succeeded == done
    && s.pending == ReadyAfter(g, done) - done
    && s.begun == ReadyAfter(g, done)
  }

  /** The same within the loop over the dependents of the last member completed. */
  ghost predicate AtVisits<N>(g: Graph<N>, s: State<N>, done: set<N>) {
    && s.phase.Releasing? && s.phase.outer == {} && s.phase.inner <= g.Keys - done
    && s.failed == {} && s.succeeded == done
    && s.pending == ReadyAfter(g, done) - done - s.phase.inner
    && s.begun == ReadyAfter(g, done) - s.phase.inner
  }

  lemma {:induction false} StartRoots<N>(g: Graph<N>, steps: seq<Step<N>>) returns (run: seq<Step<N>>)
    requires Closed(g) && ValidRun(g, steps) && Exec(g, steps).phase.Starting?
    requires Exec(g, steps).pending == Roots(g) && Exec(g, steps).phase.todo <= Roots(g)
    requires Exec(g, steps).failed == {} == Exec(g, steps).succeeded
    requires Exec(g, steps).begun == Roots(g) - Exec(g, steps).phase.todo
    ensures ValidRun(g, run) && AtHead(g, Exec(g, run), {})
    decreases Exec(g, steps).phase.todo
  {
    hide Exec, ValidRun;
    var s := Exec(g, steps);
    if s.phase.todo == {} {
      ExecOneMore(g, steps, Started);
      run := steps + [Started];
      assert ReadyAfter(g, {}) == Roots(g);
    } else {
      var m :| m in s.phase.todo;
      ExecOneMore(g, steps, Start(m, false));
      run := StartRoots(g, steps + [Start(m, false)]);
    }
  }

  /** Climbing from `m` inside `s` ends at a member nothing in `s` depends on. */
  lemma {:induction false} TopMember<N>(g: Graph<N>, s: set<N>, m: N) returns (top: N)
    requires Closed(g) && Acyclic(g) && m in s && s <= g.Keys
    ensures top in s && forall x | x in s :: top !in g[x]
    decreases |g.Keys - FullDeps(g, m)|
  {
    if x :| x in s && m in g[x] {
      FullDepsTransitive(g, x, m);
      assert m in FullDeps(g, x) && m !in FullDeps(g, m);
      ProperSubsetSize(g.Keys - FullDeps(g, x), g.Keys - FullDeps(g, m));
      top := TopMember(g, s, x);
    } else {
      top := m;
    }
  }

  /** Descending from `m` inside `s` ends at a member all of whose dependencies are outside. */
  lemma {:induction false} BottomMember<N>(g: Graph<N>, s: set<N>, m: N) returns (bottom: N)
    requires Closed(g) && Acyclic(g) && m in s && s <= g.Keys
    ensures bottom in s && g[bottom] !! s
    decreases |FullDeps(g, m)|
  {
    if x :| x in g[m] && x in s {
      RankDecreases(g, m, x);
      bottom := BottomMember(g, s, x);
    } else {
      bottom := m;
    }
  }

  // ----- begun early -----

  /** `y` is neither pending nor failed, and none of the visits to come in this round is to it. */
  ghost predicate Passed<N>(g: Graph<N>, s: State<N>, y: N)
    requires s.phase.Releasing? && y in g
  {
    y !in s.pending + s.failed + s.phase.inner && g[y] !! s.phase.outer
  }

  /** `d` has been begun although `e` below it is only to be visited later in the round. */
  ghost predicate EarlyBy<N>(g: Graph<N>, s: State<N>, d: N, e: N)
    requires Closed(g) && d in g && e in FullDeps(g, d)
  {
    && s.phase.Releasing? && d in s.calls && e !in s.begun + s.succeeded
    && (e in s.phase.inner || exists x | x in s.phase.outer :: x in g[e])
    && (forall y | y in FullDeps(g, e) :: Passed(g, s, y))
  }

  ghost predicate BegunEarly<N>(g: Graph<N>, s: State<N>)
    requires Closed(g)
  {
    exists d, e | d in g && e in FullDeps(g, d) :: EarlyBy(g, s, d, e)
  }

  lemma BegunEarlyIsUnsafe<N>(g: Graph<N>, s: State<N>)
    requires Closed(g) && BegunEarly(g, s)
    ensures !OrderSafe(g, s)
  {
  }

  /** A visit that begins `d` before all its direct dependencies have completed leaves one
      below it to be visited later. */
  lemma EarlyVisit<N>(g: Graph<N>, s: State<N>, done: set<N>, d: N)
    requires Closed(g) && Acyclic(g) && ClosedUnder(g, done) && done <= g.Keys && AtVisits(g, s, done)
    requires d in s.phase.inner && Unblocked(g, s, d) && !(g[d] <= done)
    ensures BegunEarly(g, Apply(g, s, Visit(d, false)))
  {
    var t := Apply(g, s, Visit(d, false));
    var some :| some in g[d] && some !in done;
    var e := BottomMember(g, FullDeps(g, d) - done, some);
    assert d !in FullDeps(g, d);
    FullDepsWithin(g, e, done);
    assert e in s.phase.inner;
    assert EarlyBy(g, t, d, e);
  }

  /** Visits every dependent left. If one is begun before all it depends on has
      completed, the run ends there. */
  lemma {:induction false} VisitRest<N>(g: Graph<N>, steps: seq<Step<N>>, done: set<N>)
    returns (run: seq<Step<N>>)
    requires Closed(g) && Acyclic(g) && ClosedUnder(g, done) && done <= g.Keys
    requires ValidRun(g, steps) && AtVisits(g, Exec(g, steps), done)
    ensures ValidRun(g, run)
    ensures BegunEarly(g, Exec(g, run)) || AtHead(g, Exec(g, run), done)
    decreases Exec(g, steps).phase.inner
  {
    hide Exec, ValidRun, BegunEarly, Acyclic;
    var s := Exec(g, steps);
    if s.phase.inner == {} {
      ExecOneMore(g, steps, Sleep);
      run := steps + [Sleep];
    } else {
      var d :| d in s.phase.inner;
      ExecOneMore(g, steps, Visit(d, false));
      run := steps + [Visit(d, false)];
      FullDepsWithin(g, d, done);
      if Unblocked(g, s, d) && !(g[d] <= done) {
        EarlyVisit(g, s, done, d);
      } else {
        run := VisitRest(g, run, done);
      }
    }
  }

  /** One more member of a down-closed set completes. */
  lemma CompleteLast<N>(g: Graph<N>, steps: seq<Step<N>>, done: set<N>, m: N) returns (run: seq<Step<N>>)
    requires Closed(g) && Acyclic(g) && ClosedUnder(g, done) && done <= g.Keys
    requires m in done && forall x | x in done :: m !in g[x]
    requires ValidRun(g, steps) && AtHead(g, Exec(g, steps), done - {m})
    ensures ValidRun(g, run)
    ensures BegunEarly(g, Exec(g, run)) || AtHead(g, Exec(g, run), done)
  {
    hide Exec, ValidRun, Acyclic, BegunEarly;
    var poll := Poll({m}, {});
    assert m in Exec(g, steps).pending by { assert g[m] <= done - {m}; }
    ExecOneMore(g, steps, poll);
    ExecOneMore(g, steps + [poll], Take(m));
    run := VisitRest(g, steps + [poll] + [Take(m)], done);
  }

  /** Every down-closed set of members can be completed one member at a time, unless
      something is begun too early on the way. */
  lemma {:induction false} Complete<N>(g: Graph<N>, done: set<N>) returns (run: seq<Step<N>>)
    requires Closed(g) && Acyclic(g) && ClosedUnder(g, done) && done <= g.Keys
    ensures ValidRun(g, run)
    ensures BegunEarly(g, Exec(g, run)) || AtHead(g, Exec(g, run), done)
    decreases |done|
  {
    if done == {} {
      run := StartRoots(g, []);
    } else {
      hide Exec, ValidRun, AtHead, BegunEarly;
      var some :| some in done;
      var m := TopMember(g, done, some);
      run := Complete(g, done - {m});
      if !BegunEarly(g, Exec(g, run)) {
        run := CompleteLast(g, run, done, m);
      }
    }
  }

  // ----- order -----

  /** All pending below `d` completes, and `d` is visited from its direct dependency `a` first. */
  ghost function TakenFirst<N>(g: Graph<N>, s: State<N>, d: N, a: N): State<N>
    requires Closed(g) && d in g
  {
    var complete := s.pending * FullDeps(g, d);
    var t := Polled(s, complete, {});
    var taken := t.(phase := Releasing(complete - {a}, Dependents(g, a), t.phase.settled));
    Visited(g, taken, d, false).(phase := taken.phase.(inner := taken.phase.inner - {d}))
  }

  /** Something below `d` is then ready only because of what has just completed. */
  lemma LateBelow<N>(g: Graph<N>, s: State<N>, d: N, a: N, b: N) returns (e: N, x: N)
    requires Closed(g) && Acyclic(g) && d in g && a in g[d] && b in g[d]
    requires !(FullDeps(g, b) <= FullDeps(g, a)) && AtHead(g, s, FullDeps(g, a))
    ensures var complete := s.pending * FullDeps(g, d);
            && e in FullDeps(g, d) && e !in FullDeps(g, a) + complete
            && FullDeps(g, e) <= FullDeps(g, a) + complete
            && x in complete && x in g[e]
  {
    var done := FullDeps(g, a);
    var complete := s.pending * FullDeps(g, d);
    var late := LateMember(g, d, a, b);
    e := BottomMember(g, FullDeps(g, d) - (done + complete), late);
    hide Acyclic;
    assert ClosedUnder(g, done + complete);
    FullDepsWithin(g, e, done + complete);
    assert e in s.pending || !(g[e] <= done);
    x :| x in g[e] && x !in done;
  }

  lemma TakenFirstIsEarly<N>(g: Graph<N>, s: State<N>, d: N, a: N, b: N)
    requires Closed(g) && Acyclic(g) && d in g && a in g[d] && b in g[d]
    requires !(FullDeps(g, b) <= FullDeps(g, a)) && AtHead(g, s, FullDeps(g, a))
    ensures BegunEarly(g, TakenFirst(g, s, d, a))
  {
    var done := FullDeps(g, a);
    var complete := s.pending * FullDeps(g, d);
    var t := TakenFirst(g, s, d, a);
    var e, x := LateBelow(g, s, d, a, b);
    assert d !in FullDeps(g, d) && a !in done;
    hide Acyclic;
    assert t.calls == s.calls + [d];
    forall y | y in FullDeps(g, e) ensures Passed(g, t, y) {
      assert g[y] <= done;
      assert y != d && y !in t.pending;
    }
    assert x != a ==> x in t.phase.outer;
    hide Passed, TakenFirst;
    assert EarlyBy(g, t, d, e);
  }

  /** If `a` and `b` are direct dependencies of `d` and something below `b` is not below
      `a`, then `d` can be begun before it is done. */
  lemma EarlyBegin<N>(g: Graph<N>, d: N, a: N, b: N) returns (run: seq<Step<N>>)
    requires Closed(g) && Acyclic(g) && d in g && a in g[d] && b in g[d]
    requires !(FullDeps(g, b) <= FullDeps(g, a))
    ensures ValidRun(g, run) && BegunEarly(g, Exec(g, run)) && !OrderSafe(g, Exec(g, run))
  {
    hide Exec, ValidRun, BegunEarly, OrderSafe;
    run := Complete(g, FullDeps(g, a));
    if !BegunEarly(g, Exec(g, run)) {
      var s := Exec(g, run);
      var poll := Poll(s.pending * FullDeps(g, d), {});
      assert a in s.pending by { assert a !in FullDeps(g, a); }
      ExecOneMore(g, run, poll);
      run := run + [poll];
      ExecOneMore(g, run, Take(a));
      run := run + [Take(a)];
      ExecOneMore(g, run, Visit(d, false));
      run := run + [Visit(d, false)];
      assert Exec(g, run) == TakenFirst(g, s, d, a);
      TakenFirstIsEarly(g, s, d, a, b);
    }
    BegunEarlyIsUnsafe(g, Exec(g, run));
  }

  /** Something below `d` that is neither below `a` nor ready once all below `a` is done. */
  lemma LateMember<N>(g: Graph<N>, d: N, a: N, b: N) returns (late: N)
    requires Closed(g) && d in g && a in g[d] && b in g[d]
    requires !(FullDeps(g, b) <= FullDeps(g, a))
    ensures late in FullDeps(g, d) && late !in FullDeps(g, a) && !(g[late] <= FullDeps(g, a))
  {
    var c :| c in FullDeps(g, b) && c !in FullDeps(g, a);
    late := FullDepsParent(g, b, c);
    FullDepsTransitive(g, d, b);
  }

  /** So it is wherever siblings do not agree. */
  lemma DisagreeingIsEarly<N>(g: Graph<N>) returns (run: seq<Step<N>>)
    requires Closed(g) && Acyclic(g) && !SiblingsAgree(g)
    ensures ValidRun(g, run) && BegunEarly(g, Exec(g, run)) && !OrderSafe(g, Exec(g, run))
  {
    var d, a, b :| d in g && a in g[d] && b in g[d] && FullDeps(g, a) != FullDeps(g, b);
    if FullDeps(g, b) <= FullDeps(g, a) {
      run := EarlyBegin(g, d, b, a);
    } else {
      run := EarlyBegin(g, d, a, b);
    }
  }

  /** In every run everything is begun only after all its transitive dependencies have
      completed, exactly when the direct dependencies of each member agree on theirs. */
  lemma OrderSafeIffSiblingsAgree<N>(g: Graph<N>)
    requires Closed(g) && Acyclic(g)
    ensures (forall run: seq<Step<N>> | ValidRun(g, run) :: OrderSafe(g, Exec(g, run))) <==> SiblingsAgree(g)
  {
    if SiblingsAgree(g) {
      forall run: seq<Step<N>> | ValidRun(g, run) ensures OrderSafe(g, Exec(g, run)) {
        RunKeepsInv(g, run);
        InvOrderSafe(g, Exec(g, run));
      }
    } else {
      var run := DisagreeingIsEarly(g);
    }
  }

  // ----- failure -----

  /** `begin` of `e` fails when it is visited, after `d` above it has been begun. */
  lemma {:induction false} FailLate<N>(g: Graph<N>, steps: seq<Step<N>>, d: N, e: N) returns (run: seq<Step<N>>)
    requires Closed(g) && d in g && e in FullDeps(g, d)
    requires ValidRun(g, steps) && EarlyBy(g, Exec(g, steps), d, e)
    ensures ValidRun(g, run) && Exec(g, run).phase.Releasing?
    ensures d in Exec(g, run).calls && e in Exec(g, run).failed
    decreases Exec(g, steps).phase.outer, Exec(g, steps).phase.inner
  {
    hide Exec, ValidRun;
    var s := Exec(g, steps);
    if e in s.phase.inner {
      assert Unblocked(g, s, e);
      ExecOneMore(g, steps, Visit(e, true));
      run := steps + [Visit(e, true)];
    } else if x :| x in s.phase.inner {
      ExecOneMore(g, steps, Visit(x, false));
      run := FailLate(g, steps + [Visit(x, false)], d, e);
    } else {
      var x :| x in s.phase.outer && x in g[e];
      ExecOneMore(g, steps, Take(x));
      run := FailLate(g, steps + [Take(x)], d, e);
    }
  }

  /** A round can be brought to its end, and if all polls raise in the next one the run ends. */
  lemma {:induction false} EndRun<N>(g: Graph<N>, steps: seq<Step<N>>) returns (run: seq<Step<N>>)
    requires Closed(g) && ValidRun(g, steps) && Exec(g, steps).phase.Releasing?
    ensures ValidRun(g, run) && Exec(g, run).phase.Head? && Exec(g, run).pending == {}
    ensures Exec(g, steps).calls <= Exec(g, run).calls && Exec(g, steps).failed <= Exec(g, run).failed
    decreases Exec(g, steps).phase.outer, Exec(g, steps).phase.inner
  {
    hide Exec, ValidRun;
    var s := Exec(g, steps);
    if x :| x in s.phase.inner {
      ExecOneMore(g, steps, Visit(x, false));
      run := EndRun(g, steps + [Visit(x, false)]);
    } else if x :| x in s.phase.outer {
      ExecOneMore(g, steps, Take(x));
      run := EndRun(g, steps + [Take(x)]);
    } else {
      ExecOneMore(g, steps, Sleep);
      run := steps + [Sleep];
      if s.pending != {} {
        ExecOneMore(g, run, Poll({}, s.pending));
        run := run + [Poll({}, s.pending)];
        ExecOneMore(g, run, Sleep);
        run := run + [Sleep];
      }
    }
  }

  /** Wherever siblings do not agree, a run can end with a member begun above a failed one. */
  lemma BegunAboveFailure<N>(g: Graph<N>) returns (run: seq<Step<N>>, m: N, f: N)
    requires Closed(g) && Acyclic(g) && !SiblingsAgree(g)
    ensures ValidRun(g, run) && Exec(g, run).phase.Head? && Exec(g, run).pending == {}
    ensures m in g && m in Exec(g, run).calls && f in FullDeps(g, m) && f in Exec(g, run).failed
  {
    hide Exec, ValidRun, EarlyBy;
    run := DisagreeingIsEarly(g);
    m, f :| m in g && f in FullDeps(g, m) && EarlyBy(g, Exec(g, run), m, f);
    run := FailLate(g, run, m, f);
    run := EndRun(g, run);
  }

  ghost predicate NoneBegunAboveFailure<N>(g: Graph<N>, s: State<N>)
    requires Closed(g)
  {
    forall m | m in g && m in s.calls :: !FailedBelow(g, s, m)
  }

  ghost predicate AllSettled<N>(g: Graph<N>, s: State<N>)
    requires Closed(g)
  {
    forall m | m in g :: Settled(g, s, m)
  }

  /** In every run nothing that depends on a failed member is begun, exactly when siblings agree. */
  lemma NoneBegunAboveFailureIffSiblingsAgree<N>(g: Graph<N>)
    requires Closed(g) && Acyclic(g)
    ensures (forall run: seq<Step<N>> | ValidRun(g, run) ::
               NoneBegunAboveFailure(g, Exec(g, run))) <==> SiblingsAgree(g)
  {
    if SiblingsAgree(g) {
      forall run: seq<Step<N>>, m | ValidRun(g, run) && m in g && m in Exec(g, run).calls
        ensures !FailedBelow(g, Exec(g, run), m)
      {
        if f :| f in FullDeps(g, m) * Exec(g, run).failed {
          NothingBegunAboveFailure(g, run, m, f);
        }
      }
    } else {
      var run, m, f := BegunAboveFailure(g);
      assert f in FullDeps(g, m) * Exec(g, run).failed;
    }
  }

  /** Every run that ends settles every member, exactly when siblings agree. */
  lemma SettlesIffSiblingsAgree<N>(g: Graph<N>)
    requires Closed(g) && Acyclic(g)
    ensures (forall run: seq<Step<N>> | ValidRun(g, run) && Exec(g, run).phase.Head? && Exec(g, run).pending == {} ::
               AllSettled(g, Exec(g, run))) <==> SiblingsAgree(g)
  {
    if SiblingsAgree(g) {
      forall run: seq<Step<N>> | ValidRun(g, run) && Exec(g, run).phase.Head? && Exec(g, run).pending == {}
        ensures AllSettled(g, Exec(g, run))
      {
        RunSettles(g, run);
      }
    } else {
      var run, m, f := BegunAboveFailure(g);
      assert f in FullDeps(g, m) * Exec(g, run).failed;
      assert !Settled(g, Exec(g, run), m);
    }
  }

  // ----- once -----

  /** Everything below `d` has at most one direct dependency. */
  ghost predicate ChainsBelow<N>(g: Graph<N>, d: N)
    requires Closed(g) && d in g
  {
    forall x, a, b | x in FullDeps(g, d) && a in g[x] && b in g[x] :: a == b
  }

  /** Below `d` nothing has failed, and what is ready after `done` is pending, except for `done`
      itself and what is left to be visited. `d` has not begun. */
  ghost predicate WorkedOff<N>(g: Graph<N>, s: State<N>, d: N, done: set<N>, left: set<N>)
    requires Closed(g) && d in g
  {
    && s.failed !! FullDeps(g, d)
    && (forall x | x in FullDeps(g, d) :: x in s.pending <==> g[x] <= done && x !in done && x !in left)
    && d !in s.begun
  }

  /** Visits all that is left of the member taken. Every `begin` outside what is below `d`
      fails, that of `d` included. */
  lemma {:induction false} VisitAround<N>(g: Graph<N>, steps: seq<Step<N>>, d: N, done: set<N>)
    returns (run: seq<Step<N>>)
    requires Closed(g) && Acyclic(g) && d in g && ClosedUnder(g, done) && done <= FullDeps(g, d)
    requires ValidRun(g, steps) && Exec(g, steps).phase.Releasing?
    requires WorkedOff(g, Exec(g, steps), d, done, Exec(g, steps).phase.inner)
    requires forall x | x in Exec(g, steps).phase.inner && x in FullDeps(g, d) :: g[x] <= done && x !in done
    ensures ValidRun(g, run) && Exec(g, run).phase.Releasing? && Exec(g, run).phase.inner == {}
    ensures Exec(g, run).phase.outer == Exec(g, steps).phase.outer
    ensures WorkedOff(g, Exec(g, run), d, done, {}) && Exec(g, steps).calls <= Exec(g, run).calls
    decreases Exec(g, steps).phase.inner
  {
    hide Exec, ValidRun, Acyclic;
    var s := Exec(g, steps);
    if s.phase.inner == {} {
      run := steps;
    } else {
      var x :| x in s.phase.inner;
      var below := FullDeps(g, d);
      var step := Visit(x, x !in below);
      ExecOneMore(g, steps, step);
      if x in below {
        FullDepsWithin(g, x, done);
        forall y | y in FullDeps(g, x) ensures y !in s.pending && y !in s.failed {
          assert y in below;
        }
        assert Unblocked(g, s, x);
      }
      assert WorkedOff(g, Exec(g, steps + [step]), d, done, s.phase.inner - {x});
      run := VisitAround(g, steps + [step], d, done);
    }
  }

  /** Visits `d` first, and then the others; `begin` of `d` is called if nothing below it is pending. */
  lemma VisitFirst<N>(g: Graph<N>, steps: seq<Step<N>>, d: N, done: set<N>) returns (run: seq<Step<N>>)
    requires Closed(g) && Acyclic(g) && d in g && ClosedUnder(g, done) && done <= FullDeps(g, d)
    requires ValidRun(g, steps) && Exec(g, steps).phase.Releasing?
    requires WorkedOff(g, Exec(g, steps), d, done, Exec(g, steps).phase.inner)
    requires forall x | x in Exec(g, steps).phase.inner && x in FullDeps(g, d) :: g[x] <= done && x !in done
    ensures ValidRun(g, run) && Exec(g, run).phase.Releasing? && Exec(g, run).phase.inner == {}
    ensures Exec(g, run).phase.outer == Exec(g, steps).phase.outer
    ensures WorkedOff(g, Exec(g, run), d, done, {}) && Exec(g, steps).calls <= Exec(g, run).calls
    ensures d in Exec(g, steps).phase.inner && FullDeps(g, d) !! Exec(g, steps).pending ==>
              Exec(g, steps).calls + [d] <= Exec(g, run).calls
  {
    assert d !in FullDeps(g, d);
    hide Exec, ValidRun, Acyclic;
    var s := Exec(g, steps);
    run := steps;
    if d in s.phase.inner {
      ExecOneMore(g, steps, Visit(d, true));
      run := steps + [Visit(d, true)];
      assert FullDeps(g, d) !! s.pending ==> Unblocked(g, s, d);
    }
    run := VisitAround(g, run, d, done);
  }

  /** One more member below `d` completes, in a round of its own. If no other one is pending
      there and `d` depends on it directly, `begin` of `d` is called, and fails. */
  lemma CompleteOne<N>(g: Graph<N>, steps: seq<Step<N>>, d: N, done: set<N>, m: N) returns (run: seq<Step<N>>)
    requires Closed(g) && Acyclic(g) && d in g && ChainsBelow(g, d)
    requires ClosedUnder(g, done) && done <= FullDeps(g, d)
    requires m in FullDeps(g, d) - done && g[m] <= done
    requires ValidRun(g, steps) && Exec(g, steps).phase.Head? && WorkedOff(g, Exec(g, steps), d, done, {})
    ensures ValidRun(g, run) && Exec(g, run).phase.Head? && WorkedOff(g, Exec(g, run), d, done + {m}, {})
    ensures Exec(g, steps).calls <= Exec(g, run).calls
    ensures m in g[d] && (forall x | x in FullDeps(g, d) - done && g[x] <= done :: x == m) ==>
              Exec(g, steps).calls + [d] <= Exec(g, run).calls
  {
    assert m !in g[m] by { assert m !in FullDeps(g, m); }
    hide Exec, ValidRun, Acyclic;
    var s := Exec(g, steps);
    assert m in s.pending;
    ExecOneMore(g, steps, Poll({m}, {}));
    run := steps + [Poll({m}, {})];
    ExecOneMore(g, run, Take(m));
    run := run + [Take(m)];
    assert WorkedOff(g, Exec(g, run), d, done + {m}, Dependents(g, m));
    run := VisitFirst(g, run, d, done + {m});
    ExecOneMore(g, run, Sleep);
    run := run + [Sleep];
  }

  /** Completes members below `d` one by one, up to a down-closed set of them. */
  lemma {:induction false} CompleteUpTo<N>(g: Graph<N>, steps: seq<Step<N>>, d: N, done: set<N>, target: set<N>)
    returns (run: seq<Step<N>>)
    requires Closed(g) && Acyclic(g) && d in g && ChainsBelow(g, d)
    requires ClosedUnder(g, done) && ClosedUnder(g, target) && done <= target <= FullDeps(g, d)
    requires ValidRun(g, steps) && Exec(g, steps).phase.Head? && WorkedOff(g, Exec(g, steps), d, done, {})
    ensures ValidRun(g, run) && Exec(g, run).phase.Head? && WorkedOff(g, Exec(g, run), d, target, {})
    ensures Exec(g, steps).calls <= Exec(g, run).calls
    decreases target - done
  {
    hide Exec, ValidRun, Acyclic, WorkedOff, ChainsBelow;
    if some :| some in target && some !in done {
      var m := BottomMember(g, target - done, some);
      assert g[m] <= done;
      run := CompleteOne(g, steps, d, done, m);
      run := CompleteUpTo(g, run, d, done + {m}, target);
    } else {
      assert done == target;
      run := steps;
    }
  }

  /** The members below `d` that `a` is or is below. */
  ghost function Above<N>(g: Graph<N>, d: N, a: N): set<N>
    requires Closed(g) && d in g
  {
    set y | y in FullDeps(g, d) && Reaches(g, y, a)
  }

  /** What is not above `a` is down-closed, and `a` alone is ready after it. */
  lemma AboveIsUpClosed<N>(g: Graph<N>, d: N, a: N)
    requires Closed(g) && Acyclic(g) && d in g && a in FullDeps(g, d)
    ensures a in Above(g, d, a)
    ensures forall y, z | y in FullDeps(g, d) && z in g[y] && z in Above(g, d, a) :: y in Above(g, d, a)
    ensures g[a] !! Above(g, d, a)
    ensures forall y | y in Above(g, d, a) && g[y] !! Above(g, d, a) :: y == a
  {
    forall y, z | y in FullDeps(g, d) && z in g[y] && Reaches(g, z, a) ensures Reaches(g, y, a) {
      FullDepsTransitiveTo(g, y, z, a);
    }
    forall z | z in g[a] ensures !Reaches(g, z, a) {
      assert a !in FullDeps(g, a);
      if Reaches(g, z, a) {
        FullDepsTransitive(g, a, z);
      }
    }
    forall y | y in Above(g, d, a) && y != a ensures !(g[y] !! Above(g, d, a)) {
      ReachesThroughDependency(g, y, a);
      var z :| z in g[y] && Reaches(g, z, a);
      assert z in Above(g, d, a);
    }
  }

  lemma TwoCalls<N>(c0: seq<N>, c1: seq<N>, c2: seq<N>, s: State<N>, d: N)
    requires c0 + [d] <= c1 && c1 + [d] <= c2 && c2 <= s.calls
    ensures !BegunAtMostOnce(s)
  {
    assert s.calls[|c0|] == d && s.calls[|c1|] == d;
  }

  /** A direct dependency `a` of `d` lies below another one: `d` is visited when `a` is the only
      one pending below it, and again when the last one completes. */
  lemma TwiceOnChain<N>(g: Graph<N>, start: seq<Step<N>>, d: N, a: N, x: N) returns (run: seq<Step<N>>)
    requires Closed(g) && Acyclic(g) && d in g && ChainsBelow(g, d)
    requires a in g[d] && x in FullDeps(g, d) && a in g[x]
    requires ValidRun(g, start) && Exec(g, start).phase.Head? && WorkedOff(g, Exec(g, start), d, {}, {})
    ensures ValidRun(g, run) && !BegunAtMostOnce(Exec(g, run))
  {
    hide Exec, ValidRun, WorkedOff, ChainsBelow;
    var below, above := FullDeps(g, d), Above(g, d, a);
    AboveIsUpClosed(g, d, a);
    run := CompleteUpTo(g, start, d, {}, below - above);
    var c0 := Exec(g, run).calls;
    run := CompleteOne(g, run, d, below - above, a);
    var c1 := Exec(g, run).calls;
    var last := TopMember(g, above, x);
    assert last !in g[last] by { assert last !in FullDeps(g, last); }
    var parent := FullDepsParent(g, d, last);
    assert parent == d;
    run := CompleteUpTo(g, run, d, below - above + {a}, below - {last});
    c1 := Exec(g, run).calls;
    run := CompleteOne(g, run, d, below - {last}, last);
    TwoCalls(c0, c1, Exec(g, run).calls, Exec(g, run), d);
  }

  /** Two direct dependencies of `d` that nothing else below it depends on complete in one
      round, and `d` is visited from each. */
  lemma TwiceInOneRound<N>(g: Graph<N>, start: seq<Step<N>>, d: N, a: N, b: N) returns (run: seq<Step<N>>)
    requires Closed(g) && Acyclic(g) && d in g && ChainsBelow(g, d) && a in g[d] && b in g[d] && a != b
    requires forall x | x in FullDeps(g, d) :: a !in g[x] && b !in g[x]
    requires ValidRun(g, start) && Exec(g, start).phase.Head? && WorkedOff(g, Exec(g, start), d, {}, {})
    ensures ValidRun(g, run) && !BegunAtMostOnce(Exec(g, run))
  {
    assert d !in FullDeps(g, d);
    hide Exec, ValidRun, ChainsBelow, Acyclic;
    var below := FullDeps(g, d);
    run := CompleteUpTo(g, start, d, {}, below - {a, b});
    assert {a, b} <= Exec(g, run).pending;
    ExecOneMore(g, run, Poll({a, b}, {}));
    run := run + [Poll({a, b}, {})];
    ExecOneMore(g, run, Take(a));
    run := run + [Take(a)];
    var c0 := Exec(g, run).calls;
    assert below !! Exec(g, run).pending;
    run := VisitFirst(g, run, d, below);
    var c1 := Exec(g, run).calls;
    ExecOneMore(g, run, Take(b));
    run := run + [Take(b)];
    assert below !! Exec(g, run).pending;
    run := VisitFirst(g, run, d, below);
    TwoCalls(c0, c1, Exec(g, run).calls, Exec(g, run), d);
  }

  /** Of the members with two direct dependencies, one has none below it. */
  lemma {:induction false} LeastBranching<N>(g: Graph<N>, d: N, a: N, b: N) returns (d': N, a': N, b': N)
    requires Closed(g) && Acyclic(g) && d in g && a in g[d] && b in g[d] && a != b
    ensures d' in g && a' in g[d'] && b' in g[d'] && a' != b' && ChainsBelow(g, d')
    decreases |FullDeps(g, d)|
  {
    if ChainsBelow(g, d) {
      d', a', b' := d, a, b;
    } else {
      var x, a1, b1 :| x in FullDeps(g, d) && a1 in g[x] && b1 in g[x] && a1 != b1;
      RankDecreases(g, d, x);
      d', a', b' := LeastBranching(g, x, a1, b1);
    }
  }

  /** Whenever some member has two direct dependencies, `begin` can be called twice. */
  lemma BegunTwice<N>(g: Graph<N>) returns (run: seq<Step<N>>)
    requires Closed(g) && Acyclic(g) && !AtMostOneDependency(g)
    ensures ValidRun(g, run) && !BegunAtMostOnce(Exec(g, run))
  {
    var d, a, b :| d in g && a in g[d] && b in g[d] && a != b;
    d, a, b := LeastBranching(g, d, a, b);
    run := StartRoots(g, []);
    hide Exec, ValidRun, Acyclic, ChainsBelow;
    assert WorkedOff(g, Exec(g, run), d, {}, {});
    if x :| x in FullDeps(g, d) && a in g[x] {
      run := TwiceOnChain(g, run, d, a, x);
    } else if x :| x in FullDeps(g, d) && b in g[x] {
      run := TwiceOnChain(g, run, d, b, x);
    } else {
      run := TwiceInOneRound(g, run, d, a, b);
    }
  }

  /** In every run everything is begun at most once, exactly when no member has two direct
      dependencies. */
  lemma OnceIffAtMostOneDependency<N>(g: Graph<N>)
    requires Closed(g) && Acyclic(g)
    ensures (forall run: seq<Step<N>> | ValidRun(g, run) :: BegunAtMostOnce(Exec(g, run))) <==> AtMostOneDependency(g)
  {
    if AtMostOneDependency(g) {
      forall run: seq<Step<N>> | ValidRun(g, run) ensures BegunAtMostOnce(Exec(g, run)) {
        RunBeginsOnce(g, run);
      }
    } else {
      var run := BegunTwice(g);
    }
  }

  /** The same condition is exact for both promises together, as it implies the one for order. */
  lemma CorrectIffAtMostOneDependency<N>(g: Graph<N>)
    requires Closed(g) && Acyclic(g)
    ensures (forall run: seq<Step<N>> | ValidRun(g, run) ::
               OrderSafe(g, Exec(g, run)) && BegunAtMostOnce(Exec(g, run))) <==> AtMostOneDependency(g)
  {
    OnceIffAtMostOneDependency(g);
    OrderSafeIffSiblingsAgree(g);
    if AtMostOneDependency(g) {
      SingleSiblingsAgree(g);
    }
  }

  // ----- the smallest graphs outside -----

  /** Two members on which a third depends, one of which depends on the other. */
  ghost function Triangle(): Graph<nat> {
    map[0 := {}, 1 := {0}, 2 := {0, 1}]
  }

  /** The graph of the repository's own tests: the members between do agree. */
  ghost function Diamond(): Graph<nat> {
    map[0 := {}, 1 := {0}, 2 := {0}, 3 := {1, 2}]
  }

  lemma RankedIsAcyclic(g: Graph<nat>)
    requires Closed(g) && forall m, d | m in g && d in g[m] :: d < m
    ensures Acyclic(g)
  {
    forall n | n in g ensures n !in FullDeps(g, n) {
      FullDepsLeast(g, n, set m | m in g && m < n);
    }
  }

  lemma TriangleBeginsEarly() returns (run: seq<Step<nat>>)
    ensures Closed(Triangle()) && Acyclic(Triangle())
    ensures ValidRun(Triangle(), run) && !OrderSafe(Triangle(), Exec(Triangle(), run))
  {
    var g := Triangle();
    RankedIsAcyclic(g);
    FullDepsLeast(g, 0, {});
    assert 0 in FullDeps(g, 1);
    run := EarlyBegin(g, 2, 0, 1);
  }

  lemma DiamondAgrees()
    ensures Closed(Diamond()) && Acyclic(Diamond()) && SiblingsAgree(Diamond())
    ensures forall run: seq<Step<nat>> | ValidRun(Diamond(), run) :: OrderSafe(Diamond(), Exec(Diamond(), run))
  {
    var g := Diamond();
    RankedIsAcyclic(g);
    FullDepsLeast(g, 1, {0});
    FullDepsLeast(g, 2, {0});
    forall d, a, b | d in g && a in g[d] && b in g[d] ensures FullDeps(g, a) == FullDeps(g, b) {
      if a != b {
        assert a in {1, 2} && b in {1, 2};
        assert FullDeps(g, 1) == {0} == FullDeps(g, 2);
      }
    }
    forall run: seq<Step<nat>> | ValidRun(g, run) ensures OrderSafe(g, Exec(g, run)) {
      RunKeepsInv(g, run);
      InvOrderSafe(g, Exec(g, run));
    }
  }

  lemma DiamondBeginsTwice() returns (run: seq<Step<nat>>)
    ensures Closed(Diamond()) && Acyclic(Diamond()) && SiblingsAgree(Diamond())
    ensures ValidRun(Diamond(), run) && !BegunAtMostOnce(Exec(Diamond(), run))
  {
    DiamondAgrees();
    assert 1 in Diamond()[3] && 2 in Diamond()[3];
    run := BegunTwice(Diamond());
  }
}
