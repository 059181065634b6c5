/** Runs of the scheduler in which polls and `begin` calls end as they do in the world: by
    `answer`, what polling a member answers in a given round, and `beginRaises`, whether
    `begin` of a member raises when it is the n-th call of all. */
module DrivenRuns {
  import opened DependencyGraph
  import opened Scheduler
  import opened Polling

  ghost predicate StepDriven<N>(g: Graph<N>, s: State<N>, step: Step<N>,
                                answer: (N, nat) -> Answer, beginRaises: (N, nat) -> bool)
    requires Closed(g)
  {
    match step
    case Start(m, raises) => raises <==> m !in s.begun && beginRaises(m, |s.calls|)
    case Visit(d, raises) => raises <==> Unblocked(g, s, d) && d !in s.begun && beginRaises(d, |s.calls|)
    case Poll(complete, raised) =>
      && complete == Answering(s.pending, answer, s.rounds, Complete)
      && raised == Answering(s.pending, answer, s.rounds, Raises)
    case _ => true
  }

  ghost predicate Driven<N>(g: Graph<N>, steps: seq<Step<N>>,
                            answer: (N, nat) -> Answer, beginRaises: (N, nat) -> bool)
    requires Closed(g)
  {
    steps != [] ==>
      && Driven(g, steps[..|steps| - 1], answer, beginRaises)
      && StepDriven(g, Exec(g, steps[..|steps| - 1]), steps[|steps| - 1], answer, beginRaises)
  }

  lemma DrivenOneMore<N>(g: Graph<N>, steps: seq<Step<N>>, step: Step<N>,
                         answer: (N, nat) -> Answer, beginRaises: (N, nat) -> bool)
    requires Closed(g) && Driven(g, steps, answer, beginRaises)
    requires StepDriven(g, Exec(g, steps), step, answer, beginRaises)
    ensures Driven(g, steps + [step], answer, beginRaises)
  {
    assert (steps + [step])[..|steps|] == steps;
  }

  /** Some call of `begin` of `m` has raised. */
  ghost predicate BeginRaised<N>(calls: seq<N>, beginRaises: (N, nat) -> bool, m: N) {
    exists i | 0 <= i < |calls| :: calls[i] == m && beginRaises(m, i)
  }

  /** What has succeeded was polled complete; what has failed was polled with WaitingFailure or
      raised it when begun; and each call of `begin` had its effect. */
  ghost predicate Explained<N>(s: State<N>, answer: (N, nat) -> Answer, beginRaises: (N, nat) -> bool) {
    && (forall m | m in s.succeeded :: Answered(answer, m, 0, s.rounds, Complete))
    && (forall m | m in s.failed ::
          Answered(answer, m, 0, s.rounds, Raises) || BeginRaised(s.calls, beginRaises, m))
    && (forall i | 0 <= i < |s.calls| ::
          if beginRaises(s.calls[i], i) then s.calls[i] in s.failed else s.calls[i] in s.begun)
  }

  lemma BeginExplained<N>(s: State<N>, m: N, raises: bool, answer: (N, nat) -> Answer, beginRaises: (N, nat) -> bool)
    requires Explained(s, answer, beginRaises)
    requires raises <==> m !in s.begun && beginRaises(m, |s.calls|)
    ensures Explained(BeginMember(s, m, raises), answer, beginRaises)
  {
    var t := BeginMember(s, m, raises);
    forall f | f in s.failed && BeginRaised(s.calls, beginRaises, f) ensures BeginRaised(t.calls, beginRaises, f) {
      var i :| 0 <= i < |s.calls| && s.calls[i] == f && beginRaises(f, i);
      assert t.calls[i] == f;
    }
    if raises {
      assert t.calls[|s.calls|] == m;
    }
  }

  lemma PollExplained<N>(s: State<N>, answer: (N, nat) -> Answer, beginRaises: (N, nat) -> bool)
    requires Explained(s, answer, beginRaises)
    ensures var complete := Answering(s.pending, answer, s.rounds, Complete);
            var raised := Answering(s.pending, answer, s.rounds, Raises);
            Explained(Polled(s, complete, raised), answer, beginRaises)
  {
    forall m, a | answer(m, s.rounds) == a || Answered(answer, m, 0, s.rounds, a)
      ensures Answered(answer, m, 0, s.rounds + 1, a)
    {
      if answer(m, s.rounds) != a {
        AnsweredLater(answer, m, 0, s.rounds, 0, s.rounds + 1, a);
      }
    }
  }

  lemma StepExplained<N>(g: Graph<N>, s: State<N>, step: Step<N>,
                         answer: (N, nat) -> Answer, beginRaises: (N, nat) -> bool)
    requires Closed(g) && Enabled(g, s, step) && StepDriven(g, s, step, answer, beginRaises)
    requires Explained(s, answer, beginRaises)
    ensures Explained(Apply(g, s, step), answer, beginRaises)
  {
    hide Answered, BeginRaised;
    match step
    case Start(m, raises) => BeginExplained(s, m, raises, answer, beginRaises);
    case Visit(d, raises) =>
      if Unblocked(g, s, d) {
        var t := s.(pending := s.pending + {d},
                    waited := if d in s.pending then s.waited else s.waited[d := 0]);
        BeginExplained(t, d, raises, answer, beginRaises);
      }
    case Poll(_, _) => PollExplained(s, answer, beginRaises);
    case _ =>
  }

  lemma {:induction false} RunExplained<N>(g: Graph<N>, steps: seq<Step<N>>,
                                           answer: (N, nat) -> Answer, beginRaises: (N, nat) -> bool)
    requires Closed(g) && ValidRun(g, steps) && Driven(g, steps, answer, beginRaises)
    ensures Explained(Exec(g, steps), answer, beginRaises)
  {
    if steps == [] {
    } else {
      hide Explained, Apply, Enabled, StepDriven;
      var before := steps[..|steps| - 1];
      RunExplained(g, before, answer, beginRaises);
      StepExplained(g, Exec(g, before), steps[|steps| - 1], answer, beginRaises);
    }
  }
}
