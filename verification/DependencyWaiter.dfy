/** DependencyGroupWaiter (sat/waiting.py:483-548) with the retry loop it inherits from
    Waiter (sat/waiting.py:155-190). Its fields are updated as in the source; the ghost
    field `run` records the steps taken, and ties every state to the step machine. */
module DependencyWaiter {
  import opened DependencyGraph
  import opened Members
  import opened Scheduler
  import opened SchedulerResults
  import opened DrivenRuns
  import opened Options
  import opened Polling
  import opened Sequences

  type Member = DependencyGroupMember

  lemma DisjointIffNoneShared<T>(a: set<T>, b: set<T>)
    ensures a !! b <==> a * b == {}
  {
    if x :| x in a && x in b {
      assert x in a * b;
    }
  }

  /** Each of these members has been begun or has failed, in just one call of `begin` each. */
  ghost predicate AllStarted(started: set<Member>, begun: set<Member>, failed: set<Member>, calls: seq<Member>) {
    begun + failed == started && begun !! failed && multiset(calls) == multiset(started)
  }

  lemma OneMoreStarted(started: set<Member>, member: Member,
                       begun: set<Member>, failed: set<Member>, calls: seq<Member>, raises: bool)
    requires AllStarted(started, begun, failed, calls) && member !in started
    ensures member !in begun
    ensures AllStarted(started + {member}, if raises then begun else begun + {member},
                       if raises then failed + {member} else failed, calls + [member])
  {
  }

  class DependencyGroupWaiter {
    const members: set<Member>
    const timeout: Option<nat>  // None stands for math.inf
    const pollInterval: nat
    const clock: Clock
    /** What polling a member answers in a given round. */
    const answer: (Member, nat) -> Answer
    /** Whether `begin` of a member raises WaitingFailure when it is the n-th call of all. */
    const beginRaises: (Member, nat) -> bool

    var pending: set<Member>
    var failed: set<Member>
    var begun: set<Member>
    var completed: bool
    var retriesRemaining: nat
    var rounds: nat         // position in the answers
    var calls: seq<Member>  // the calls of `begin` made so far

    ghost var graph: Graph<Member>
    ghost var run: seq<Step<Member>>

    constructor (members: set<Member>, timeout: Option<nat>, pollInterval: nat, retries: nat, clock: Clock,
                 answer: (Member, nat) -> Answer, beginRaises: (Member, nat) -> bool)
      requires ValidGroup(members)
      ensures this.members == members && this.timeout == timeout && this.pollInterval == pollInterval
      ensures this.clock == clock && this.answer == answer && this.beginRaises == beginRaises
      ensures retriesRemaining == retries && !completed && run == []
      ensures Valid() && graph == Deps(members)
      ensures pending == (set m | m in members && m.dependencies == {}) && failed == {} == begun && calls == []
    {
      this.members := members;
      this.timeout := timeout;
      this.pollInterval := pollInterval;
      this.clock := clock;
      this.answer := answer;
      this.beginRaises := beginRaises;
      completed := false;
      retriesRemaining := retries;
      failed := {};
      begun := {};
      pending := set m | m in members && !m.HasDependencies();
      rounds := 0;
      calls := [];
      graph := Deps(members);
      run := [];
      new;
      assert pending == Roots(graph);
      forall k: nat | Responsive(k) ensures Patient(graph, run, k) {
        PendingPolls(k);
      }
    }

    ghost predicate Valid()
      reads this`pending, this`failed, this`begun, this`calls, this`rounds, this`graph, this`run, members
      ensures Valid() ==> Closed(graph)
    {
      RunValid() && At(Current())
    }

    /** The members are as they were given, and what was recorded is a run on them. */
    ghost predicate RunValid()
      reads this`graph, this`run, members
    {
      && ValidGroup(members) && Deps(members) == graph
      && ValidRun(graph, run) && Driven(graph, run, answer, beginRaises)
      && forall k: nat | Responsive(k) :: Patient(graph, run, k)
    }

    /** The state of the step machine at the end of the run so far. */
    ghost function Current(): State<Member>
      requires Closed(graph)
      reads this`graph, this`run
    {
      Exec(graph, run)
    }

    ghost predicate At(s: State<Member>)
      reads this`pending, this`failed, this`begun, this`calls, this`rounds
    {
      && FieldsOf(s) && pending <= members && rounds == s.rounds
      && forall m | m in pending :: Unanswered(m, Polls(s, m))
    }

    ghost predicate FieldsOf(s: State<Member>)
      reads this`pending, this`failed, this`begun, this`calls
    {
      pending == s.pending && failed == s.failed && begun == s.begun && calls == s.calls
    }

    /** The last `n` polls of `m` were all answered False. */
    ghost predicate Unanswered(m: Member, n: nat)
      reads this`rounds
    {
      n <= rounds && forall i | rounds - n <= i < rounds :: answer(m, i) == NotYet
    }

    ghost predicate Responsive(k: nat) {
      AllAnswerWithin(members, answer, k)
    }

    /** Records a step, once the fields have been updated as it says. */
    ghost method Advance(step: Step<Member>)
      requires RunValid() && Enabled(graph, Current(), step) && At(Apply(graph, Current(), step))
      requires StepDriven(graph, Current(), step, answer, beginRaises)
      modifies this`run
      ensures Valid() && run == old(run) + [step]
      ensures Current() == Apply(graph, old(Current()), step)
    {
      ExecOneMore(graph, run, step);
      DrivenOneMore(graph, run, step, answer, beginRaises);
      var before := run;
      run := run + [step];
      forall k: nat | Responsive(k) ensures Patient(graph, run, k) {
        PendingPolls(k);
        PatientOneMore(graph, before, step, k);
      }
    }

    lemma PendingPolls(k: nat)
      requires Closed(graph) && At(Current()) && Responsive(k)
      ensures forall m | m in Current().pending :: Polls(Current(), m) < k
    {
      forall m | m in Current().pending ensures Polls(Current(), m) < k {
        assert Unanswered(m, Polls(Current(), m));
        assert AnswersWithin(answer, m, rounds - Polls(Current(), m), k);
      }
    }

    /** One call of `begin`, unless the member has begun; it has then failed or begun. */
    twostate predicate BeginCalled(member: Member)
      reads this`begun, this`failed, this`calls
    {
      if old(member in begun) then calls == old(calls) && failed == old(failed) && begun == old(begun)
      else
        && calls == old(calls) + [member]
        && if beginRaises(member, |old(calls)|) then failed == old(failed) + {member} && begun == old(begun)
           else failed == old(failed) && begun == old(begun) + {member}
    }

    /** `_begin_member`; `s` is the state it is called in. */
    method BeginMember(member: Member, ghost s: State<Member>) returns (ghost raises: bool)
      requires FieldsOf(s)
      modifies this`begun, this`failed, this`calls
      ensures raises <==> old(member !in begun && beginRaises(member, |calls|))
      ensures BeginCalled(member)
      ensures FieldsOf(Scheduler.BeginMember(s, member, raises))
    {
      raises := false;
      if member !in begun {
        var r := beginRaises(member, |calls|);
        raises := r;
        calls := calls + [member];
        if r {
          failed := failed + {member};
        } else {
          begun := begun + {member};
        }
      }
    }

    /** One turn of the loop in `pre_wait_action`. */
    method StartMember(member: Member)
      requires Valid() && Current().phase.Starting? && member in Current().phase.todo
      modifies this`failed, this`begun, this`calls, this`run
      ensures Valid() && old(run) <= run
      ensures Current().phase == Starting(old(Current().phase.todo) - {member})
      ensures BeginCalled(member)
    {
      hide Exec, ValidRun, Patient, Driven, AllAnswerWithin, ValidGroup;
      ghost var raises := BeginMember(member, Current());
      Advance(Start(member, raises));
    }

    /** Begins the members without dependencies. */
    method PreWaitAction()
      requires Valid() && run == []
      modifies this`pending, this`failed, this`begun, this`calls, this`run
      ensures Valid() && Current().phase.Head? && old(run) <= run
      ensures pending == old(pending) - failed && AllStarted(old(pending), begun, failed, calls)
    {
      hide Exec, ValidRun, Patient, Driven, AllAnswerWithin, ValidGroup, Valid, Current, AllStarted;
      AtStart();
      var todo := pending;
      assert pending - todo == {};
      while todo != {}
        invariant Valid() && Current().phase == Starting(todo) && old(run) <= run && pending == old(pending)
        invariant todo <= pending && AllStarted(pending - todo, begun, failed, calls)
      {
        var member :| member in todo;
        ghost var started := pending - todo;
        todo := todo - {member};
        OneMoreStarted(started, member, begun, failed, calls, beginRaises(member, |calls|));
        StartMember(member);
        assert pending - todo == started + {member};
      }
      assert pending - todo == pending;
      FinishStart();
    }

    lemma AtStart()
      requires Valid() && run == []
      ensures Current().phase == Starting(pending) && AllStarted({}, begun, failed, calls) && rounds == 0
    {
    }

    /** `self.pending -= self.failed`. */
    method FinishStart()
      requires Valid() && Current().phase == Starting({})
      modifies this`pending, this`run
      ensures Valid() && Current().phase.Head? && old(run) <= run && pending == old(pending) - failed
    {
      hide Exec, ValidRun, Patient, Driven, AllAnswerWithin, ValidGroup;
      pending := pending - failed;
      Advance(Started);
    }

    /** One round of polls: the first loop of the polling loop's body. */
    method AskMembers() returns (complete: set<Member>)
      modifies this`failed
      ensures complete == Answering(pending, answer, rounds, Complete)
      ensures failed == old(failed) + Answering(pending, answer, rounds, Raises)
    {
      complete := {};
      var rest := pending;
      while rest != {}
        invariant rest <= pending
        invariant complete == Answering(pending - rest, answer, rounds, Complete)
        invariant failed == old(failed) + Answering(pending - rest, answer, rounds, Raises)
      {
        var member :| member in rest;
        rest := rest - {member};
        match answer(member, rounds)
        case NotYet =>
        case Complete => complete := complete + {member};
        case Raises => failed := failed + {member};
      }
      assert pending - rest == pending;
    }

    method PollMembers() returns (complete: set<Member>)
      requires Valid() && Current().phase.Head? && pending != {}
      modifies this`pending, this`failed, this`rounds, this`run
      ensures Valid() && old(run) <= run
      ensures complete == old(Answering(pending, answer, rounds, Complete))
      ensures failed == old(failed) + old(Answering(pending, answer, rounds, Raises))
      ensures pending == old(pending) - complete - failed && rounds == old(rounds) + 1
      ensures Current() == Polled(old(Current()), complete, old(Answering(pending, answer, rounds, Raises)))
    {
      hide Exec, ValidRun, Patient, Driven, AllAnswerWithin, ValidGroup;
      ghost var raised := Answering(pending, answer, rounds, Raises);
      complete := AskMembers();
      pending := pending - (complete + failed);
      rounds := rounds + 1;
      Advance(Poll(complete, raised));
    }

    /** A dependent none of whose transitive dependencies is pending or has failed becomes
        pending and is begun; with any other nothing happens. */
    twostate predicate Released(dependent: Member, full: set<Member>)
      reads this`pending, this`begun, this`failed, this`calls
    {
      if full !! old(pending + failed) then pending == old(pending) + {dependent} && BeginCalled(dependent)
      else pending == old(pending) && calls == old(calls) && failed == old(failed) && begun == old(begun)
    }

    /** The release test and what follows it, with `s` the state it is made in. */
    method ReleaseDependent(dependent: Member, full: set<Member>, ghost s: State<Member>)
      returns (ghost raises: bool)
      requires Closed(graph) && dependent in graph && full == FullDeps<Member>(graph, dependent)
      requires FieldsOf(s)
      modifies this`pending, this`failed, this`begun, this`calls
      ensures StepDriven(graph, s, Visit(dependent, raises), answer, beginRaises)
      ensures Released(dependent, full)
      ensures FieldsOf(Visited<Member>(graph, s, dependent, raises))
    {
      raises := false;
      DisjointIffNoneShared(full, pending + failed);
      if full * (pending + failed) == {} {
        ghost var t := s.(pending := s.pending + {dependent},
                          waited := if dependent in s.pending then s.waited else s.waited[dependent := 0]);
        pending := pending + {dependent};
        raises := BeginMember(dependent, t);
      }
    }

    method VisitDependent(dependent: Member)
      requires Valid() && Current().phase.Releasing? && dependent in Current().phase.inner
      requires dependent in members
      modifies this`pending, this`failed, this`begun, this`calls, this`run
      ensures Valid() && old(run) <= run
      ensures Current().phase.Releasing? && Current().rounds == old(Current().rounds)
      ensures Current().phase.outer == old(Current().phase.outer)
      ensures Current().phase.inner == old(Current().phase.inner) - {dependent}
    {
      hide Exec, ValidRun, Patient, Driven, AllAnswerWithin;
      var full := dependent.FullDependencies(members);
      ghost var s := Current();
      ghost var raises := ReleaseDependent(dependent, full, s);
      Advance(Visit(dependent, raises));
    }

    /** The two nested loops: each dependent of each completed member is begun unless one
        of its transitive dependencies is pending or has failed. */
    method ReleaseDependents(complete: set<Member>)
      requires Valid() && Current().phase.Releasing?
      requires Current().phase.outer == complete && Current().phase.inner == {} && complete <= members
      modifies this`pending, this`failed, this`begun, this`calls, this`run
      ensures Valid() && old(run) <= run
      ensures Current().phase.Head? && Current().rounds == old(Current().rounds)
    {
      var outer := complete;
      while outer != {}
        invariant Valid() && outer <= complete && Current().phase.Releasing? && old(run) <= run
        invariant Current().phase.outer == outer && Current().phase.inner == {}
        invariant Current().rounds == old(Current().rounds)
      {
        var member :| member in outer;
        outer := outer - {member};
        Advance(Take(member));
        var inner := member.dependents;
        while inner != {}
          invariant Valid() && inner <= members && Current().phase.Releasing? && old(run) <= run
          invariant Current().phase.outer == outer && Current().phase.inner == inner
          invariant Current().rounds == old(Current().rounds)
        {
          var dependent :| dependent in inner;
          inner := inner - {dependent};
          VisitDependent(dependent);
        }
      }
      Advance(Sleep);
    }

    lemma RoundBound(k: nat) returns (bound: nat)
      requires Valid()
      ensures bound == k * LongestChain<Member>(graph)
    {
      hide LongestChain, ValidRun, Driven, At, Patient;
      bound := k * LongestChain<Member>(graph);
    }

    lemma RoundsLeft(k: nat)
      requires Valid() && Current().phase.Head? && pending != {} && Responsive(k)
      ensures rounds < k * LongestChain(graph)
    {
      RoundsBelow<Member>(graph, run, k);
    }

    /** The polls and releases in the body of the polling loop. */
    method Round()
      requires Valid() && Current().phase.Head? && pending != {}
      modifies this`pending, this`failed, this`begun, this`calls, this`rounds, this`run
      ensures Valid() && Current().phase.Head? && rounds == old(rounds) + 1 && old(run) <= run
    {
      var complete := PollMembers();
      ReleaseDependents(complete);
    }

    /** The body of the polling loop, and its guard if that gets as far as to ask for the time. */
    method RoundAndSleep(start: int) returns (inTime: bool)
      requires Valid() && Current().phase.Head? && pending != {}
      modifies this`pending, this`failed, this`begun, this`calls, this`rounds, this`run, clock
      ensures Valid() && Current().phase.Head? && rounds == old(rounds) + 1 && old(run) <= run
      ensures clock.now >= old(clock.now) + pollInterval
      ensures clock.events == old(clock.events) + [Slept(pollInterval)]
                              + if pending == {} then [] else [Read(clock.now)]
      ensures inTime <==> pending == {} || timeout.None? || clock.now - start < timeout.value
    {
      hide *;
      Round();
      clock.Sleep(pollInterval);
      inTime := true;
      if pending != {} {
        inTime := clock.InTime(start, timeout);
      }
    }

    /** One attempt, `attempt` being what it asks of the clock. It ends because members answer
        within `k` polls, or because there is a timeout and sleeping takes time. */
    method WaitPollingLoop(ghost k: nat) returns (ghost attempt: seq<Event>)
      requires Valid() && Current().phase.Head?
      requires Responsive(k) || (timeout.Some? && pollInterval > 0)
      modifies this`pending, this`failed, this`begun, this`calls, this`rounds, this`run, this`completed, clock
      ensures Valid() && Current().phase.Head? && old(run) <= run
      ensures completed <==> pending == {}
      ensures timeout.None? ==> completed
      ensures clock.events == old(clock.events) + attempt
      ensures AttemptLog(attempt, timeout, pollInterval, completed)
      ensures |attempt| == 2 * (rounds - old(rounds)) + if completed then 1 else 2
    {
      hide *;
      ghost var responsive := Responsive(k);
      ghost var bound := RoundBound(k);
      var start := clock.Monotonic();
      attempt := [Read(start)];
      StartLogged(start, timeout, pollInterval);
      var inTime := true;
      if pending != {} {
        inTime := clock.InTime(start, timeout);
      }
      while pending != {} && inTime
        invariant Valid() && Current().phase.Head? && old(run) <= run
        invariant (timeout.None? ==> inTime) && graph == old(graph)
        invariant pending != {} ==> (inTime <==> timeout.None? || clock.now - start < timeout.value)
        invariant Rounds(attempt, timeout, pollInterval)
        invariant |attempt| == 1 + 2 * (rounds - old(rounds)) && attempt[0] == Read(start)
        invariant clock.events == old(clock.events) + attempt + if pending == {} then [] else [Read(clock.now)]
        decreases if responsive then bound - rounds else timeout.value - (clock.now - start)
      {
        if responsive {
          RoundsLeft(k);
        }
        OneMoreRoundLogged(attempt, timeout, pollInterval, clock.now);
        attempt := attempt + [Read(clock.now), Slept(pollInterval)];
        inTime := RoundAndSleep(start);
      }
      completed := pending == {};
      if completed {
        CompletedLogged(attempt, timeout, pollInterval);
      } else {
        LateReadingLogged(attempt, timeout, pollInterval, clock.now);
        attempt := attempt + [Read(clock.now)];
      }
    }

    /** `wait_for_completion`: attempts until one completes or no retry is left. `attempts` is
        what each of them asks of the clock, two calls to a round. */
    method WaitForCompletion(ghost k: nat) returns (r: set<Member>, ghost attempts: seq<seq<Event>>)
      requires Valid() && run == [] && !completed
      requires Responsive(k) || (timeout.Some? && pollInterval > 0)
      modifies this, clock
      ensures Valid() && graph == old(graph) && Current().phase.Head?
      ensures r == pending && (completed <==> pending == {})
      ensures timeout.None? ==> completed
      ensures !completed ==> retriesRemaining == 0
      ensures clock.events == old(clock.events) + Concat(attempts)
      ensures |attempts| == old(retriesRemaining) - retriesRemaining + 1 && attempts != []
      ensures forall i | 0 <= i < |attempts| ::
                AttemptLog(attempts[i], timeout, pollInterval, completed && i == |attempts| - 1)
      ensures |Concat(attempts)| == 2 * rounds + 2 * |attempts| - if completed then 1 else 0
      ensures Explained(Current(), answer, beginRaises) && calls == Current().calls
      ensures SiblingsAgree<Member>(graph) ==> OrderSafe<Member>(graph, Current())
      ensures SiblingsAgree<Member>(graph) && completed ==>
                forall m | m in members :: Settled<Member>(graph, Current(), m)
      ensures AtMostOneDependency<Member>(graph) ==> BegunAtMostOnce(Current())
      ensures Responsive(k) ==> rounds <= k * LongestChain<Member>(graph)
    {
      hide *;
      AtStart();
      PreWaitAction();
      attempts := [];
      ConcatNone(attempts);
      assert Concat(attempts) == [];
      while !completed
        invariant Valid() && graph == old(graph) && Current().phase.Head?
        invariant completed ==> pending == {}
        invariant retriesRemaining <= old(retriesRemaining)
        invariant |attempts| + retriesRemaining == old(retriesRemaining) + if completed then 1 else 0
        invariant clock.events == old(clock.events) + Concat(attempts)
        invariant forall i | 0 <= i < |attempts| ::
                    AttemptLog(attempts[i], timeout, pollInterval, completed && i == |attempts| - 1)
        invariant |Concat(attempts)| == 2 * rounds + 2 * |attempts| - if completed then 1 else 0
        decreases !completed, retriesRemaining
      {
        ghost var attempt := WaitPollingLoop(k);
        ConcatAppend(attempts, attempt);
        attempts := attempts + [attempt];
        if !completed {
          if retriesRemaining > 0 {
            retriesRemaining := retriesRemaining - 1;
          } else {
            break;
          }
        }
      }
      r := pending;
      Guarantees(k);
    }

    /** What is kept of the run that has been recorded. */
    lemma Recorded(k: nat)
      requires Valid() && Responsive(k)
      ensures ValidGroup(members) && Deps(members) == graph
      ensures Closed(graph) && Acyclic<Member>(graph)
      ensures ValidRun(graph, run) && Driven(graph, run, answer, beginRaises) && Patient(graph, run, k)
      ensures pending == Current().pending && failed == Current().failed
    {
      hide ValidRun, Driven, Patient;
    }

    /** What the theorems about runs say of this one. */
    lemma Guarantees(k: nat)
      requires Valid() && Current().phase.Head?
      ensures Explained(Current(), answer, beginRaises) && calls == Current().calls
      ensures SiblingsAgree<Member>(graph) ==> OrderSafe<Member>(graph, Current())
      ensures SiblingsAgree<Member>(graph) && pending == {} ==>
                forall m | m in members :: Settled<Member>(graph, Current(), m)
      ensures AtMostOneDependency<Member>(graph) ==> BegunAtMostOnce(Current())
      ensures Responsive(k) ==> rounds <= k * LongestChain<Member>(graph)
    {
      hide Settled, OrderSafe, BegunAtMostOnce, LongestChain, Inv, OnceInv, Explained;
      hide SiblingsAgree, AtMostOneDependency;
      RunExplained<Member>(graph, run, answer, beginRaises);
      if SiblingsAgree<Member>(graph) {
        RunKeepsInv<Member>(graph, run);
        InvOrderSafe<Member>(graph, Current());
        if pending == {} {
          RunSettles<Member>(graph, run);
        }
      }
      if AtMostOneDependency<Member>(graph) {
        RunBeginsOnce<Member>(graph, run);
      }
      if Responsive(k) {
        RoundsBounded<Member>(graph, run, k);
      }
    }
  }
}
