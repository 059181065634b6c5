/** GroupWaiter (sat/waiting.py:281-364) with the retry loop it inherits (sat/waiting.py:155-190). */
module GroupWaiters {
  import opened Options
  import opened Polling
  import opened Sequences

  /** The rounds that fit into one attempt: `timeout / pollInterval`, rounded up. */
  function RoundsPerAttempt(timeout: nat, pollInterval: nat): nat
    requires pollInterval > 0
  {
    (timeout + pollInterval - 1) / pollInterval
  }

  lemma OneMoreAttempt(n: nat, limit: nat, rounds: nat)
    requires n < limit
    ensures n * rounds + rounds == (n + 1) * rounds <= limit * rounds
  {
  }

  lemma OneMoreRound(n: nat, timeout: nat, pollInterval: nat)
    requires pollInterval > 0 && n * pollInterval < timeout
    ensures n + 1 <= RoundsPerAttempt(timeout, pollInterval)
  {
    assert (n + 1) * pollInterval <= timeout + pollInterval - 1;
    DivBound(n + 1, timeout + pollInterval - 1, pollInterval);
  }

  lemma DivBound(q: nat, x: nat, d: nat)
    requires d > 0 && q * d <= x
    ensures q <= x / d
  {
    assert x < (x / d + 1) * d;
    MulCancel(q, x / d + 1, d);
  }

  lemma MulCancel(p: nat, q: nat, d: nat)
    requires p * d < q * d
    ensures p < q
  {
  }

  class GroupWaiter<T(==)> {
    const members: set<T>
    const timeout: Option<nat>  // None stands for math.inf
    const pollInterval: nat
    const clock: Clock
    /** What polling a member answers in a given round. */
    const answer: (T, nat) -> Answer

    var pending: set<T>
    var failed: set<T>
    var completed: bool
    var retriesRemaining: nat
    var rounds: nat  // position in the answers

    constructor (members: set<T>, timeout: Option<nat>, pollInterval: nat, retries: nat, clock: Clock,
                 answer: (T, nat) -> Answer)
      ensures this.members == members && this.timeout == timeout && this.pollInterval == pollInterval
      ensures this.clock == clock && this.answer == answer && retriesRemaining == retries
      ensures pending == members && failed == {} && !completed && rounds == 0
    {
      this.members := members;
      this.timeout := timeout;
      this.pollInterval := pollInterval;
      this.clock := clock;
      this.answer := answer;
      pending := members;
      failed := {};
      completed := false;
      retriesRemaining := retries;
      rounds := 0;
    }

    /** The polls of `m` in rounds `from` up to `to` were all answered False. */
    ghost predicate NeverAnswered(m: T, from: nat, to: nat) {
      forall i | from <= i < to :: answer(m, i) == NotYet
    }

    /** The loop head of an attempt that began at round `from`, when `before` had failed:
        what is pending, and why the others are not. */
    ghost predicate Sorted(from: nat, before: set<T>)
      reads this`pending, this`failed, this`rounds
    {
      && from <= rounds && before <= failed && pending <= members
      && (from == rounds ==> pending == members && failed == before)
      && (from < rounds ==> pending !! failed)
      && (forall m | m in pending - before :: NeverAnswered(m, from, rounds))
      && (forall m | m in failed - before :: m in members && Answered(answer, m, from, rounds, Raises))
      && (forall m | m in members - pending - failed :: Answered(answer, m, from, rounds, Complete))
    }

    /** One round; `polled` is the members it asks. */
    method PollMembers(ghost from: nat, ghost before: set<T>) returns (ghost polled: set<T>)
      requires Sorted(from, before)
      modifies this`pending, this`failed, this`rounds
      ensures Sorted(from, before) && rounds == old(rounds) + 1
      ensures polled == old(pending - failed)
    {
      polled := {};
      ghost var failedBefore := failed;
      var complete: set<T> := {};
      var rest := pending - failed;
      ghost var asked := rest;
      while rest != {}
        invariant rest <= asked && polled == asked - rest && pending == old(pending) && rounds == old(rounds)
        invariant complete == set m | m in asked - rest && answer(m, rounds) == Complete
        invariant failed == failedBefore + set m | m in asked - rest && answer(m, rounds) == Raises
      {
        var member :| member in rest;
        rest := rest - {member};
        polled := polled + {member};
        match answer(member, rounds)
        case NotYet =>
        case Complete => complete := complete + {member};
        case Raises => failed := failed + {member};
      }
      pending := pending - (complete + failed);
      ghost var round := rounds;
      rounds := rounds + 1;
      forall m, a | m in members && (Answered(answer, m, from, round, a) || answer(m, round) == a)
        ensures Answered(answer, m, from, rounds, a)
      {
        if answer(m, round) != a {
          AnsweredLater(answer, m, from, round, from, rounds, a);
        }
      }
      forall m | m in members - pending - failed ensures Answered(answer, m, from, rounds, Complete) {
        assert m in complete || m !in old(pending);
      }
      forall m | m in pending - before ensures NeverAnswered(m, from, rounds) {
        assert m in asked && NeverAnswered(m, from, round);
      }
    }

    /** Why an attempt is over after so many rounds: members answer within as many polls, or
        sleeping uses up the time. */
    ghost predicate Bounds(perAttempt: nat) {
      || AllAnswerWithin(members, answer, perAttempt)
      || (timeout.Some? && pollInterval > 0 && perAttempt == RoundsPerAttempt(timeout.value, pollInterval))
    }

    /** While a member is pending and there is time, one more round is within the bound. */
    lemma OneMoreWithin(from: nat, before: set<T>, elapsed: int, perAttempt: nat)
      requires Bounds(perAttempt) && Sorted(from, before) && pending != {}
      requires (rounds - from) * pollInterval <= elapsed && (timeout.Some? ==> elapsed < timeout.value)
      ensures rounds - from < perAttempt
    {
      if AllAnswerWithin(members, answer, perAttempt) {
        var m :| m in pending;
        assert AnswersWithin(answer, m, from, perAttempt);
        assert from < rounds ==> NeverAnswered(m, from, rounds);
      } else {
        OneMoreRound(rounds - from, timeout.value, pollInterval);
      }
    }

    /** One attempt, `attempt` being what it asks of the clock. */
    method WaitPollingLoop(ghost perAttempt: nat) returns (ghost attempt: seq<Event>)
      requires Bounds(perAttempt)
      modifies this`pending, this`failed, this`rounds, this`completed, clock
      ensures Sorted(old(rounds), old(failed))
      ensures completed <==> pending == {}
      ensures timeout.None? ==> completed
      ensures rounds <= old(rounds) + perAttempt
      ensures clock.events == old(clock.events) + attempt
      ensures AttemptLog(attempt, timeout, pollInterval, completed)
      ensures |attempt| == 2 * (rounds - old(rounds)) + if completed then 1 else 2
    {
      ghost var from := rounds;
      ghost var before := failed;
      var start := clock.Monotonic();
      hide Rounds, AttemptLog, Answered, AllAnswerWithin, RoundsPerAttempt;
      attempt := [Read(start)];
      StartLogged(start, timeout, pollInterval);
      pending := members;
      assert Sorted(from, before);
      hide Sorted, Bounds;
      var inTime := true;
      if pending != {} {
        inTime := clock.InTime(start, timeout);
      }
      while pending != {} && inTime
        invariant Sorted(from, before) && (rounds - from) * pollInterval <= clock.now - start
        invariant rounds - from <= perAttempt
        invariant Rounds(attempt, timeout, pollInterval) && attempt[0] == Read(start)
        invariant |attempt| == 1 + 2 * (rounds - from)
        invariant clock.events == old(clock.events) + attempt + if pending == {} then [] else [Read(clock.now)]
        invariant pending != {} ==> (inTime <==> timeout.None? || clock.now - start < timeout.value)
        decreases from + perAttempt - rounds
      {
        OneMoreWithin(from, before, clock.now - start, perAttempt);
        OneMoreRoundLogged(attempt, timeout, pollInterval, clock.now);
        attempt := attempt + [Read(clock.now), Slept(pollInterval)];
        ghost var polled := PollMembers(from, before);
        clock.Sleep(pollInterval);
        if pending != {} {
          inTime := clock.InTime(start, timeout);
        }
      }
      completed := pending == {};
      if completed {
        CompletedLogged(attempt, timeout, pollInterval);
      } else {
        LateReadingLogged(attempt, timeout, pollInterval, clock.now);
        attempt := attempt + [Read(clock.now)];
      }
    }

    /** Returns the members that were still pending at the end of the last attempt; `from` and
        `before` are of that attempt, and `attempts` is what each asked of the clock. */
    method WaitForCompletion(ghost perAttempt: nat)
      returns (r: set<T>, ghost from: nat, ghost before: set<T>, ghost attempts: seq<seq<Event>>)
      requires Bounds(perAttempt) && failed == {} && !completed && rounds == 0
      modifies this, clock
      ensures r == pending && (completed <==> pending == {})
      ensures rounds <= (old(retriesRemaining) + 1) * perAttempt
      ensures timeout.None? ==> completed
      ensures Sorted(from, before)
      ensures forall m | m in failed :: m in members && Answered(answer, m, 0, rounds, Raises)
      ensures !completed ==> retriesRemaining == 0
      ensures clock.events == old(clock.events) + Concat(attempts)
      ensures |attempts| == old(retriesRemaining) - retriesRemaining + 1 && attempts != []
      ensures forall i | 0 <= i < |attempts| ::
                AttemptLog(attempts[i], timeout, pollInterval, completed && i == |attempts| - 1)
      ensures |attempts[|attempts| - 1]| == 2 * (rounds - from) + if completed then 1 else 2
    {
      from, before, attempts := 0, {}, [];
      pending := members;
      while !completed
        invariant Sorted(from, before)
        invariant completed ==> pending == {}
        invariant |attempts| + retriesRemaining == old(retriesRemaining) + if completed then 1 else 0
        invariant rounds <= |attempts| * perAttempt <= (old(retriesRemaining) + 1) * perAttempt
        invariant clock.events == old(clock.events) + Concat(attempts)
        invariant forall i | 0 <= i < |attempts| ::
                    AttemptLog(attempts[i], timeout, pollInterval, completed && i == |attempts| - 1)
        invariant retriesRemaining <= old(retriesRemaining)
        invariant attempts != [] ==>
                    |attempts[|attempts| - 1]| == 2 * (rounds - from) + if completed then 1 else 2
        invariant forall m | m in failed :: m in members && Answered(answer, m, 0, rounds, Raises)
        decreases !completed, retriesRemaining
      {
        from, before := rounds, failed;
        ghost var attempt := WaitPollingLoop(perAttempt);
        OneMoreAttempt(|attempts|, old(retriesRemaining) + 1, perAttempt);
        ConcatAppend(attempts, attempt);
        attempts := attempts + [attempt];
        forall m | m in failed ensures m in members && Answered(answer, m, 0, rounds, Raises) {
          if m in before {
            AnsweredLater(answer, m, 0, from, 0, rounds, Raises);
          } else {
            AnsweredLater(answer, m, from, rounds, 0, rounds, Raises);
          }
        }
        if !completed {
          if retriesRemaining > 0 {
            retriesRemaining := retriesRemaining - 1;
          } else {
            break;
          }
        }
      }
      r := pending;
    }
  }
}
