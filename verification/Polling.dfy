/** What polling loops meet: answers to polls, timeouts and a clock. */
module Polling {
  import opened Options

  /** `member_has_completed` returns False or True or raises WaitingFailure. */
  datatype Answer = NotYet | Complete | Raises

  /** A poll of `m` in a round `from` or later, but before `to`, is answered `a`. */
  ghost predicate Answered<T>(answer: (T, nat) -> Answer, m: T, from: nat, to: nat, a: Answer) {
    exists i | from <= i < to :: answer(m, i) == a
  }

  lemma AnsweredLater<T>(answer: (T, nat) -> Answer, m: T, from: nat, to: nat, from': nat, to': nat, a: Answer)
    requires from' <= from && to <= to' && Answered(answer, m, from, to, a)
    ensures Answered(answer, m, from', to', a)
  {
  }

  /** The members whose poll in this round is answered `a`. */
  ghost function Answering<T>(members: set<T>, answer: (T, nat) -> Answer, round: nat, a: Answer): set<T> {
    set m | m in members && answer(m, round) == a
  }

  ghost predicate AnswersWithin<T>(answer: (T, nat) -> Answer, m: T, r: nat, k: nat) {
    exists i | r <= i < r + k :: answer(m, i) != NotYet
  }

  /** Among any `k` polls in a row of a member, one completes or raises. */
  ghost predicate AllAnswerWithin<T>(members: set<T>, answer: (T, nat) -> Answer, k: nat) {
    forall m, r: nat | m in members :: AnswersWithin(answer, m, r, k)
  }

  /** What is asked of the clock. */
  datatype Event = Read(time: int) | Slept(interval: nat)

  /** `time.monotonic()` never runs backwards, and `time.sleep()` moves it on by at least
      the time asked for. `events` records the calls. */
  class Clock {
    var now: int
    ghost var events: seq<Event>

    method Monotonic() returns (t: int)
      modifies this
      ensures t == now >= old(now) && events == old(events) + [Read(t)]
    {
      t :| t >= now;
      now := t;
      events := events + [Read(t)];
    }

    /** `time.monotonic() - start_time < self.timeout`. */
    method InTime(start: int, timeout: Option<nat>) returns (b: bool)
      modifies this
      ensures now >= old(now) && events == old(events) + [Read(now)]
      ensures b <==> timeout.None? || now - start < timeout.value
    {
      var t := Monotonic();
      b := timeout.None? || t - start < timeout.value;
    }

    method Sleep(interval: nat)
      modifies this
      ensures now >= old(now) + interval && events == old(events) + [Slept(interval)]
    {
      var t :| t >= now + interval;
      now := t;
      events := events + [Slept(interval)];
    }
  }

  /** The readings of an attempt after the first one, at the start, are each made before a round,
      which ends in a sleep. There was time left at all of them. */
  ghost predicate Rounds(log: seq<Event>, timeout: Option<nat>, pollInterval: nat) {
    && |log| % 2 == 1 && log[0].Read?
    && forall i | 1 <= i < |log| ::
         if i % 2 == 0 then log[i] == Slept(pollInterval)
         else log[i].Read? && (timeout.None? || log[i].time - log[0].time < timeout.value)
  }

  /** One attempt: as many rounds as it takes to complete; or else as many as there is time for,
      and a last reading at which there is none left. */
  ghost predicate AttemptLog(log: seq<Event>, timeout: Option<nat>, pollInterval: nat, completed: bool) {
    if completed then Rounds(log, timeout, pollInterval)
    else
      && |log| >= 2 && Rounds(log[..|log| - 1], timeout, pollInterval)
      && log[|log| - 1].Read?
      && timeout.Some? && log[|log| - 1].time - log[0].time >= timeout.value
  }

  lemma StartLogged(start: int, timeout: Option<nat>, pollInterval: nat)
    ensures Rounds([Read(start)], timeout, pollInterval)
  {
  }

  lemma CompletedLogged(log: seq<Event>, timeout: Option<nat>, pollInterval: nat)
    requires Rounds(log, timeout, pollInterval)
    ensures AttemptLog(log, timeout, pollInterval, true)
  {
  }

  lemma OneMoreRoundLogged(log: seq<Event>, timeout: Option<nat>, pollInterval: nat, t: int)
    requires Rounds(log, timeout, pollInterval) && (timeout.None? || t - log[0].time < timeout.value)
    ensures Rounds(log + [Read(t), Slept(pollInterval)], timeout, pollInterval)
  {
  }

  lemma LateReadingLogged(log: seq<Event>, timeout: Option<nat>, pollInterval: nat, t: int)
    requires Rounds(log, timeout, pollInterval) && timeout.Some? && t - log[0].time >= timeout.value
    ensures AttemptLog(log + [Read(t)], timeout, pollInterval, false)
  {
    assert (log + [Read(t)])[..|log|] == log;
  }
}
