/** SimultaneousWaiter (sat/waiting.py:238-278): a parent that starts one thread per
    subwaiter, reads their `completed` flags one at a time and joins the threads. The
    threads' steps may come anywhere between the parent's. */
module SimultaneousWaiters {

  /** A thread runs Waiter.wait_for_completion (sat/waiting.py:155-190): `Waiting` up to
      where it leaves the outer loop, `Leaving` from there on. */
  datatype Thread = NotStarted | Waiting | Leaving | Ended

  datatype Subwaiter = Subwaiter(thread: Thread, completed: bool)

  datatype Parent =
    | Starting(next: nat)      // pre_wait_action
    | Head                     // polling loop head
    | Scanning(next: nat)      // all(...) in has_completed
    | Joining(next: nat)       // post_wait_action
    | Returned(result: bool)

  datatype State = State(subs: seq<Subwaiter>, parent: Parent, completed: bool)

  datatype Step =
    | Poll(i: nat, answer: bool)  // `self.completed = self.has_completed()` in a thread
    | GiveUp(i: nat)              // timed out with no retry left, or WaitingFailure
    | End(i: nat)                 // the thread returns
    | Die(i: nat)                 // any other exception ends the thread
    | StartNext
    | Started
    | Scan                        // there is time left
    | Expire                      // there is none
    | ReadFlag
    | JoinNext
    | Finish

  predicate Enabled(s: State, step: Step) {
    match step
    case Poll(i, _) => i < |s.subs| && s.subs[i].thread.Waiting?
    case GiveUp(i) => i < |s.subs| && s.subs[i].thread.Waiting?
    case End(i) => i < |s.subs| && s.subs[i].thread.Leaving?
    case Die(i) => i < |s.subs| && (s.subs[i].thread.Waiting? || s.subs[i].thread.Leaving?)
    case StartNext => s.parent.Starting? && s.parent.next < |s.subs|
    case Started => s.parent.Starting? && s.parent.next >= |s.subs|
    case Scan => s.parent.Head?
    case Expire => s.parent.Head?
    case ReadFlag => s.parent.Scanning?
    case JoinNext => s.parent.Joining? && s.parent.next < |s.subs| && s.subs[s.parent.next].thread.Ended?
    case Finish => s.parent.Joining? && s.parent.next >= |s.subs|
  }

  function WithThread(s: State, i: nat, thread: Thread): State
    requires i < |s.subs|
  {
    s.(subs := s.subs[i := s.subs[i].(thread := thread)])
  }

  function Apply(s: State, step: Step): State
    requires Enabled(s, step)
  {
    match step
    case Poll(i, answer) => s.(subs := s.subs[i := Subwaiter(if answer then Leaving else Waiting, answer)])
    case GiveUp(i) => WithThread(s, i, Leaving)
    case End(i) => WithThread(s, i, Ended)
    case Die(i) => WithThread(s, i, Ended)
    case StartNext => WithThread(s, s.parent.next, Waiting).(parent := Starting(s.parent.next + 1))
    case Started => s.(parent := Head)
    case Scan => s.(parent := Scanning(0))
    case Expire => s.(parent := Joining(0))
    case ReadFlag =>
      if s.parent.next >= |s.subs| then s.(parent := Joining(0), completed := true)
      else if s.subs[s.parent.next].completed then s.(parent := Scanning(s.parent.next + 1))
      else s.(parent := Head, completed := false)
    case JoinNext => s.(parent := Joining(s.parent.next + 1))
    case Finish => s.(parent := Returned(s.completed))
  }

  function Init(n: nat): State {
    State(seq(n, _ => Subwaiter(NotStarted, false)), Starting(0), false)
  }

  /** The state reached from `s` by `steps`, if each is enabled where it is taken. */
  ghost predicate Leads(s: State, steps: seq<Step>, t: State)
    decreases |steps|
  {
    if steps == [] then s == t
    else Enabled(s, steps[0]) && Leads(Apply(s, steps[0]), steps[1..], t)
  }

  // ----- the invariant -----

  ghost predicate Inv(s: State) {
    && (forall i | 0 <= i < |s.subs| && s.subs[i].completed :: s.subs[i].thread.Leaving? || s.subs[i].thread.Ended?)
    && (s.parent.Starting? ==> forall i | s.parent.next <= i < |s.subs| :: s.subs[i].thread.NotStarted?)
    && (s.parent.Scanning? ==> forall i | 0 <= i < s.parent.next && i < |s.subs| :: s.subs[i].completed)
    && (s.parent.Joining? ==> forall i | 0 <= i < s.parent.next && i < |s.subs| :: s.subs[i].thread.Ended?)
    && (s.parent.Returned? ==>
          s.parent.result == s.completed && forall i | 0 <= i < |s.subs| :: s.subs[i].thread.Ended?)
    && (s.completed ==> !s.parent.Starting? && !s.parent.Head? && !s.parent.Scanning?
                        && forall i | 0 <= i < |s.subs| :: s.subs[i].completed)
  }

  lemma StepKeepsInv(s: State, step: Step)
    requires Inv(s) && Enabled(s, step)
    ensures Inv(Apply(s, step)) && |Apply(s, step).subs| == |s.subs|
    ensures forall i | 0 <= i < |s.subs| && s.subs[i].completed :: Apply(s, step).subs[i].completed
  {
  }

  /** A `completed` flag, once set, stays set through any further steps of the run. */
  lemma {:induction false} FlagsAreMonotone(s: State, steps: seq<Step>, t: State)
    requires Inv(s) && Leads(s, steps, t)
    ensures Inv(t) && |t.subs| == |s.subs|
    ensures forall i | 0 <= i < |s.subs| && s.subs[i].completed :: t.subs[i].completed
    decreases |steps|
  {
    if steps == [] {
    } else {
      StepKeepsInv(s, steps[0]);
      FlagsAreMonotone(Apply(s, steps[0]), steps[1..], t);
    }
  }

  /** When `wait_for_completion` returns, whatever the interleaving was, every thread has
      ended, and True means that every subwaiter has completed. */
  lemma ReturnIsSound(n: nat, steps: seq<Step>, t: State)
    requires Leads(Init(n), steps, t) && t.parent.Returned?
    ensures |t.subs| == n && forall i | 0 <= i < n :: t.subs[i].thread.Ended?
    ensures t.parent.result ==> forall i | 0 <= i < n :: t.subs[i].completed
  {
    FlagsAreMonotone(Init(n), steps, t);
  }

  // ----- what False means -----

  /** Once the parent joins its threads its answer is settled, and it looks at the clock no more. */
  lemma {:induction false} JoiningSettles(s: State, steps: seq<Step>, t: State)
    requires Inv(s) && Leads(s, steps, t) && t.parent.Returned?
    requires s.parent.Joining? || s.parent.Returned?
    ensures Expire !in steps && t.parent.result == s.completed
    decreases |steps|
  {
    if steps == [] {
    } else {
      StepKeepsInv(s, steps[0]);
      JoiningSettles(Apply(s, steps[0]), steps[1..], t);
    }
  }

  lemma {:induction false} ResultFrom(s: State, steps: seq<Step>, t: State)
    requires Inv(s) && Leads(s, steps, t) && t.parent.Returned?
    requires !s.parent.Joining? && !s.parent.Returned?
    ensures t.parent.result <==> Expire !in steps
    decreases |steps|
  {
    StepKeepsInv(s, steps[0]);
    var next := Apply(s, steps[0]);
    if next.parent.Joining? {
      JoiningSettles(next, steps[1..], t);
    } else {
      ResultFrom(next, steps[1..], t);
    }
  }

  /** In every run, the answer is True exactly when the parent has not run out of time. */
  lemma ResultIffNotExpired(n: nat, steps: seq<Step>, t: State)
    requires Leads(Init(n), steps, t) && t.parent.Returned?
    ensures t.parent.result <==> Expire !in steps
  {
    ResultFrom(Init(n), steps, t);
  }

  /** The threads from `i` on complete and end, while the parent waits for the first of all. */
  lemma {:induction false} CompleteRest(s: State, i: nat) returns (steps: seq<Step>, t: State)
    requires s.parent == Joining(0) && i <= |s.subs|
    requires forall j | 0 <= j < i :: s.subs[j] == Subwaiter(Ended, true)
    requires forall j | i <= j < |s.subs| :: s.subs[j] == Subwaiter(Waiting, false)
    ensures Leads(s, steps, t) && t.parent == Returned(s.completed) && |t.subs| == |s.subs|
    ensures forall j | 0 <= j < |t.subs| :: t.subs[j].completed
    decreases |s.subs| - i
  {
    if i == |s.subs| {
      steps, t := JoinRest(s);
    } else {
      var polled := Apply(s, Poll(i, true));
      steps, t := CompleteRest(Apply(polled, End(i)), i + 1);
      LeadsFrom(polled, End(i), steps, t);
      LeadsFrom(s, Poll(i, true), [End(i)] + steps, t);
      steps := [Poll(i, true)] + ([End(i)] + steps);
    }
  }

  lemma {:induction false} JoinRest(s: State) returns (steps: seq<Step>, t: State)
    requires s.parent.Joining? && s.parent.next <= |s.subs|
    requires forall j | 0 <= j < |s.subs| :: s.subs[j].thread.Ended?
    ensures Leads(s, steps, t) && t.parent == Returned(s.completed) && t.subs == s.subs
    decreases |s.subs| - s.parent.next
  {
    var step := if s.parent.next == |s.subs| then Finish else JoinNext;
    steps, t := [], Apply(s, step);
    if s.parent.next < |s.subs| {
      steps, t := JoinRest(Apply(s, JoinNext));
    }
    LeadsFrom(s, step, steps, t);
    steps := [step] + steps;
  }

  lemma LeadsFrom(s: State, step: Step, steps: seq<Step>, t: State)
    requires Enabled(s, step) && Leads(Apply(s, step), steps, t)
    ensures Leads(s, [step] + steps, t)
  {
    assert ([step] + steps)[1..] == steps;
  }

  /** All threads are started, and time is up before the parent has read a single flag. */
  lemma {:induction false} StartThenExpire(s: State) returns (steps: seq<Step>, t: State)
    requires s.parent.Starting? && s.parent.next <= |s.subs| && !s.completed
    requires forall j | 0 <= j < s.parent.next :: s.subs[j] == Subwaiter(Waiting, false)
    requires forall j | s.parent.next <= j < |s.subs| :: s.subs[j] == Subwaiter(NotStarted, false)
    ensures Leads(s, steps, t) && Expire in steps && t.parent == Returned(false) && |t.subs| == |s.subs|
    ensures forall j | 0 <= j < |t.subs| :: t.subs[j].completed
    decreases |s.subs| - s.parent.next
  {
    if s.parent.next < |s.subs| {
      steps, t := StartThenExpire(Apply(s, StartNext));
      LeadsFrom(s, StartNext, steps, t);
      steps := [StartNext] + steps;
    } else {
      var head := Apply(s, Started);
      steps, t := CompleteRest(Apply(head, Expire), 0);
      LeadsFrom(head, Expire, steps, t);
      LeadsFrom(s, Started, [Expire] + steps, t);
      steps := [Started] + ([Expire] + steps);
    }
  }

  /** False does not mean that a subwaiter has not completed: whatever their number, all can
      complete while the parent waits for the threads to end. */
  lemma CompletedButReturnsFalse(n: nat) returns (steps: seq<Step>, t: State)
    ensures Leads(Init(n), steps, t) && Expire in steps && t.parent == Returned(false)
    ensures |t.subs| == n && forall i | 0 <= i < n :: t.subs[i].completed
  {
    steps, t := StartThenExpire(Init(n));
  }

  // ----- what True takes -----

  /** When all flags are set the parent reads them to the end. */
  lemma {:induction false} ReadAll(s: State) returns (steps: seq<Step>, t: State)
    requires s.parent.Scanning? && s.parent.next <= |s.subs|
    requires forall j | 0 <= j < |s.subs| :: s.subs[j].completed
    ensures Leads(s, steps, t) && t == s.(parent := Joining(0), completed := true)
    decreases |s.subs| - s.parent.next
  {
    steps, t := [], Apply(s, ReadFlag);
    if s.parent.next < |s.subs| {
      steps, t := ReadAll(Apply(s, ReadFlag));
    }
    LeadsFrom(s, ReadFlag, steps, t);
    steps := [ReadFlag] + steps;
  }

  /** The threads from `i` on, which are leaving, end one after the other. */
  lemma {:induction false} EndAll(s: State, i: nat) returns (steps: seq<Step>, t: State)
    requires s.parent == Joining(0) && i <= |s.subs|
    requires forall j | 0 <= j < i :: s.subs[j].thread.Ended?
    requires forall j | i <= j < |s.subs| :: s.subs[j].thread.Leaving? || s.subs[j].thread.Ended?
    ensures Leads(s, steps, t) && t.parent == Returned(s.completed)
    decreases |s.subs| - i
  {
    if i == |s.subs| {
      steps, t := JoinRest(s);
    } else if s.subs[i].thread.Ended? {
      steps, t := EndAll(s, i + 1);
    } else {
      steps, t := EndAll(Apply(s, End(i)), i + 1);
      LeadsFrom(s, End(i), steps, t);
      steps := [End(i)] + steps;
    }
  }

  lemma {:induction false} LeadsOn(s: State, first: seq<Step>, t: State, second: seq<Step>, u: State)
    requires Leads(s, first, t) && Leads(t, second, u)
    ensures Leads(s, first + second, u)
    decreases |first|
  {
    if first == [] {
      assert first + second == second;
    } else {
      LeadsOn(Apply(s, first[0]), first[1..], t, second, u);
      assert first + second == [first[0]] + (first[1..] + second);
      LeadsFrom(s, first[0], first[1..] + second, u);
    }
  }

  /** Whenever all subwaiters have completed and the parent looks in time, it can return True. */
  lemma CompletedCanReturnTrue(s: State) returns (steps: seq<Step>, t: State)
    requires Inv(s) && s.parent.Head? && forall j | 0 <= j < |s.subs| :: s.subs[j].completed
    ensures Leads(s, steps, t) && Expire !in steps && t.parent == Returned(true)
  {
    var scanning := Apply(s, Scan);
    var readings, joining := ReadAll(scanning);
    var ends;
    ends, t := EndAll(joining, 0);
    LeadsOn(scanning, readings, joining, ends, t);
    LeadsFrom(s, Scan, readings + ends, t);
    steps := [Scan] + (readings + ends);
    ResultFrom(s, steps, t);
  }

  /** The answer is that all subwaiters have completed. */
  ghost predicate Exact(t: State) {
    t.parent.Returned? && (t.parent.result <==> forall i | 0 <= i < |t.subs| :: t.subs[i].completed)
  }

  /** For any number of subwaiters, the answer is exact in every run if and only if there is
      no timeout: time can run out only where there is one, and then False says nothing. */
  lemma ExactIffNoTimeout(n: nat, timed: bool)
    ensures (forall steps, t | Leads(Init(n), steps, t) && t.parent.Returned? && (Expire in steps ==> timed) ::
               Exact(t)) <==> !timed
  {
    if timed {
      var steps, t := CompletedButReturnsFalse(n);
      assert !Exact(t);
    } else {
      forall steps, t | Leads(Init(n), steps, t) && t.parent.Returned? && Expire !in steps ensures Exact(t) {
        ResultIffNotExpired(n, steps, t);
        ReturnIsSound(n, steps, t);
      }
    }
  }
}
