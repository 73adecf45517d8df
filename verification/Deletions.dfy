/** When a finished thread is deleted.  Thread::Finish only notes whom to delete (threads/thread.cc);
    the deletion is left to the code after a switch (threads/scheduler.cc), which a thread that runs
    for the first time does not go through. */
module Deletions {
  import opened Common
  import opened K = Kernel

  /** The step gives the processor to a thread that has run before. */
  predicate SwitchesBack(s: State, step: Step)
    requires Enabled(s, step)
  {
    Next(s, step).dispatches > s.dispatches && Next(s, step).current in s.started
  }

  predicate Noted(s: State, t: Tid) { t in s.finished && t in s.status && s.toDestroy == Some(t) }

  predicate Forgotten(s: State, t: Tid) { t in s.finished && t in s.status && s.toDestroy != Some(t) }

  predicate Deleted(s: State, t: Tid) { t in s.finished && t !in s.status }

  // ---------------------------------------------------------------------------
  // One step

  /** The running thread has not finished; what is on the ready list has not either. */
  lemma LiveOnes(s: State)
    requires Good(s)
    ensures !s.idle ==> s.current !in s.finished && s.current in s.status
    ensures forall i | 0 <= i < |s.ready| :: s.ready[i] !in s.finished && s.ready[i] in s.status
    ensures forall i | 0 <= i < |s.ready| && !s.idle :: s.ready[i] != s.current
  {
    if !s.idle { assert At(s, s.current, Cpu); }
    forall i | 0 <= i < |s.ready|
      ensures s.ready[i] !in s.finished && s.ready[i] in s.status && (!s.idle ==> s.ready[i] != s.current)
    {
      assert At(s, s.ready[i], ReadyList);
    }
  }

  /** Waiting threads have not finished. */
  lemma LiveWaiters(s: State)
    requires Good(s)
    ensures forall k | 0 <= k < |s.sems| && s.sems[k].queue != [] ::
              s.sems[k].queue[0] !in s.finished && s.sems[k].queue[0] in s.status
  {
    forall k | 0 <= k < |s.sems| && s.sems[k].queue != []
      ensures s.sems[k].queue[0] !in s.finished && s.sems[k].queue[0] in s.status
    {
      assert At(s, s.sems[k].queue[0], Queue(k));
    }
  }

  /** A thread that finishes is deleted at once if the processor goes back to a thread that has run
      before, and noted otherwise: when a new thread takes over, and when there is none to take over. */
  lemma FinishStep(s: State)
    requires Good(s) && Enabled(s, Finish)
    ensures if SwitchesBack(s, Finish) then Deleted(Next(s, Finish), s.current) else Noted(Next(s, Finish), s.current)
  {
    hide Good;
    LiveOnes(s);
  }

  /** A noted thread is forgotten at the next Finish, deleted at the next switch back, and otherwise
      stays noted. */
  lemma NotedStep(s: State, step: Step, t: Tid)
    requires Good(s) && Enabled(s, step) && Noted(s, t)
    ensures var s' := Next(s, step);
            if step == Finish then Forgotten(s', t) else if SwitchesBack(s, step) then Deleted(s', t) else Noted(s', t)
  {
    hide Good, MustRetest;
    LiveOnes(s);
    LiveWaiters(s);
  }

  lemma ForgottenStep(s: State, step: Step, t: Tid)
    requires Good(s) && Enabled(s, step) && Forgotten(s, t)
    ensures Forgotten(Next(s, step), t)
  {
    hide Good, MustRetest;
    LiveOnes(s);
    LiveWaiters(s);
  }

  lemma DeletedStep(s: State, step: Step, t: Tid)
    requires Good(s) && Enabled(s, step) && Deleted(s, t)
    ensures Deleted(Next(s, step), t)
  {
    hide Good, MustRetest;
    LiveOnes(s);
    LiveWaiters(s);
  }

  /** The destructor's check never fails: whatever thread a step deletes was noted or is just
      finishing, does not run, and waits nowhere; and only a switch back deletes. */
  lemma DeletedIsDead(initials: seq<int>, steps: seq<Step>, step: Step, t: Tid)
    requires After(Initial(initials), steps).Some? && Enabled(After(Initial(initials), steps).value, step)
    requires var s := After(Initial(initials), steps).value; t in s.status && t !in Next(s, step).status
    ensures var s := After(Initial(initials), steps).value;
            var s' := Next(s, step);
            && SwitchesBack(s, step) && (if step == Finish then t == s.current else s.toDestroy == Some(t))
            && t in s'.finished && t != s'.current && !Somewhere(s', t)
  {
    hide Good, MustRetest, At;
    RunIsGood(initials, steps);
    var s := After(Initial(initials), steps).value;
    GoodStep(s, step);
    NoteIsFinished(s);
    NoteIsFinished(Next(s, step));
    LiveOnes(s);
    LiveOnes(Next(s, step));
    LiveWaiters(s);
    NowhereWhenFinished(Next(s, step), t);
  }

  lemma NoteIsFinished(s: State)
    requires Good(s)
    ensures s.toDestroy.Some? ==> s.toDestroy.value in s.finished
  {
  }

  lemma NowhereWhenFinished(s: State, t: Tid)
    requires Good(s)
    ensures t in s.finished ==> !Somewhere(s, t)
  {
  }

  // ---------------------------------------------------------------------------
  // Whole runs

  /** Step `k` of the run switches back. */
  predicate SwitchesBackAt(s: State, steps: seq<Step>, k: nat) {
    && k < |steps|
    && var a := After(s, steps[..k]);
       a.Some? && Enabled(a.value, steps[k]) && SwitchesBack(a.value, steps[k])
  }

  /** Some thread finishes after the first step. */
  ghost predicate AnotherFinish(steps: seq<Step>) {
    exists j | 0 < j < |steps| :: steps[j] == Finish
  }

  /** Some step switches back before another thread finishes. */
  ghost predicate BackInTime(s: State, steps: seq<Step>) {
    exists k: nat | k < |steps| :: SwitchesBackAt(s, steps, k) && !AnotherFinish(steps[..k + 1])
  }

  lemma AnotherFinishSnoc(steps: seq<Step>)
    requires |steps| > 1
    ensures AnotherFinish(steps) <==> AnotherFinish(steps[..|steps| - 1]) || steps[|steps| - 1] == Finish
  {
    var n := |steps| - 1;
    assert forall j | 0 <= j < n :: steps[..n][j] == steps[j];
  }

  lemma BackInTimeSnoc(s: State, steps: seq<Step>)
    requires steps != []
    ensures var n := |steps| - 1;
            BackInTime(s, steps) <==>
            BackInTime(s, steps[..n]) || (SwitchesBackAt(s, steps, n) && !AnotherFinish(steps))
  {
    hide SwitchesBack, AnotherFinish, Next, Enabled;
    var n := |steps| - 1;
    assert steps[..n + 1] == steps;
    forall k: nat | k < n
      ensures SwitchesBackAt(s, steps[..n], k) <==> SwitchesBackAt(s, steps, k)
      ensures steps[..n][..k + 1] == steps[..k + 1]
    {
      assert steps[..n][..k] == steps[..k] && steps[..n][k] == steps[k];
    }
    if BackInTime(s, steps[..n]) {
      var k: nat :| k < n && SwitchesBackAt(s, steps[..n], k) && !AnotherFinish(steps[..n][..k + 1]);
      assert SwitchesBackAt(s, steps, k) && !AnotherFinish(steps[..k + 1]);
    }
    if BackInTime(s, steps) {
      var k: nat :| k < |steps| && SwitchesBackAt(s, steps, k) && !AnotherFinish(steps[..k + 1]);
      if k < n { assert SwitchesBackAt(s, steps[..n], k) && !AnotherFinish(steps[..n][..k + 1]); }
    }
  }

  /** What has become of the thread whose Finish began the run. */
  ghost predicate Fate(s: State, steps: seq<Step>, s': State) {
    if BackInTime(s, steps) then Deleted(s', s.current)
    else if AnotherFinish(steps) then Forgotten(s', s.current)
    else Noted(s', s.current)
  }

  lemma {:induction false} FateOfFinished(s: State, steps: seq<Step>)
    requires Good(s) && After(s, steps).Some? && steps != [] && steps[0] == Finish
    ensures Fate(s, steps, After(s, steps).value)
  {
    hide Good, Next, Enabled, BackInTime, AnotherFinish, SwitchesBack, Deleted, Forgotten, Noted;
    var n := |steps| - 1;
    BackInTimeSnoc(s, steps);
    if n == 0 {
      NothingYet(s, steps);
      FinishStep(s);
    } else {
      FateOfFinished(s, steps[..n]);
      AnotherFinishSnoc(steps);
      RunKeepsGood(s, steps[..n]);
      FateStep(After(s, steps[..n]).value, steps[n], s.current);
    }
  }

  lemma NothingYet(s: State, steps: seq<Step>)
    requires |steps| == 1
    ensures steps[..0] == [] && !BackInTime(s, steps[..0]) && !AnotherFinish(steps) && After(s, steps[..0]) == Some(s)
  {
  }

  /** The fates follow one another: noted until a switch back or another Finish, whichever comes first. */
  lemma FateStep(s: State, step: Step, t: Tid)
    requires Good(s) && Enabled(s, step)
    ensures Deleted(s, t) ==> Deleted(Next(s, step), t)
    ensures Forgotten(s, t) ==> Forgotten(Next(s, step), t)
    ensures Noted(s, t) ==> if step == Finish then Forgotten(Next(s, step), t)
                            else if SwitchesBack(s, step) then Deleted(Next(s, step), t) else Noted(Next(s, step), t)
  {
    hide *;
    if Deleted(s, t) { DeletedStep(s, step, t); }
    if Forgotten(s, t) { ForgottenStep(s, step, t); }
    if Noted(s, t) { NotedStep(s, step, t); }
  }

  /** From start-up and along every run: a thread that finishes has been deleted exactly when the
      processor went back to a thread that had run before, at that Finish or later, and before any
      other thread finished. */
  lemma DeletedExactly(initials: seq<int>, before: seq<Step>, steps: seq<Step>)
    requires After(Initial(initials), before).Some? && steps != [] && steps[0] == Finish
    requires After(After(Initial(initials), before).value, steps).Some?
    ensures var s := After(Initial(initials), before).value;
            s.current !in After(s, steps).value.status <==> BackInTime(s, steps)
  {
    hide BackInTime, AnotherFinish;
    RunIsGood(initials, before);
    FateOfFinished(After(Initial(initials), before).value, steps);
  }

  /** Once forgotten, a thread is never deleted, whatever happens. */
  lemma {:induction false} ForgottenForGood(s: State, steps: seq<Step>, t: Tid)
    requires Good(s) && Forgotten(s, t) && After(s, steps).Some?
    ensures Forgotten(After(s, steps).value, t)
  {
    hide Good, Next, Enabled, Forgotten;
    if steps != [] {
      var n := |steps| - 1;
      ForgottenForGood(s, steps[..n], t);
      RunKeepsGood(s, steps[..n]);
      ForgottenStep(After(s, steps[..n]).value, steps[n], t);
    }
  }

  lemma {:induction false} AfterConcat(s: State, a: seq<Step>, b: seq<Step>)
    requires After(s, a + b).Some?
    ensures After(s, a).Some? && After(s, a + b) == After(After(s, a).value, b)
  {
    hide Next, Enabled;
    if b == [] {
      assert a + b == a;
    } else {
      var n := |b| - 1;
      assert (a + b)[..|a| + n] == a + b[..n];
      AfterConcat(s, a, b[..n]);
    }
  }

  /** A finished thread leaks, and stays leaked in every continuation, exactly when another thread
      finishes before any switch back. */
  lemma LeakedExactly(initials: seq<int>, before: seq<Step>, steps: seq<Step>, more: seq<Step>)
    requires After(Initial(initials), before).Some? && steps != [] && steps[0] == Finish
    requires After(After(Initial(initials), before).value, steps + more).Some?
    ensures var s := After(Initial(initials), before).value;
            && After(s, steps).Some?
            && (Forgotten(After(s, steps).value, s.current) <==> AnotherFinish(steps) && !BackInTime(s, steps))
            && (AnotherFinish(steps) && !BackInTime(s, steps) ==> s.current in After(s, steps + more).value.status)
  {
    hide BackInTime, AnotherFinish, Good;
    var s := After(Initial(initials), before).value;
    RunIsGood(initials, before);
    AfterConcat(s, steps, more);
    FateOfFinished(s, steps);
    RunKeepsGood(s, steps);
    if AnotherFinish(steps) && !BackInTime(s, steps) {
      ForgottenForGood(After(s, steps).value, more, s.current);
    }
  }

  const LEAK := [Fork(1), Fork(2), Finish, Finish]

  /** Two new threads and two Finishes: the first thread is never deleted, however the run goes on. */
  lemma FinishedCanLeak(more: seq<Step>)
    ensures After(Initial([]), LEAK).Some? && Forgotten(After(Initial([]), LEAK).value, 0)
    ensures After(Initial([]), LEAK + more).Some? ==> 0 in After(Initial([]), LEAK + more).value.status
  {
    LeakReached();
    if After(Initial([]), LEAK + more).Some? {
      hide Good, Next, Enabled;
      AfterConcat(Initial([]), LEAK, more);
      RunIsGood([], LEAK);
      ForgottenForGood(After(Initial([]), LEAK).value, more, 0);
    }
  }

  lemma LeakReached()
    ensures After(Initial([]), LEAK).Some? && Forgotten(After(Initial([]), LEAK).value, 0)
  {
    var w1, w2, w3 := [Fork(1)], [Fork(1), Fork(2)], [Fork(1), Fork(2), Finish];
    var s0 := Initial([]);
    assert w1[..0] == [] && w2[..1] == w1 && w3[..2] == w2 && LEAK[..3] == w3;
    assert !MustRetest(s0) && After(s0, w1).Some? && After(s0, w2).Some?;
    assert After(s0, w2).value.ready == [1, 2];
    assert After(s0, w3).Some? && After(s0, w3).value.ready == [2];
  }
}
