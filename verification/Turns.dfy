/** What each step of the thread kernel does, field by field, and what that means for whole runs: who runs when,
    who is woken when, and how often a semaphore was passed. */
module Turns {
  import opened Common
  import opened K = Kernel

  // ---------------------------------------------------------------------------
  // Where live threads are not

  /** The running thread is alive, and on no list. */
  lemma RunningIsAlone(s: State)
    requires Good(s) && !s.idle
    ensures s.current in s.status && s.current !in s.finished && s.current !in s.ready
    ensures forall k | 0 <= k < |s.sems| :: s.current !in s.sems[k].queue
    ensures s.toDestroy != Some(s.current)
  {
    assert At(s, s.current, Cpu);
    assert !At(s, s.current, ReadyList);
    forall k | 0 <= k < |s.sems|
      ensures s.current !in s.sems[k].queue
    {
      assert !At(s, s.current, Queue(k));
    }
  }

  /** A ready thread is alive and not noted for deletion. */
  lemma ReadyIsAlive(s: State, i: nat)
    requires Good(s) && i < |s.ready|
    ensures s.ready[i] in s.status && s.ready[i] !in s.finished && s.toDestroy != Some(s.ready[i])
    ensures !s.idle ==> s.ready[i] != s.current
    ensures forall j | 0 <= j < |s.ready| && j != i :: s.ready[j] != s.ready[i]
  {
    assert At(s, s.ready[i], ReadyList);
    assert !At(s, s.ready[i], Cpu);
  }

  // ---------------------------------------------------------------------------
  // The steps, field by field

  /** A forked thread is ready, behind all others; nothing else changes. */
  lemma ForkMeans(s: State, t: Tid)
    requires Enabled(s, Fork(t))
    ensures var s' := Next(s, Fork(t));
            && s'.ready == s.ready + [t] && s'.status == s.status[t := Ready]
            && s'.current == s.current && s'.idle == s.idle && s'.sems == s.sems && s'.dispatches == s.dispatches
  {
  }

  /** With others ready, the first of them runs and the caller goes behind the rest; alone, the caller
      goes on. */
  lemma YieldMeans(s: State)
    requires Good(s) && Enabled(s, Yield)
    ensures var s' := Next(s, Yield);
            && s'.sems == s.sems && !s'.idle
            && (s.ready == [] ==> s'.current == s.current && s'.ready == [] && s'.dispatches == s.dispatches)
            && (s.ready != [] ==>
                  && s'.current == s.ready[0] && s'.ready == s.ready[1..] + [s.current]
                  && s'.dispatches == s.dispatches + 1
                  && s'.current in s'.status && s'.status[s'.current] == Running
                  && s.current in s'.status && s'.status[s.current] == Ready)
  {
    hide Good, MustRetest;
    RunningIsAlone(s);
    if s.ready != [] { ReadyIsAlive(s, 0); }
  }

  /** The thread that gives up the processor hands it to the first ready thread, or the machine idles. */
  ghost predicate HandsOver(s: State, s': State) {
    if s.ready == [] then s'.idle && s'.ready == [] && s'.dispatches == s.dispatches
    else !s'.idle && s'.current == s.ready[0] && s'.ready == s.ready[1..] && s'.dispatches == s.dispatches + 1
  }

  /** One pass of P: with a positive value the caller goes on and there is one unit less; at zero it joins
      the queue at its end and gives up the processor. */
  lemma PassMeans(s: State, step: Step, k: nat)
    requires Good(s) && Enabled(s, step) && (step == P(k) || step == Retest(k))
    ensures var s' := Next(s, step);
            && |s'.sems| == |s.sems| && (forall j | 0 <= j < |s.sems| && j != k :: s'.sems[j] == s.sems[j])
            && s'.sems[k].woken == s.sems[k].woken - {s.current}
            && (s.sems[k].value != 0 ==>
                  && s'.sems[k].value == s.sems[k].value - 1 && s'.sems[k].queue == s.sems[k].queue
                  && s'.current == s.current && !s'.idle && s'.ready == s.ready && s'.dispatches == s.dispatches)
            && (s.sems[k].value == 0 ==>
                  && s'.sems[k].value == 0 && s'.sems[k].queue == s.sems[k].queue + [s.current]
                  && HandsOver(s, s'))
  {
    hide Good;
    NotWoken(s, step, k);
  }

  lemma NotWoken(s: State, step: Step, k: nat)
    requires Enabled(s, step) && (step == P(k) || step == Retest(k))
    ensures step == P(k) ==> s.current !in s.sems[k].woken
  {
  }

  /** V: one unit more; the first waiter, if any, goes from the queue to the end of the ready list. */
  lemma SignalMeans(s: State, k: nat)
    requires Enabled(s, V(k))
    ensures var s' := Next(s, V(k));
            && |s'.sems| == |s.sems| && (forall j | 0 <= j < |s.sems| && j != k :: s'.sems[j] == s.sems[j])
            && s'.sems[k].value == s.sems[k].value + 1
            && s'.current == s.current && s'.idle == s.idle && s'.dispatches == s.dispatches
            && (s.sems[k].queue == [] ==> s'.sems[k].queue == [] && s'.ready == s.ready && s'.status == s.status)
            && (s.sems[k].queue != [] ==>
                  var t := s.sems[k].queue[0];
                  && s'.sems[k].queue == s.sems[k].queue[1..] && s'.sems[k].woken == s.sems[k].woken + {t}
                  && s'.ready == s.ready + [t] && s'.status == s.status[t := Ready])
  {
  }

  /** A finishing thread is finished for good and gives up the processor. */
  lemma FinishMeans(s: State)
    requires Enabled(s, Finish)
    ensures var s' := Next(s, Finish);
            && s'.finished == s.finished + {s.current} && s'.sems == s.sems && HandsOver(s, s')
  {
    hide MustRetest;
  }

  /** An idle machine gives the processor to the first thread that became ready. */
  lemma ResumeMeans(s: State)
    requires Enabled(s, Resume)
    ensures HandsOver(s, Next(s, Resume)) && Next(s, Resume).sems == s.sems
  {
  }

  /** A running thread may do anything, save that one woken inside P must first re-test; anyone may signal;
      and an idle machine goes on as soon as a thread is ready. */
  lemma WhatMayHappen(s: State, t: Tid, k: nat)
    requires k < |s.sems|
    ensures Enabled(s, V(k))
    ensures !s.idle && s.current in s.sems[k].woken ==> Enabled(s, Retest(k))
    ensures !s.idle && (forall j | 0 <= j < |s.sems| :: s.current !in s.sems[j].woken) ==>
              Enabled(s, Yield) && Enabled(s, P(k)) && Enabled(s, Finish)
    ensures !s.idle && (forall j | 0 <= j < |s.sems| :: s.current !in s.sems[j].woken) ==>
              (t !in s.status && t !in s.finished ==> Enabled(s, Fork(t)))
    ensures s.idle && s.ready != [] ==> Enabled(s, Resume)
  {
  }

  // ---------------------------------------------------------------------------
  // Taking turns

  /** The running thread and, in order, those that wait for the processor. */
  function Ring(s: State): (r: seq<Tid>)
    ensures |r| == |s.ready| + 1
  {
    [s.current] + s.ready
  }

  function Yields(n: nat): (r: seq<Step>)
    ensures |r| == n
  {
    seq(n, i => Yield)
  }

  /** A Yield turns the ring by one place. */
  lemma YieldTurns(s: State)
    requires Good(s) && Enabled(s, Yield)
    ensures Ring(Next(s, Yield)) == Ring(s)[1..] + [Ring(s)[0]]
  {
    hide Good, Next, Enabled;
    YieldMeans(s);
  }

  /** When every thread that gets the processor yields, the thread at place `n` of the ring runs after
      `n` Yields, and the others keep their order behind it. */
  lemma {:induction false} RingTurns(s: State, n: nat)
    requires Good(s) && After(s, Yields(n)).Some? && n <= |Ring(s)|
    ensures Ring(After(s, Yields(n)).value) == Ring(s)[n..] + Ring(s)[..n]
  {
    hide Good, Next, Enabled, Ring;
    if n > 0 {
      assert Yields(n)[..n - 1] == Yields(n - 1) && Yields(n)[n - 1] == Yield;
      RingTurns(s, n - 1);
      RunKeepsGood(s, Yields(n - 1));
      YieldTurns(After(s, Yields(n - 1)).value);
      Rotate(Ring(s), n);
    }
  }

  lemma Rotate(r: seq<Tid>, n: nat)
    requires 0 < n <= |r|
    ensures var t := r[n - 1..] + r[..n - 1]; t[1..] + [t[0]] == r[n..] + r[..n]
  {
    var t := r[n - 1..] + r[..n - 1];
    assert t[0] == r[n - 1] && t[1..] == r[n..] + r[..n - 1] && r[..n] == r[..n - 1] + [r[n - 1]];
  }

  /** The thread at position `i` of the ready list runs after `i + 1` Yields; one more round than there are
      others brings back the first thread and the same list. */
  lemma YieldersTakeTurns(s: State, i: nat)
    requires Good(s) && i < |s.ready|
    ensures After(s, Yields(i + 1)).Some? ==> After(s, Yields(i + 1)).value.current == s.ready[i]
    ensures var all := Yields(|s.ready| + 1);
            After(s, all).Some? ==> After(s, all).value.current == s.current && After(s, all).value.ready == s.ready
  {
    hide Good, Next, Enabled;
    if After(s, Yields(i + 1)).Some? {
      RingTurns(s, i + 1);
      assert Ring(After(s, Yields(i + 1)).value)[0] == Ring(s)[i + 1];
    }
    var all := Yields(|s.ready| + 1);
    if After(s, all).Some? {
      RingTurns(s, |s.ready| + 1);
      var r := Ring(After(s, all).value);
      assert r == Ring(s) && r[1..] == s.ready;
    }
  }

  /** As long as no woken thread has yet to re-test, whoever runs can yield, again and again. */
  lemma {:induction false} YieldsGoOn(s: State, n: nat)
    requires Good(s) && !s.idle && forall k | 0 <= k < |s.sems| :: s.sems[k].woken == {}
    ensures After(s, Yields(n)).Some?
    ensures var s' := After(s, Yields(n)).value; !s'.idle && s'.sems == s.sems
  {
    hide Good, Next;
    if n > 0 {
      assert Yields(n)[..n - 1] == Yields(n - 1) && Yields(n)[n - 1] == Yield;
      YieldsGoOn(s, n - 1);
      RunKeepsGood(s, Yields(n - 1));
      YieldMeans(After(s, Yields(n - 1)).value);
    }
  }

  // ---------------------------------------------------------------------------
  // Counting Ps and Vs in the list of steps

  function Signals(steps: seq<Step>, k: nat): nat {
    if steps == [] then 0 else Signals(steps[..|steps| - 1], k) + Flag(steps[|steps| - 1] == V(k))
  }

  /** The step is a pass of P on semaphore `k` that did not leave its caller on the queue. */
  ghost predicate Passed(s: State, step: Step, s': State, k: nat) {
    (step == P(k) || step == Retest(k)) && k < |s'.sems| && s.current !in s'.sems[k].queue
  }

  /** How many passes of P on semaphore `k` along the run let their caller through. */
  ghost function Passes(s: State, steps: seq<Step>, k: nat): nat {
    if steps == [] then 0
    else
      var n := |steps| - 1;
      var a, b := After(s, steps[..n]), After(s, steps);
      Passes(s, steps[..n], k) + Flag(a.Some? && b.Some? && Passed(a.value, steps[n], b.value, k))
  }

  /** One step changes a semaphore's value by its V or its passed P, and not otherwise. */
  lemma ValueStep(s: State, step: Step, k: nat)
    requires Good(s) && Enabled(s, step) && k < |s.sems|
    ensures var s' := Next(s, step);
            && |s'.sems| == |s.sems|
            && s'.sems[k].value == s.sems[k].value + Flag(step == V(k)) - Flag(Passed(s, step, s', k))
  {
    hide Good, Next;
    match step
    case Fork(t) => ForkMeans(s, t);
    case Yield => YieldMeans(s);
    case P(j) => PassMeans(s, step, j); RunningIsAlone(s);
    case Retest(j) => PassMeans(s, step, j); RunningIsAlone(s);
    case V(j) => SignalMeans(s, j);
    case Finish => FinishMeans(s);
    case Resume => ResumeMeans(s);
  }

  /** Along every run a semaphore's value is its initial value plus the Vs in the list of steps minus the
      passes of P that went through. */
  lemma {:induction false} ValueCounts(initials: seq<int>, steps: seq<Step>, k: nat)
    requires After(Initial(initials), steps).Some? && k < |initials|
    ensures var s' := After(Initial(initials), steps).value;
            && k < |s'.sems|
            && s'.sems[k].value == initials[k] + Signals(steps, k) - Passes(Initial(initials), steps, k)
  {
    hide Next, Enabled, Good, Passed;
    if steps != [] {
      var n := |steps| - 1;
      ValueCounts(initials, steps[..n], k);
      RunIsGood(initials, steps[..n]);
      ValueStep(After(Initial(initials), steps[..n]).value, steps[n], k);
    }
  }

  // ---------------------------------------------------------------------------
  // First come, first woken

  /** A V on semaphore `k` moves its waiters up by one and wakes the first; no other step moves them. */
  lemma WaiterStep(s: State, step: Step, k: nat, i: nat)
    requires Good(s) && Enabled(s, step) && k < |s.sems| && i < |s.sems[k].queue|
    ensures var s' := Next(s, step);
            && |s'.sems| == |s.sems|
            && (step == V(k) && i == 0 ==> s'.ready == s.ready + [s.sems[k].queue[0]])
            && (step == V(k) && i > 0 ==>
                  i - 1 < |s'.sems[k].queue| && s'.sems[k].queue[i - 1] == s.sems[k].queue[i])
            && (step != V(k) ==> i < |s'.sems[k].queue| && s'.sems[k].queue[i] == s.sems[k].queue[i])
  {
    hide Good, Next;
    match step
    case Fork(t) => ForkMeans(s, t);
    case Yield => YieldMeans(s);
    case P(j) => PassMeans(s, step, j);
    case Retest(j) => PassMeans(s, step, j);
    case V(j) => SignalMeans(s, j);
    case Finish => FinishMeans(s);
    case Resume => ResumeMeans(s);
  }

  /** Along any run a thread at position `i` of a semaphore's queue moves up by the number of Vs, so that
      the V number `i + 1` wakes it. */
  lemma {:induction false} WokenInTurn(s: State, steps: seq<Step>, k: nat, i: nat)
    requires Good(s) && After(s, steps).Some? && k < |s.sems| && i < |s.sems[k].queue|
    ensures var s', v := After(s, steps).value, Signals(steps, k);
            && |s'.sems| == |s.sems|
            && (v <= i ==> i - v < |s'.sems[k].queue| && s'.sems[k].queue[i - v] == s.sems[k].queue[i])
            && (v == i + 1 && steps[|steps| - 1] == V(k) ==>
                  s'.ready != [] && s'.ready[|s'.ready| - 1] == s.sems[k].queue[i])
  {
    hide Next, Enabled, Good;
    if steps != [] {
      var n := |steps| - 1;
      WokenInTurn(s, steps[..n], k, i);
      RunKeepsGood(s, steps[..n]);
      var a, v := After(s, steps[..n]).value, Signals(steps[..n], k);
      if v <= i {
        WaiterStep(a, steps[n], k, i - v);
      } else {
        SemsStay(a, steps[n]);
      }
    }
  }

  lemma SemsStay(s: State, step: Step)
    requires Good(s) && Enabled(s, step)
    ensures |Next(s, step).sems| == |s.sems|
  {
    hide Good;
  }
}
