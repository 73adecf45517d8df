/** Threads, the scheduler and semaphores: threads/thread.cc, threads/scheduler.cc and the P and V of
    threads/synch.cc, as steps that are atomic because interrupts are off. */
module Kernel {
  import opened Common

  type Tid = nat

  datatype Status = Running | Ready | Blocked

  /** A semaphore, with the history needed to speak about it: its initial value, the Ps and Vs
      completed, and the threads it has woken that have not yet re-tested its value. */
  datatype Sem = Sem(value: int, queue: seq<Tid>, initial: int, ps: nat, vs: nat, woken: set<Tid>)

  /** `idle`: the current thread is inside Sleep and found no thread to run.  `started`: threads that
      have run before, so that a switch to them returns inside Scheduler::Run. */
  datatype State = State(
    current: Tid, idle: bool, ready: seq<Tid>, status: map<Tid, Status>, sems: seq<Sem>,
    toDestroy: Option<Tid>, started: set<Tid>, finished: set<Tid>, dispatches: nat)

  datatype Step = Fork(t: Tid) | Yield | P(k: nat) | Retest(k: nat) | V(k: nat) | Finish | Resume

  function Initial(initials: seq<int>): State {
    State(0, false, [], map[0 := Running],
          seq(|initials|, i requires 0 <= i < |initials| => Sem(initials[i], [], initials[i], 0, 0, {})),
          None, {0}, {}, 0)
  }

  /** The current thread has been woken inside P and must re-test before it does anything else. */
  predicate MustRetest(s: State) { exists k | 0 <= k < |s.sems| :: s.current in s.sems[k].woken }

  predicate Enabled(s: State, step: Step) {
    match step
    case Fork(t) => !s.idle && !MustRetest(s) && t !in s.status && t !in s.finished
    case Yield => !s.idle && !MustRetest(s)
    case P(k) => !s.idle && !MustRetest(s) && k < |s.sems|
    case Retest(k) => !s.idle && k < |s.sems| && s.current in s.sems[k].woken
    case V(k) => k < |s.sems|
    case Finish => !s.idle && !MustRetest(s)
    case Resume => s.idle && s.ready != []
  }

  /** Scheduler::ReadyToRun. */
  function MadeReady(s: State, t: Tid): State {
    s.(status := s.status[t := Ready], ready := s.ready + [t])
  }

  /** FindNextToRun and Run: the head of the ready list gets the processor.  A thread that has run
      before deletes the thread waiting to be destroyed; a new one starts elsewhere and does not. */
  function Dispatched(s: State): (r: State)
    requires s.ready != []
    ensures r.sems == s.sems
  {
    var next := s.ready[0];
    var s1 := s.(current := next, idle := false, ready := s.ready[1..], status := s.status[next := Running],
                 dispatches := s.dispatches + 1, started := s.started + {next});
    if next in s.started && s.toDestroy.Some?
    then s1.(status := s1.status - {s.toDestroy.value}, toDestroy := None)
    else s1
  }

  /** Thread::Sleep: block, then run the next ready thread or idle until there is one. */
  function Slept(s: State): State {
    var s1 := s.(status := s.status[s.current := Blocked]);
    if s1.ready == [] then s1.(idle := true) else Dispatched(s1)
  }

  /** What a pass of P's loop by thread `t` does to the semaphore: consume a unit, or queue up. */
  function Tried(m: Sem, t: Tid): Sem {
    if m.value == 0 then m.(queue := m.queue + [t]) else m.(value := m.value - 1, ps := m.ps + 1)
  }

  /** What V does to the semaphore: one unit more, and the first waiter is woken. */
  function Raised(m: Sem): Sem {
    var r := m.(value := m.value + 1, vs := m.vs + 1);
    if m.queue == [] then r else r.(queue := m.queue[1..], woken := m.woken + {m.queue[0]})
  }

  /** One pass of P's loop: consume the value, or queue up and sleep. */
  function Attempted(s: State, k: nat): State
    requires k < |s.sems|
  {
    var s1 := s.(sems := s.sems[k := Tried(s.sems[k], s.current)]);
    if s.sems[k].value == 0 then Slept(s1) else s1
  }

  function Signalled(s: State, k: nat): State
    requires k < |s.sems|
  {
    var s1 := s.(sems := s.sems[k := Raised(s.sems[k])]);
    if s.sems[k].queue == [] then s1 else MadeReady(s1, s.sems[k].queue[0])
  }

  function Next(s: State, step: Step): State
    requires Enabled(s, step)
  {
    match step
    case Fork(t) => MadeReady(s, t)
    case Yield => if s.ready == [] then s else Yielded(s)
    case P(k) => Attempted(s, k)
    case Retest(k) => Attempted(s.(sems := s.sems[k := s.sems[k].(woken := s.sems[k].woken - {s.current})]), k)
    case V(k) => Signalled(s, k)
    case Finish => Slept(s.(toDestroy := Some(s.current), finished := s.finished + {s.current}))
    case Resume => Dispatched(s)
  }

  /** The next thread is taken off before the current one goes to the back. */
  function Yielded(s: State): State
    requires s.ready != []
  {
    Dispatched(MadeReady(s, s.current))
  }

  function After(s: State, steps: seq<Step>): Option<State> {
    if steps == [] then Some(s)
    else
      var before := After(s, steps[..|steps| - 1]);
      if before.Some? && Enabled(before.value, steps[|steps| - 1]) then Some(Next(before.value, steps[|steps| - 1]))
      else None
  }

  // ---------------------------------------------------------------------------
  // Semaphores

  /** The value is the initial one plus completed Vs minus completed Ps; and no wake-up is lost: while
      threads wait, every unit of value has a woken thread on its way to it. */
  ghost predicate SemGood(m: Sem) {
    && m.value == m.initial + m.vs - m.ps
    && (m.initial >= 0 ==> m.value >= 0)
    && (m.queue != [] ==> m.value <= |m.woken|)
  }

  ghost predicate SemsGood(s: State) {
    forall k | 0 <= k < |s.sems| :: SemGood(s.sems[k])
  }

  lemma TriedIsGood(m: Sem, t: Tid)
    requires SemGood(m)
    ensures SemGood(Tried(m, t))
  {
  }

  /** A woken thread that re-tests gives up its claim, and then consumes a unit or waits again. */
  lemma RetestIsGood(m: Sem, t: Tid)
    requires SemGood(m) && t in m.woken
    ensures SemGood(Tried(m.(woken := m.woken - {t}), t))
  {
  }

  lemma RaisedIsGood(m: Sem)
    requires SemGood(m) && (m.queue != [] ==> m.queue[0] !in m.woken)
    ensures SemGood(Raised(m))
  {
  }

  lemma SemsGoodStep(s: State, step: Step)
    requires SemsGood(s) && Enabled(s, step)
    requires forall k | 0 <= k < |s.sems| && s.sems[k].queue != [] :: s.sems[k].queue[0] !in s.sems[k].woken
    ensures SemsGood(Next(s, step))
  {
    hide MustRetest, Dispatched, SemGood, Tried, Raised;
    match step
    case P(k) => TriedIsGood(s.sems[k], s.current);
    case Retest(k) => RetestIsGood(s.sems[k], s.current);
    case V(k) => RaisedIsGood(s.sems[k]);
    case _ =>
  }

  // ---------------------------------------------------------------------------
  // Where threads are

  datatype Place = Cpu | ReadyList | Queue(k: nat)

  ghost predicate At(s: State, t: Tid, p: Place) {
    match p
    case Cpu => !s.idle && s.current == t
    case ReadyList => t in s.ready
    case Queue(k) => k < |s.sems| && t in s.sems[k].queue
  }

  function StatusAt(p: Place): Status {
    match p
    case Cpu => Running
    case ReadyList => Ready
    case Queue(_) => Blocked
  }

  ghost predicate NoDuplicates(ts: seq<Tid>) {
    forall i, j | 0 <= i < j < |ts| :: ts[i] != ts[j]
  }

  ghost predicate ListsGood(s: State) {
    NoDuplicates(s.ready) && forall k | 0 <= k < |s.sems| :: NoDuplicates(s.sems[k].queue)
  }

  /** No thread is in two places, and a thread in a place is alive and has the status of that place. */
  ghost predicate PlacesGood(s: State) {
    && (forall t, p, q :: At(s, t, p) && At(s, t, q) ==> p == q)
    && (forall t, p :: At(s, t, p) ==> t in s.status && t !in s.finished && s.status[t] == StatusAt(p))
  }

  ghost predicate Somewhere(s: State, t: Tid) { exists p :: At(s, t, p) }

  /** Woken threads are on their way to the processor, each from one semaphore. */
  ghost predicate WokenGood(s: State, but: Option<Tid>) {
    && (forall t, k | 0 <= k < |s.sems| && t in s.sems[k].woken && Some(t) != but ::
        At(s, t, Cpu) || At(s, t, ReadyList))
    && (forall t, j, k | 0 <= j < |s.sems| && 0 <= k < |s.sems| && t in s.sems[j].woken && t in s.sems[k].woken ::
        j == k)
  }

  /** All of that, for every thread but possibly one, which is alive and in no place. */
  ghost predicate Placed(s: State, but: Option<Tid>) {
    && ListsGood(s) && PlacesGood(s) && WokenGood(s, but)
    && (forall t | t in s.status && t !in s.finished && Some(t) != but :: Somewhere(s, t))
    && (but.Some? ==> !Somewhere(s, but.value) && but.value !in s.finished)
    && (s.toDestroy.Some? ==> s.toDestroy.value in s.finished)
  }

  /** Taking the running thread off the processor leaves it, alone, in no place. */
  lemma OffCpu(s: State)
    requires Placed(s, None) && !s.idle && !MustRetest(s)
    ensures Placed(s.(idle := true), Some(s.current))
  {
    var u := s.(idle := true);
    forall t | t in u.status && t !in u.finished && t != s.current
      ensures Somewhere(u, t)
    {
      var p :| At(s, t, p);
      assert At(u, t, p);
    }
    assert At(s, s.current, Cpu);
    forall t, p | At(u, t, p)
      ensures At(s, t, p)
    {
    }
  }

  lemma IntoReady(u: State, x: Tid)
    requires Placed(u, Some(x))
    ensures Placed(MadeReady(u, x), None)
  {
    var s' := MadeReady(u, x);
    assert !At(u, x, ReadyList);
    forall t, p
      ensures At(s', t, p) <==> At(u, t, p) || (t == x && p == ReadyList)
    {
    }
    assert forall p :: !At(u, x, p);
    assert At(s', x, ReadyList);
    forall t | t in s'.status && t !in s'.finished
      ensures Somewhere(s', t)
    {
      if t != x {
        var p :| At(u, t, p);
        assert At(s', t, p);
      }
    }
  }

  lemma IntoQueue(u: State, s': State, x: Tid, k: nat)
    requires Placed(u, Some(x)) && k < |u.sems|
    requires forall j | 0 <= j < |u.sems| :: x !in u.sems[j].woken
    requires s' == u.(sems := u.sems[k := u.sems[k].(queue := u.sems[k].queue + [x])], status := u.status[x := Blocked])
    ensures Placed(s', None)
  {
    assert !At(u, x, Queue(k)) && NoDuplicates(u.sems[k].queue);
    forall t, p
      ensures At(s', t, p) <==> At(u, t, p) || (t == x && p == Queue(k))
    {
    }
    assert forall p :: !At(u, x, p);
    assert At(s', x, Queue(k));
    forall t | t in s'.status && t !in s'.finished
      ensures Somewhere(s', t)
    {
      if t != x {
        var p :| At(u, t, p);
        assert At(s', t, p);
      }
    }
  }

  lemma IntoFinished(u: State, s': State, x: Tid)
    requires Placed(u, Some(x))
    requires forall j | 0 <= j < |u.sems| :: x !in u.sems[j].woken
    requires s' == u.(toDestroy := Some(x), finished := u.finished + {x}, status := u.status[x := Blocked])
    ensures Placed(s', None)
  {
    forall t, p
      ensures At(s', t, p) <==> At(u, t, p)
    {
    }
    assert forall p :: !At(u, x, p);
    forall t | t in s'.status && t !in s'.finished
      ensures Somewhere(s', t)
    {
      var p :| At(u, t, p);
      assert At(s', t, p);
    }
  }

  /** Taking the first thread off a semaphore's queue leaves it, alone, in no place. */
  lemma OffQueue(s: State, u: State, k: nat)
    requires Placed(s, None) && k < |s.sems| && s.sems[k].queue != []
    requires |u.sems| == |s.sems| && u == s.(sems := u.sems)
    requires forall j | 0 <= j < |s.sems| && j != k :: u.sems[j] == s.sems[j]
    requires u.sems[k].queue == s.sems[k].queue[1..]
    requires u.sems[k].woken == s.sems[k].woken + {s.sems[k].queue[0]}
    ensures Placed(u, Some(s.sems[k].queue[0]))
  {
    var x := s.sems[k].queue[0];
    assert At(s, x, Queue(k));
    assert s.sems[k].queue == [x] + u.sems[k].queue;
    assert NoDuplicates(s.sems[k].queue) && x !in u.sems[k].queue;
    forall t, p | At(u, t, p)
      ensures At(s, t, p) && t != x
    {
      assert At(s, t, p);
      assert t == x ==> p == Queue(k);
    }
    forall t, p | At(s, t, p) && t != x
      ensures At(u, t, p)
    {
    }
    forall t | t in u.status && t !in u.finished && t != x
      ensures Somewhere(u, t)
    {
      var p :| At(s, t, p);
      assert At(u, t, p);
    }
  }

  /** Giving the processor to the head of the ready list. */
  lemma OntoCpu(u: State)
    requires Placed(u, None) && u.idle && u.ready != []
    ensures Placed(Dispatched(u), None)
  {
    var s', x := Dispatched(u), u.ready[0];
    assert u.ready == [x] + s'.ready;
    assert At(u, x, ReadyList) && x !in s'.ready;
    forall t, p | At(s', t, p)
      ensures if t == x then p == Cpu else At(u, t, p)
    {
      assert p != Cpu ==> At(u, t, p);
    }
    forall t, p | At(u, t, p) && t != x
      ensures At(s', t, p)
    {
    }
    assert At(s', x, Cpu);
    forall t | t in s'.status && t !in s'.finished
      ensures Somewhere(s', t)
    {
      if t != x {
        var p :| At(u, t, p);
        assert At(s', t, p);
      }
    }
  }

  /** Two states that differ only in semaphore values, history and shrunken woken sets place alike. */
  lemma SamePlaces(s: State, s': State)
    requires Placed(s, None)
    requires |s'.sems| == |s.sems| && s' == s.(sems := s'.sems)
    requires forall k | 0 <= k < |s.sems| :: s'.sems[k].queue == s.sems[k].queue && s'.sems[k].woken <= s.sems[k].woken
    ensures Placed(s', None)
  {
    forall t, p
      ensures At(s', t, p) <==> At(s, t, p)
    {
    }
    forall t | t in s'.status && t !in s'.finished
      ensures Somewhere(s', t)
    {
      var p :| At(s, t, p);
      assert At(s', t, p);
    }
  }

  /** Blocking on a semaphore, then sleeping. */
  lemma PlacedBlock(s: State, k: nat)
    requires Placed(s, None) && !s.idle && !MustRetest(s) && k < |s.sems|
    ensures Placed(Slept(s.(sems := s.sems[k := s.sems[k].(queue := s.sems[k].queue + [s.current])])), None)
  {
    var u := s.(idle := true);
    OffCpu(s);
    var w := u.(sems := u.sems[k := u.sems[k].(queue := u.sems[k].queue + [s.current])],
                status := u.status[s.current := Blocked]);
    IntoQueue(u, w, s.current, k);
    if w.ready != [] { OntoCpu(w); }
  }

  lemma PlacedAttempt(s: State, k: nat)
    requires Placed(s, None) && !s.idle && !MustRetest(s) && k < |s.sems|
    ensures Placed(Attempted(s, k), None)
  {
    if s.sems[k].value == 0 {
      PlacedBlock(s, k);
    } else {
      SamePlaces(s, Attempted(s, k));
    }
  }

  lemma PlacedRetest(s: State, k: nat)
    requires Placed(s, None) && Enabled(s, Retest(k))
    ensures Placed(Next(s, Retest(k)), None)
  {
    var s0 := s.(sems := s.sems[k := s.sems[k].(woken := s.sems[k].woken - {s.current})]);
    SamePlaces(s, s0);
    PlacedAttempt(s0, k);
  }

  lemma PlacedSignal(s: State, k: nat)
    requires Placed(s, None) && k < |s.sems|
    ensures Placed(Signalled(s, k), None)
  {
    hide Placed;
    var m := s.sems[k];
    if m.queue == [] {
      SamePlaces(s, Signalled(s, k));
    } else {
      var x := m.queue[0];
      var u := s.(sems := s.sems[k := Raised(m)]);
      OffQueue(s, u, k);
      IntoReady(u, x);
    }
  }

  lemma PlacedYield(s: State)
    requires Placed(s, None) && Enabled(s, Yield) && s.ready != []
    ensures Placed(Yielded(s), None)
  {
    var u := s.(idle := true);
    OffCpu(s);
    IntoReady(u, s.current);
    OntoCpu(MadeReady(u, s.current));
    assert Dispatched(MadeReady(u, s.current)) == Dispatched(MadeReady(s, s.current));
  }

  lemma PlacedFork(s: State, t: Tid)
    requires Placed(s, None) && Enabled(s, Fork(t))
    ensures Placed(MadeReady(s, t), None)
  {
    assert Placed(s, Some(t)) by {
      assert forall k | 0 <= k < |s.sems| :: t in s.sems[k].woken ==> At(s, t, Cpu) || At(s, t, ReadyList);
    }
    IntoReady(s, t);
  }

  lemma PlacedFinish(s: State)
    requires Placed(s, None) && Enabled(s, Finish)
    ensures Placed(Next(s, Finish), None)
  {
    var u := s.(idle := true);
    OffCpu(s);
    var w := u.(toDestroy := Some(s.current), finished := u.finished + {s.current},
                status := u.status[s.current := Blocked]);
    IntoFinished(u, w, s.current);
    if w.ready != [] { OntoCpu(w); }
  }

  /** Every step leaves every live thread in exactly one place, with the status of that place. */
  lemma PlacedStep(s: State, step: Step)
    requires Placed(s, None) && Enabled(s, step)
    ensures Placed(Next(s, step), None)
  {
    match step
    case Fork(t) => PlacedFork(s, t);
    case Yield => if s.ready != [] { PlacedYield(s); }
    case P(k) => PlacedAttempt(s, k);
    case Retest(k) => PlacedRetest(s, k);
    case V(k) => PlacedSignal(s, k);
    case Finish => PlacedFinish(s);
    case Resume => OntoCpu(s);
  }

  // ---------------------------------------------------------------------------
  // Whole runs

  ghost predicate Good(s: State) { Placed(s, None) && SemsGood(s) }

  lemma InitialIsGood(initials: seq<int>)
    ensures Good(Initial(initials))
  {
    var s := Initial(initials);
    assert At(s, 0, Cpu);
    forall t, p | At(s, t, p)
      ensures t == 0 && p == Cpu
    {
    }
  }

  lemma QueuedIsNotWoken(s: State)
    requires Placed(s, None)
    ensures forall k | 0 <= k < |s.sems| && s.sems[k].queue != [] :: s.sems[k].queue[0] !in s.sems[k].woken
  {
    forall k | 0 <= k < |s.sems| && s.sems[k].queue != []
      ensures s.sems[k].queue[0] !in s.sems[k].woken
    {
      var x := s.sems[k].queue[0];
      assert At(s, x, Queue(k));
      assert !At(s, x, Cpu) && !At(s, x, ReadyList);
    }
  }

  lemma GoodStep(s: State, step: Step)
    requires Good(s) && Enabled(s, step)
    ensures Good(Next(s, step))
  {
    QueuedIsNotWoken(s);
    SemsGoodStep(s, step);
    PlacedStep(s, step);
  }

  /** Any run from a good state ends in a good state. */
  lemma {:induction false} RunKeepsGood(s: State, steps: seq<Step>)
    requires Good(s) && After(s, steps).Some?
    ensures Good(After(s, steps).value)
  {
    hide Good, Next, Enabled;
    if steps != [] {
      RunKeepsGood(s, steps[..|steps| - 1]);
      GoodStep(After(s, steps[..|steps| - 1]).value, steps[|steps| - 1]);
    }
  }

  lemma RunIsGood(initials: seq<int>, steps: seq<Step>)
    requires After(Initial(initials), steps).Some?
    ensures Good(After(Initial(initials), steps).value)
  {
    InitialIsGood(initials);
    RunKeepsGood(Initial(initials), steps);
  }

  lemma {:induction false} InitialsKept(initials: seq<int>, steps: seq<Step>)
    requires After(Initial(initials), steps).Some?
    ensures |After(Initial(initials), steps).value.sems| == |initials|
    ensures forall k | 0 <= k < |initials| :: After(Initial(initials), steps).value.sems[k].initial == initials[k]
  {
    if steps != [] {
      InitialsKept(initials, steps[..|steps| - 1]);
    }
  }

  /** In every reachable state, a semaphore that threads wait on has no more value than threads it has
      woken that have yet to re-test; its value is the initial one plus Vs minus Ps, and never negative
      unless it started so. */
  lemma NoLostWakeup(initials: seq<int>, steps: seq<Step>, k: nat)
    requires After(Initial(initials), steps).Some? && k < |initials|
    ensures k < |After(Initial(initials), steps).value.sems|
    ensures var m := After(Initial(initials), steps).value.sems[k];
            && (m.queue != [] ==> m.value <= |m.woken|)
            && m.value == initials[k] + m.vs - m.ps
            && (initials[k] >= 0 ==> m.value >= 0)
  {
    RunIsGood(initials, steps);
    InitialsKept(initials, steps);
    assert SemGood(After(Initial(initials), steps).value.sems[k]);
  }

  /** In every reachable state, every live thread is in exactly one place, once, with matching status. */
  lemma ExactlyOnePlace(initials: seq<int>, steps: seq<Step>, t: Tid)
    requires After(Initial(initials), steps).Some?
    ensures var s := After(Initial(initials), steps).value;
            && ListsGood(s)
            && (t in s.status && t !in s.finished ==>
                  exists p :: At(s, t, p) && s.status[t] == StatusAt(p) && forall q :: At(s, t, q) ==> q == p)
            && (t in s.finished ==> !Somewhere(s, t))
  {
    RunIsGood(initials, steps);
    var s := After(Initial(initials), steps).value;
    if t in s.status && t !in s.finished {
      assert Somewhere(s, t);
      var p :| At(s, t, p);
      assert s.status[t] == StatusAt(p);
    }
  }

  // ---------------------------------------------------------------------------
  // First come, first served

  /** A step without a dispatch keeps positions; a step with one moves everyone up by one. */
  lemma PositionStep(s: State, step: Step, i: nat)
    requires Enabled(s, step) && i < |s.ready|
    ensures var s' := Next(s, step);
            || (s'.dispatches == s.dispatches && i < |s'.ready| && s'.ready[i] == s.ready[i])
            || (s'.dispatches == s.dispatches + 1 && i > 0 && i - 1 < |s'.ready| && s'.ready[i - 1] == s.ready[i])
            || (s'.dispatches == s.dispatches + 1 && i == 0 && s'.current == s.ready[0] && !s'.idle)
  {
  }

  lemma {:induction false} DispatchesGrow(s: State, steps: seq<Step>)
    requires After(s, steps).Some?
    ensures After(s, steps).value.dispatches >= s.dispatches
  {
    if steps != [] {
      DispatchesGrow(s, steps[..|steps| - 1]);
    }
  }

  /** From any state and along any run, a thread at position `i` of the ready list has moved up by the
      number of dispatches so far, and the dispatch number `i + 1` gives it the processor. */
  lemma {:induction false} DispatchedInTurn(s: State, steps: seq<Step>, i: nat)
    requires After(s, steps).Some? && i < |s.ready|
    ensures var s' := After(s, steps).value;
            var d := s'.dispatches - s.dispatches;
            d <= i ==> i - d < |s'.ready| && s'.ready[i - d] == s.ready[i]
    ensures var s' := After(s, steps).value;
            steps != [] && s'.dispatches - s.dispatches == i + 1
            && After(s, steps[..|steps| - 1]).value.dispatches - s.dispatches == i
            ==> s'.current == s.ready[i] && !s'.idle
  {
    hide Next, Enabled;
    if steps != [] {
      var before := After(s, steps[..|steps| - 1]).value;
      DispatchedInTurn(s, steps[..|steps| - 1], i);
      DispatchesGrow(s, steps[..|steps| - 1]);
      var d := before.dispatches - s.dispatches;
      if d <= i {
        PositionStep(before, steps[|steps| - 1], i - d);
      } else {
        DispatchesGrow(before, [steps[|steps| - 1]]);
      }
    }
  }

  lemma {:induction false} AfterPrefix(s: State, steps: seq<Step>, n: nat)
    requires After(s, steps).Some? && n <= |steps|
    ensures After(s, steps[..n]).Some?
  {
    hide Next, Enabled;
    if n < |steps| {
      AfterPrefix(s, steps[..|steps| - 1], n);
      assert steps[..|steps| - 1][..n] == steps[..n];
    } else {
      assert steps[..n] == steps;
    }
  }
}
