/** The kernel's own code, which changes its lists and fields in place: threads/thread.cc,
    threads/scheduler.cc and threads/synch.cc over the linked lists of threads/list.cc. */
module Scheduling {
  import opened Common
  import opened Lists
  import opened K = Kernel

  /** A semaphore's value, with the history needed to speak about it; its queue is a linked list. */
  datatype Gauge = Gauge(value: int, initial: int, ps: nat, vs: nat, woken: set<Tid>)

  ghost function SemOf(g: Gauge, queue: seq<Tid>): Sem {
    Sem(g.value, queue, g.initial, g.ps, g.vs, g.woken)
  }

  ghost function SemsOf(gs: seq<Gauge>, queues: seq<seq<Tid>>): (r: seq<Sem>)
    requires |gs| == |queues|
    ensures |r| == |gs|
  {
    seq(|gs|, k requires 0 <= k < |gs| => SemOf(gs[k], queues[k]))
  }

  lemma SemsOfUpdate(gs: seq<Gauge>, queues: seq<seq<Tid>>, k: nat, g: Gauge, queue: seq<Tid>)
    requires |gs| == |queues| && k < |gs|
    ensures SemsOf(gs[k := g], queues[k := queue]) == SemsOf(gs, queues)[k := SemOf(g, queue)]
  {
  }

  class Kernel {
    var currentThread: Tid
    var idle: bool
    var status: map<Tid, Status>
    var threadToBeDestroyed: Option<Tid>
    var started: set<Tid>
    ghost var finished: set<Tid>
    ghost var dispatches: nat

    /** The ready list, and then the queue of each semaphore. */
    const lists: seq<List<Tid>>
    var gauges: seq<Gauge>

    /** What the lists hold, and the objects that each is made of and all are made of. */
    ghost var held: seq<seq<Tid>>
    ghost var owns: seq<set<object>>
    ghost var repr: set<object>

    ghost predicate Valid()
      reads this, repr
    {
      |gauges| + 1 == |held| == |lists| && this !in repr && AllHold(lists, held, owns, repr)
    }

    /** The state of the step model that the fields and lists stand for. */
    ghost function Snapshot(): State
      requires |gauges| + 1 == |held|
      reads this
    {
      State(currentThread, idle, held[0], status, SemsOf(gauges, held[1..]), threadToBeDestroyed, started, finished,
            dispatches)
    }

    constructor (initials: seq<int>)
      ensures Valid() && fresh(repr) && Snapshot() == Initial(initials)
    {
      currentThread, idle, status := 0, false, map[0 := Running];
      gauges := seq(|initials|, i requires 0 <= i < |initials| => Gauge(initials[i], initials[i], 0, 0, {}));
      threadToBeDestroyed, started, finished, dispatches := None, {0}, {}, 0;
      var empty, each, all := EmptyLists(|initials| + 1);
      lists, owns, repr := empty, each, all;
      held := seq(|initials| + 1, k => []);
    }

    method ReadyToRun(thread: Tid)
      requires Valid()
      modifies this, repr
      ensures Valid() && fresh(repr - old(repr))
      ensures Snapshot() == MadeReady(old(Snapshot()), thread)
    {
      hide AllHold;
      status := status[thread := Ready];
      owns, repr := Enqueue(lists[0], thread, lists, 0, held, owns, repr);
      held := held[0 := held[0] + [thread]];
      assert held[1..] == old(held[1..]);
    }

    method FindNextToRun() returns (next: Option<Tid>)
      requires Valid()
      modifies this`held, repr
      ensures Valid() && repr == old(repr)
      ensures old(held)[0] == [] ==> next == None && held == old(held)
      ensures old(held)[0] != [] ==> next == Some(old(held)[0][0]) && held == old(held)[0 := old(held)[0][1..]]
    {
      hide AllHold;
      next := Dequeue(lists[0], lists, 0, held, owns, repr);
      if next.Some? {
        held := held[0 := held[0][1..]];
      }
    }

    /** The switch, and what the new thread does first when it has run before. */
    method Run(nextThread: Tid)
      requires Valid()
      modifies this`currentThread, this`idle, this`status, this`dispatches, this`threadToBeDestroyed, this`started
      ensures Valid()
      ensures Snapshot() == Dispatched(old(Snapshot()).(ready := [nextThread] + old(held)[0]))
    {
      hide AllHold;
      currentThread := nextThread;
      idle := false;
      status := status[nextThread := Running];
      dispatches := dispatches + 1;
      if nextThread in started {
        if threadToBeDestroyed.Some? {
          status := status - {threadToBeDestroyed.value};
          threadToBeDestroyed := None;
        }
      }
      started := started + {nextThread};
    }

    method ForkThread(thread: Tid)
      requires Valid()
      modifies this, repr
      ensures Valid() && fresh(repr - old(repr))
      ensures Snapshot() == MadeReady(old(Snapshot()), thread)
    {
      hide AllHold, MadeReady;
      ReadyToRun(thread);
    }

    method YieldCpu()
      requires Valid()
      modifies this, repr
      ensures Valid() && fresh(repr - old(repr))
      ensures Snapshot() == if old(held)[0] == [] then old(Snapshot()) else Yielded(old(Snapshot()))
    {
      hide AllHold, SemsOf;
      ghost var s := Snapshot();
      var nextThread := FindNextToRun();
      if nextThread.Some? {
        assert held[1..] == old(held)[1..];
        ReadyToRun(currentThread);
        assert MadeReady(s, s.current).ready == [nextThread.value] + held[0];
        Run(nextThread.value);
      }
    }

    method Sleep()
      requires Valid()
      modifies this, repr
      ensures Valid() && fresh(repr - old(repr))
      ensures Snapshot() == Slept(old(Snapshot()))
    {
      hide AllHold, SemsOf;
      status := status[currentThread := Blocked];
      var nextThread := FindNextToRun();
      if nextThread.Some? {
        assert held[1..] == old(held)[1..] && old(held)[0] == [nextThread.value] + held[0];
        Run(nextThread.value);
      } else {
        idle := true;
      }
    }

    /** The rest of Sleep's loop, once an interrupt has made some thread ready. */
    method WakeFromIdle()
      requires Valid() && held[0] != []
      modifies this, repr
      ensures Valid() && fresh(repr - old(repr))
      ensures Snapshot() == Dispatched(old(Snapshot()))
    {
      hide AllHold, SemsOf;
      var nextThread := FindNextToRun();
      assert held[1..] == old(held)[1..] && old(held)[0] == [nextThread.value] + held[0];
      Run(nextThread.value);
    }

    method FinishThread()
      requires Valid()
      modifies this, repr
      ensures Valid() && fresh(repr - old(repr))
      ensures var s := old(Snapshot());
              Snapshot() == Slept(s.(toDestroy := Some(s.current), finished := s.finished + {s.current}))
    {
      hide AllHold, SemsOf, Slept;
      threadToBeDestroyed := Some(currentThread);
      finished := finished + {currentThread};
      Sleep();
    }

    /** One pass of the loop in P. */
    method TryP(k: nat)
      requires Valid() && k < |gauges|
      modifies this, repr
      ensures Valid() && fresh(repr - old(repr))
      ensures Snapshot() == Attempted(old(Snapshot()), k)
    {
      hide AllHold, Slept;
      if gauges[k].value == 0 {
        JoinQueue(k);
        Sleep();
      } else {
        SetGauge(k, gauges[k].(value := gauges[k].value - 1, ps := gauges[k].ps + 1));
      }
    }

    /** A semaphore's value and history change; its queue does not. */
    method SetGauge(k: nat, g: Gauge)
      requires Valid() && k < |gauges|
      modifies this`gauges
      ensures Valid() && |gauges| == |old(gauges)|
      ensures var s := old(Snapshot()); Snapshot() == s.(sems := s.sems[k := SemOf(g, s.sems[k].queue)])
    {
      hide AllHold;
      SemsOfUpdate(gauges, held[1..], k, g, held[k + 1]);
      assert held[1..][k := held[k + 1]] == held[1..];
      gauges := gauges[k := g];
    }

    /** The current thread goes to the back of a semaphore's queue. */
    method JoinQueue(k: nat)
      requires Valid() && k < |gauges|
      modifies this`held, this`owns, this`repr, repr
      ensures Valid() && fresh(repr - old(repr))
      ensures var s := old(Snapshot());
              Snapshot() == s.(sems := s.sems[k := s.sems[k].(queue := s.sems[k].queue + [s.current])])
    {
      hide AllHold;
      SemsOfUpdate(gauges, held[1..], k, gauges[k], held[k + 1] + [currentThread]);
      owns, repr := Enqueue(lists[k + 1], currentThread, lists, k + 1, held, owns, repr);
      held := held[k + 1 := held[k + 1] + [currentThread]];
      assert held[1..] == old(held)[1..][k := held[k + 1]] && gauges[k := gauges[k]] == gauges;
    }

    /** Takes the first thread off a semaphore's queue. */
    method LeaveQueue(k: nat) returns (thread: Option<Tid>)
      requires Valid() && k < |gauges|
      modifies this`held, repr
      ensures Valid() && repr == old(repr)
      ensures var s := old(Snapshot()); var queue := s.sems[k].queue;
              if queue == [] then thread == None && Snapshot() == s
              else thread == Some(queue[0]) && Snapshot() == s.(sems := s.sems[k := s.sems[k].(queue := queue[1..])])
    {
      hide AllHold;
      thread := Dequeue(lists[k + 1], lists, k + 1, held, owns, repr);
      if thread.Some? {
        SemsOfUpdate(gauges, held[1..], k, gauges[k], held[k + 1][1..]);
        held := held[k + 1 := held[k + 1][1..]];
        assert held[1..] == old(held)[1..][k := held[k + 1]] && gauges[k := gauges[k]] == gauges;
      }
    }

    method SignalV(k: nat)
      requires Valid() && k < |gauges|
      modifies this, repr
      ensures Valid() && fresh(repr - old(repr))
      ensures Snapshot() == Signalled(old(Snapshot()), k)
    {
      hide AllHold;
      var g := gauges[k].(value := gauges[k].value + 1, vs := gauges[k].vs + 1);
      var thread := LeaveQueue(k);
      if thread.Some? {
        g := g.(woken := g.woken + {thread.value});
        ReadyToRun(thread.value);
      }
      SetGauge(k, g);
    }

    /** Whatever the running thread, or an interrupt handler, asks for: the code takes exactly the
        step of the model. */
    method Take(step: Step)
      requires Valid() && Enabled(Snapshot(), step)
      modifies this, repr
      ensures Valid() && fresh(repr - old(repr))
      ensures Snapshot() == Next(old(Snapshot()), step)
    {
      hide AllHold, MustRetest, Attempted, Signalled, Slept, Dispatched, MadeReady, Yielded;
      match step
      case Fork(t) => ForkThread(t);
      case Yield => YieldCpu();
      case P(k) => TryP(k);
      case Retest(k) =>
        SetGauge(k, gauges[k].(woken := gauges[k].woken - {currentThread}));
        TryP(k);
      case V(k) => SignalV(k);
      case Finish => FinishThread();
      case Resume => WakeFromIdle();
    }
  }

  /** Any run of the kernel's code from start-up is a run of the step model, and keeps its invariants. */
  method RunKernel(initials: seq<int>, steps: seq<Step>) returns (k: Kernel)
    requires After(Initial(initials), steps).Some?
    ensures k.Valid() && Some(k.Snapshot()) == After(Initial(initials), steps) && Good(k.Snapshot())
  {
    hide Good, Next, Enabled, AllHold;
    k := new Kernel(initials);
    for n := 0 to |steps|
      invariant k.Valid() && fresh(k) && fresh(k.repr)
      invariant Some(k.Snapshot()) == After(Initial(initials), steps[..n])
    {
      AfterPrefix(Initial(initials), steps, n + 1);
      assert steps[..n + 1][..n] == steps[..n];
      k.Take(steps[n]);
    }
    assert steps[..|steps|] == steps;
    RunIsGood(initials, steps);
  }
}
