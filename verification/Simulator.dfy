/** The code of machine/interrupt.cc, which changes its fields, its clock and its linked list in place, proved
    to do exactly what the value-level simulator of `Interrupts` does. */
module Simulator {
  import opened Common
  import opened Lists
  import opened Interrupts

  class Interrupt {
    var level: IntStatus
    var status: MachineStatus
    var inHandler: bool
    var yieldOnReturn: bool

    /** The interrupts still to come, in a linked list sorted by time. */
    const pending: List<Pending>

    // the clock, kept in the global statistics
    var totalTicks: nat
    var idleTicks: nat
    var systemTicks: nat
    var userTicks: nat

    const script: Script

    /** What the pending list stores, and the objects it is made of. */
    ghost var queue: seq<Item<Pending>>
    ghost var own: set<object>

    ghost var scheduled: seq<Pending>
    var nextSerial: nat
    ghost var fired: seq<Firing>
    var firings: nat

    ghost predicate Valid()
      reads this, own
    {
      && this !in own && Stores(pending, queue, own)
      && nextSerial == |scheduled| && firings == |fired|
    }

    /** The value-level simulator that the fields and the list stand for. */
    ghost function Snapshot(): Sim
      reads this
    {
      Sim(level, status, inHandler, yieldOnReturn, queue, totalTicks, idleTicks, systemTicks, userTicks, scheduled,
          fired)
    }

    constructor (script: Script)
      ensures Valid() && fresh(own) && this.script == script
      ensures Snapshot() == Initial() && Good(Snapshot())
    {
      this.script := script;
      level, status, inHandler, yieldOnReturn := IntOff, SystemMode, false, false;
      var list := new List<Pending>();
      pending, queue, own := list, [], {list};
      totalTicks, idleTicks, systemTicks, userTicks := 0, 0, 0, 0;
      scheduled, fired, nextSerial, firings := [], [], 0, 0;
    }

    /** Files an interrupt `fromNow` ticks ahead. */
    method Schedule(handler: int, arg: int, fromNow: Delay, kind: IntType)
      requires Valid()
      modifies this, own
      ensures Valid() && fresh(own - old(own))
      ensures Snapshot() == Filed(old(Snapshot()), handler, arg, fromNow, kind)
    {
      hide Stores, Inserted;
      var p := Pending(nextSerial, handler, arg, totalTicks + fromNow, kind);
      own := InsertInto(pending, p, p.when, queue, own);
      queue := Inserted(queue, Item(p.when, p));
      scheduled := scheduled + [p];
      nextSerial := nextSerial + 1;
    }

    method YieldOnReturn()
      requires Valid() && inHandler
      modifies this`yieldOnReturn
      ensures Valid() && Snapshot() == Acted(old(Snapshot()), AskYield)
    {
      hide Stores;
      yieldOnReturn := true;
    }

    /** Runs a handler's actions. */
    method RunHandler(actions: seq<Action>)
      requires Valid() && inHandler
      modifies this, own
      ensures Valid() && fresh(own - old(own))
      ensures Snapshot() == Handled(old(Snapshot()), actions)
    {
      hide Stores, Filed;
      ghost var s := Snapshot();
      for k := 0 to |actions|
        invariant Valid() && fresh(own - old(own)) && inHandler
        invariant Snapshot() == Handled(s, actions[..k])
      {
        assert actions[..k + 1][..k] == actions[..k];
        HandledUsesNone(s, actions[..k + 1]);
        match actions[k]
        case ScheduleLater(handler, arg, fromNow, kind) =>
          Schedule(handler, arg, fromNow, kind);
        case AskYield =>
          YieldOnReturn();
      }
      assert actions[..|actions|] == actions;
    }

    /** Fires the interrupt at the head of the list if it is due, moving the clock up to it first
        when asked to; in idle mode a timer with nothing behind it is put back instead. */
    method CheckIfDue(advanceClock: bool) returns (r: bool)
      requires Valid() && level == IntOff && !inHandler
      modifies this, own
      ensures Valid() && fresh(own - old(own))
      ensures (Snapshot(), r) == Checked(old(Snapshot()), script, advanceClock)
    {
      hide Stores, Inserted, FiredHead;
      ghost var s := Snapshot();
      var front := TakeFrom(pending, queue, own);
      if front == None {
        return false;
      }
      var toOccur, when := front.value.item, front.value.key;
      queue := queue[1..];
      if advanceClock && when > totalTicks {
        AdvanceTo(when, s);
      } else if when > totalTicks {
        Reinsert(when, toOccur);
        return false;
      }
      ghost var s1 := if advanceClock then MovedUp(s) else s;
      assert Snapshot() == s1.(pending := s.pending[1..]) && s1.pending == s.pending;
      var empty := IsEmpty();
      if status == IdleMode && toOccur.kind == TimerInt && empty {
        Reinsert(when, toOccur);
        return false;
      }
      Fire(toOccur, s1);
      return true;
    }

    /** Idle time passes until the head, already off the list, is due. */
    method AdvanceTo(when: nat, ghost s: Sim)
      requires Valid() && s.pending != [] && s.pending[0].key == when > totalTicks
      requires Snapshot() == s.(pending := s.pending[1..])
      modifies this`totalTicks, this`idleTicks
      ensures Valid() && Snapshot() == MovedUp(s).(pending := s.pending[1..])
    {
      hide Stores;
      idleTicks := idleTicks + (when - totalTicks);
      totalTicks := when;
    }

    /** Is nothing pending? */
    method IsEmpty() returns (empty: bool)
      requires Valid()
      ensures empty <==> queue == []
    {
      empty := pending.IsEmpty();
    }

    /** Puts an interrupt just taken off the list back. */
    method Reinsert(when: int, toOccur: Pending)
      requires Valid()
      modifies this`queue, this`own, own
      ensures Valid() && fresh(own - old(own))
      ensures Snapshot() == old(Snapshot()).(pending := Inserted(old(queue), Item(when, toOccur)))
    {
      hide Stores, Inserted;
      own := InsertInto(pending, toOccur, when, queue, own);
      queue := Inserted(queue, Item(when, toOccur));
    }

    /** Logs the firing and runs the handler in system mode; `s` is the state before the head was taken. */
    method Fire(toOccur: Pending, ghost s: Sim)
      requires Valid() && level == IntOff && !inHandler
      requires s.pending != [] && s.pending[0].item == toOccur && Snapshot() == s.(pending := s.pending[1..])
      modifies this, own
      ensures Valid() && fresh(own - old(own))
      ensures Snapshot() == FiredHead(s, script)
    {
      hide Stores, Handled, Entered;
      var old_status := status;
      Enter(toOccur, s);
      RunHandler(script(firings - 1));
      HandledUsesNone(Entered(s), script(|s.fired|));
      status, inHandler := old_status, false;
    }

    method Enter(toOccur: Pending, ghost s: Sim)
      requires Valid()
      requires s.pending != [] && s.pending[0].item == toOccur && Snapshot() == s.(pending := s.pending[1..])
      modifies this`fired, this`firings, this`inHandler, this`status
      ensures Valid() && Snapshot() == Entered(s) && inHandler && firings == |s.fired| + 1
    {
      hide Stores;
      fired := fired + [Firing(toOccur, totalTicks)];
      firings := firings + 1;
      inHandler, status := true, SystemMode;
    }

    /** The drain loop, which ends although handlers schedule new interrupts. */
    method Drain()
      requires Valid() && level == IntOff && !inHandler
      modifies this, own
      ensures Valid() && fresh(own - old(own))
      ensures Snapshot() == DrainedSim(old(Snapshot()), script)
    {
      hide Stores, Checked, DueCount;
      ghost var s := Snapshot();
      var more := true;
      while more
        invariant Valid() && fresh(own - old(own)) && level == IntOff && !inHandler
        invariant DrainedSim(s, script) == if more then DrainedSim(Snapshot(), script) else Snapshot()
        decreases DueCount(queue, totalTicks), more
      {
        CheckedKeeps(Snapshot(), script, false);
        if Checked(Snapshot(), script, false).1 { CheckedUsesOne(Snapshot(), script); }
        else { CheckedStops(Snapshot(), script); }
        more := CheckIfDue(false);
      }
    }

    method AdvanceClock()
      requires Valid()
      modifies this`totalTicks, this`systemTicks, this`userTicks
      ensures Valid() && Snapshot() == Clocked(old(Snapshot()))
    {
      hide Stores;
      if status == SystemMode {
        totalTicks := totalTicks + SYSTEM_TICK;
        systemTicks := systemTicks + SYSTEM_TICK;
      } else {
        totalTicks := totalTicks + USER_TICK;
        userTicks := userTicks + USER_TICK;
      }
    }

    /** Advances time by one tick of the current mode and fires everything due. */
    method OneTick()
      requires Valid() && level == IntOn && !inHandler
      modifies this, own
      ensures Valid() && fresh(own - old(own))
      ensures Snapshot() == Ticked(old(Snapshot()), script) && !inHandler
    {
      hide Stores, DrainedSim, Clocked;
      ghost var s := Snapshot();
      var old_status := status;
      AdvanceClock();
      level := IntOff;
      ClockedKeeps(s);
      DrainedKeeps(Snapshot(), script);
      Drain();
      level := IntOn;
      if yieldOnReturn {
        yieldOnReturn := false;
        status := SystemMode;
        // here the current thread yields
        status := old_status;
      }
    }

    /** Rolls the clock to the next interrupt and fires what is due then, or halts. */
    method Idle() returns (halted: bool)
      requires Valid() && level == IntOff && !inHandler
      modifies this, own
      ensures Valid() && fresh(own - old(own))
      ensures (Snapshot(), halted) == Idled(old(Snapshot()), script) && !inHandler && level == IntOff
    {
      hide Stores, DrainedSim, Checked;
      status := IdleMode;
      CheckedKeeps(Snapshot(), script, true);
      var any := CheckIfDue(true);
      if any {
        DrainedKeeps(Snapshot(), script);
        Drain();
        yieldOnReturn := false;
        status := SystemMode;
        return false;
      }
      return true;
    }

    /** Turning interrupts on from off lets one tick pass; a handler may only turn them off. */
    method SetLevel(now: IntStatus) returns (was: IntStatus)
      requires Valid() && (now == IntOn ==> !inHandler)
      modifies this, own
      ensures Valid() && fresh(own - old(own))
      ensures was == old(level) && Snapshot() == Leveled(old(Snapshot()), now, script) && inHandler == old(inHandler)
    {
      hide Stores, Ticked;
      was := level;
      level := now;
      if now == IntOn && was == IntOff {
        OneTick();
      }
    }

    /** Whatever the rest of the machine asks for: the code takes exactly the step of the value level. */
    method Take(step: Step) returns (halted: bool)
      requires Valid() && !inHandler
      modifies this, own
      ensures Valid() && fresh(own - old(own)) && !inHandler
      ensures (Snapshot(), halted) == Stepped(old(Snapshot()), step, script)
    {
      hide Stores, Ticked, Idled, Leveled, Filed;
      halted := false;
      match step
      case UserInstruction =>
        if level == IntOn { OneTick(); }
      case Level(now) =>
        var _ := SetLevel(now);
      case GoIdle =>
        if level == IntOff { halted := Idle(); }
      case Mode(mode) =>
        status := mode;
      case Device(handler, arg, fromNow, kind) =>
        FiledKeeps(Snapshot(), handler, arg, fromNow, kind);
        Schedule(handler, arg, fromNow, kind);
    }
  }

  // ---------------------------------------------------------------------------
  // What the parts of a step leave alone

  lemma FiledKeeps(s: Sim, handler: int, arg: int, fromNow: Delay, kind: IntType)
    ensures Filed(s, handler, arg, fromNow, kind).inHandler == s.inHandler
  {
  }

  lemma ClockedKeeps(s: Sim)
    ensures var c := Clocked(s); c.inHandler == s.inHandler && c.status == s.status && c.level == s.level
  {
  }

  lemma CheckedKeeps(s: Sim, script: Script, advanceClock: bool)
    requires !s.inHandler
    ensures var s1 := Checked(s, script, advanceClock).0; !s1.inHandler && s1.level == s.level && s1.status == s.status
  {
    hide Handled, Inserted, LoneTimer;
    if s.pending != [] {
      var s1 := if advanceClock then MovedUp(s) else s;
      var s2 := Entered(s1);
      HandledUsesNone(s2, script(|s.fired|));
    }
  }

  /** The check that ends the loop leaves as many due as it found. */
  lemma CheckedStops(s: Sim, script: Script)
    requires !Checked(s, script, false).1
    ensures var s1 := Checked(s, script, false).0;
            DueCount(s1.pending, s1.total) == DueCount(s.pending, s.total)
  {
    if s.pending != [] {
      DueCountInserted(s.pending[1..], s.pending[0], s.total);
    }
  }

  lemma {:induction false} DrainedKeeps(s: Sim, script: Script)
    requires !s.inHandler
    ensures var d := DrainedSim(s, script); !d.inHandler && d.level == s.level && d.status == s.status
    decreases DueCount(s.pending, s.total)
  {
    hide Checked, DueCount;
    CheckedKeeps(s, script, false);
    if Checked(s, script, false).1 {
      CheckedUsesOne(s, script);
      DrainedKeeps(Checked(s, script, false).0, script);
    }
  }

  /** Any sequence of requests to the code, up to a halt, is the run of the value level; so from a good state
      nothing ever scheduled is lost, and everything fires once, in order and no earlier than its time. */
  method Run(sim: Interrupt, steps: seq<Step>) returns (halted: bool)
    requires sim.Valid() && !sim.inHandler && Good(sim.Snapshot())
    modifies sim, sim.own
    ensures sim.Valid() && !sim.inHandler
    ensures (sim.Snapshot(), halted) == RunSim(old(sim.Snapshot()), steps, sim.script)
    ensures Good(sim.Snapshot()) && Grows(old(sim.Snapshot()), sim.Snapshot())
    ensures forall p | p in sim.scheduled :: (p in Items(sim.pending.contents)) != (p in WhatFired(sim.fired))
    ensures GrewBy(old(sim.Snapshot()), sim.Snapshot(), sim.script, Devices(old(sim.Snapshot()), steps, sim.script))
  {
    hide Stores, Stepped, Good, Grows, GrewBy, Devices;
    ghost var s := sim.Snapshot();
    halted := false;
    for k := 0 to |steps|
      invariant sim.Valid() && !sim.inHandler && fresh(sim.own - old(sim.own))
      invariant (sim.Snapshot(), halted) == RunSim(s, steps[..k], sim.script)
    {
      assert steps[..k + 1][..k] == steps[..k];
      if !halted {
        halted := sim.Take(steps[k]);
      }
    }
    assert steps[..|steps|] == steps;
    GoodRun(s, steps, sim.script);
    RunFiresOnce(s, steps, sim.script);
    RunCounts(s, steps, sim.script);
    StoredQueue(sim);
  }

  lemma StoredQueue(sim: Interrupt)
    requires sim.Valid()
    ensures sim.pending.contents == sim.queue
  {
  }
}
