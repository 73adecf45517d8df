/** The interrupt simulator of machine/interrupt.cc: simulated time, the sorted list of
    interrupts still to come, and the loops that fire them. */
module Interrupts {
  import opened Common
  import opened Lists

  const USER_TICK := 1
  const SYSTEM_TICK := 10

  datatype IntStatus = IntOff | IntOn
  datatype MachineStatus = IdleMode | SystemMode | UserMode
  datatype IntType = TimerInt | DiskInt | ConsoleWriteInt | ConsoleReadInt | NetworkSendInt | NetworkRecvInt

  type Delay = d: int | d > 0 witness 1

  /** A scheduled interrupt; `serial` stands for the identity of the allocated object. */
  datatype Pending = Pending(serial: nat, handler: int, arg: int, when: int, kind: IntType)

  /** What a handler may do to this module: schedule a later interrupt, or ask for a yield. */
  datatype Action = ScheduleLater(handler: int, arg: int, fromNow: Delay, kind: IntType) | AskYield

  /** An interrupt that fired, and the time at which its handler ran. */
  datatype Firing = Firing(what: Pending, at: int)

  // ---------------------------------------------------------------------------
  // The history of a run

  /** How many pending interrupts are due at time `now`. */
  function DueCount(s: seq<Item<Pending>>, now: int): (n: nat)
    ensures n <= |s|
  {
    if s == [] then 0 else (if s[0].key <= now then 1 else 0) + DueCount(s[1..], now)
  }

  lemma {:induction false} DueCountConcat(a: seq<Item<Pending>>, b: seq<Item<Pending>>, now: int)
    ensures DueCount(a + b, now) == DueCount(a, now) + DueCount(b, now)
  {
    if a == [] {
      assert a + b == b;
    } else {
      DueCountConcat(a[1..], b, now);
      assert (a + b)[1..] == a[1..] + b;
    }
  }

  lemma DueCountInserted(s: seq<Item<Pending>>, x: Item<Pending>, now: int)
    ensures DueCount(Inserted(s, x), now) == DueCount(s, now) + (if x.key <= now then 1 else 0)
  {
    var p := Slot(s, x.key);
    DueCountConcat(s[..p], s[p..], now);
    DueCountConcat(s[..p] + [x], s[p..], now);
    DueCountConcat(s[..p], [x], now);
    assert s[..p] + s[p..] == s;
  }

  lemma {:induction false} NoneDue(s: seq<Item<Pending>>, now: int)
    requires Sorted(s) && (s == [] || s[0].key > now)
    ensures DueCount(s, now) == 0
  {
    if s != [] {
      assert s[1..] != [] ==> s[1..][0] == s[1];
      NoneDue(s[1..], now);
    }
  }

  function WhatFired(fs: seq<Firing>): (ps: seq<Pending>)
    ensures |ps| == |fs|
  {
    seq(|fs|, i requires 0 <= i < |fs| => fs[i].what)
  }

  /** Serial numbers count up, so no two scheduled interrupts are the same. */
  ghost predicate Numbered(scheduled: seq<Pending>) {
    forall i | 0 <= i < |scheduled| :: scheduled[i].serial == i
  }

  /** The pending list is ordered by time. */
  ghost predicate Ordered(pending: seq<Item<Pending>>) {
    Sorted(pending) && forall i | 0 <= i < |pending| :: pending[i].key == pending[i].item.when
  }

  /** Each firing came at or after its time and no later than `now`, and the log is in order of
      both the times asked for and the times fired. */
  ghost predicate InOrder(fired: seq<Firing>, now: int) {
    fired != [] ==>
      var f := fired[|fired| - 1];
      && f.what.when <= f.at <= now
      && LastTime(fired[..|fired| - 1], f.what.when) <= f.what.when
      && InOrder(fired[..|fired| - 1], f.at)
  }

  /** The time asked for by the latest firing, or `none` before the first. */
  ghost function LastTime(fired: seq<Firing>, none: int): int {
    if fired == [] then none else fired[|fired| - 1].what.when
  }

  /** Every interrupt ever scheduled is pending or has fired, exactly once; the log is in order;
      and nothing still pending is earlier than what fired. */
  ghost predicate History(scheduled: seq<Pending>, pending: seq<Item<Pending>>, fired: seq<Firing>, now: int) {
    && Numbered(scheduled)
    && Ordered(pending)
    && Accounted(scheduled, pending, fired)
    && InOrder(fired, now)
    && (pending != [] ==> LastTime(fired, pending[0].key) <= pending[0].key)
  }

  ghost predicate Accounted(scheduled: seq<Pending>, pending: seq<Item<Pending>>, fired: seq<Firing>) {
    multiset(scheduled) == multiset(Items(pending)) + multiset(WhatFired(fired))
  }

  /** No interrupt fires early, and the log never goes back in time. */
  lemma {:induction false} FiredInOrder(fired: seq<Firing>, now: int)
    requires InOrder(fired, now)
    ensures forall i | 0 <= i < |fired| :: fired[i].what.when <= fired[i].at <= now
    ensures forall i, j | 0 <= i < j < |fired| :: fired[i].what.when <= fired[j].what.when && fired[i].at <= fired[j].at
  {
    if fired != [] {
      var n := |fired| - 1;
      var rest := fired[..n];
      FiredInOrder(rest, fired[n].at);
      assert forall i | 0 <= i < n :: fired[i] == rest[i];
      if n > 0 { assert rest[n - 1].what.when <= fired[n].what.when; }
    }
  }

  lemma ItemsInserted(s: seq<Item<Pending>>, x: Item<Pending>)
    ensures multiset(Items(Inserted(s, x))) == multiset(Items(s)) + multiset{x.item}
  {
    var p := Slot(s, x.key);
    assert Items(Inserted(s, x)) == Items(s[..p]) + [x.item] + Items(s[p..]);
    assert Items(s) == Items(s[..p]) + Items(s[p..]);
  }

  lemma InsertedMembers(s: seq<Item<Pending>>, x: Item<Pending>, i: nat)
    requires i < |s| + 1
    ensures Inserted(s, x)[i] == x || Inserted(s, x)[i] in s
  {
    var p := Slot(s, x.key);
    if i < p { assert Inserted(s, x)[i] == s[i]; }
    if i > p { assert Inserted(s, x)[i] == s[i - 1]; }
  }

  lemma OrderedInserted(s: seq<Item<Pending>>, x: Item<Pending>)
    requires Ordered(s) && x.key == x.item.when
    ensures Ordered(Inserted(s, x))
  {
    InsertedKeepsOrder(s, x);
    forall i | 0 <= i < |s| + 1
      ensures Inserted(s, x)[i].key == Inserted(s, x)[i].item.when
    {
      InsertedMembers(s, x, i);
    }
  }

  /** Scheduling an interrupt for a later time keeps the history. */
  lemma ScheduleKeepsHistory(scheduled: seq<Pending>, pending: seq<Item<Pending>>, fired: seq<Firing>, now: int,
                             p: Pending)
    requires History(scheduled, pending, fired, now)
    requires p.when > now && p.serial == |scheduled|
    ensures History(scheduled + [p], Inserted(pending, Item(p.when, p)), fired, now)
  {
    var x := Item(p.when, p);
    OrderedInserted(pending, x);
    ItemsInserted(pending, x);
    InsertedHead(pending, x);
  }

  lemma InsertedHead(s: seq<Item<Pending>>, x: Item<Pending>)
    ensures Inserted(s, x)[0] == if s == [] || x.key < s[0].key then x else s[0]
  {
  }

  /** Moving the head from the pending list to the log keeps the history, once it is due. */
  lemma FireKeepsHistory(scheduled: seq<Pending>, pending: seq<Item<Pending>>, fired: seq<Firing>, now: int)
    requires History(scheduled, pending, fired, now)
    requires pending != [] && pending[0].key <= now
    ensures History(scheduled, pending[1..], fired + [Firing(pending[0].item, now)], now)
    ensures DueCount(pending[1..], now) == DueCount(pending, now) - 1
  {
    FireKeepsAccount(scheduled, pending, fired, now);
    FireKeepsOrder(pending, fired, now);
  }

  lemma FireKeepsAccount(scheduled: seq<Pending>, pending: seq<Item<Pending>>, fired: seq<Firing>, now: int)
    requires Accounted(scheduled, pending, fired) && pending != []
    ensures Accounted(scheduled, pending[1..], fired + [Firing(pending[0].item, now)])
  {
    var h := pending[0].item;
    assert Items(pending) == [h] + Items(pending[1..]);
    assert WhatFired(fired + [Firing(h, now)]) == WhatFired(fired) + [h];
  }

  lemma {:induction false} FireKeepsOrder(pending: seq<Item<Pending>>, fired: seq<Firing>, now: int)
    requires Ordered(pending) && InOrder(fired, now) && pending != [] && pending[0].key <= now
    requires LastTime(fired, pending[0].key) <= pending[0].key
    ensures Ordered(pending[1..]) && InOrder(fired + [Firing(pending[0].item, now)], now)
    ensures |pending| > 1 ==> pending[0].item.when <= pending[1].key
  {
    var log := fired + [Firing(pending[0].item, now)];
    assert log[..|log| - 1] == fired;
    assert pending[0].key == pending[0].item.when;
  }

  /** Taking the head off and putting it back keeps the history. */
  lemma PutBackKeepsHistory(scheduled: seq<Pending>, pending: seq<Item<Pending>>, fired: seq<Firing>, now: int)
    requires History(scheduled, pending, fired, now) && pending != []
    ensures History(scheduled, Inserted(pending[1..], pending[0]), fired, now)
    ensures DueCount(Inserted(pending[1..], pending[0]), now) == DueCount(pending, now)
  {
    var h, t := pending[0], pending[1..];
    assert pending == [h] + t;
    OrderedInserted(t, h);
    ItemsInserted(t, h);
    InsertedHead(t, h);
    assert Items(pending) == [h.item] + Items(t);
    DueCountInserted(t, h, now);
  }

  /** In a whole run, an interrupt that fired is not pending, and none fired twice. */
  lemma FiredOnce(scheduled: seq<Pending>, pending: seq<Item<Pending>>, fired: seq<Firing>, now: int)
    requires History(scheduled, pending, fired, now)
    ensures forall i, j | 0 <= i < j < |fired| :: fired[i].what != fired[j].what
    ensures forall i, j | 0 <= i < |fired| && 0 <= j < |pending| :: fired[i].what != pending[j].item
    ensures forall p | p in scheduled :: (p in Items(pending)) != (p in WhatFired(fired))
  {
    var ps, fs := Items(pending), WhatFired(fired);
    forall p
      ensures multiset(scheduled)[p] <= 1
    {
      AtMostOnce(scheduled, p);
    }
    forall i, j | 0 <= i < j < |fired|
      ensures fired[i].what != fired[j].what
    {
      assert multiset(scheduled)[fs[i]] <= 1;
      TwiceCounts(fs, i, j);
    }
    forall i, j | 0 <= i < |fired| && 0 <= j < |pending|
      ensures fired[i].what != pending[j].item
    {
      assert fs[i] in multiset(fs) && ps[j] in multiset(ps);
      assert multiset(scheduled)[fs[i]] <= 1;
    }
    forall p | p in scheduled
      ensures (p in ps) != (p in fs)
    {
      assert p in multiset(scheduled);
      assert multiset(scheduled)[p] <= 1;
    }
  }

  lemma AtMostOnce(scheduled: seq<Pending>, p: Pending)
    requires Numbered(scheduled)
    ensures multiset(scheduled)[p] <= 1
  {
    if p in scheduled {
      var i :| 0 <= i < |scheduled| && scheduled[i] == p;
      var rest := scheduled[..i] + scheduled[i + 1..];
      assert scheduled == scheduled[..i] + [p] + scheduled[i + 1..];
      assert p !in rest;
      assert multiset(scheduled) == multiset(rest) + multiset{p};
    }
  }

  lemma TwiceCounts(fs: seq<Pending>, i: nat, j: nat)
    requires i < j < |fs|
    ensures fs[i] == fs[j] ==> multiset(fs)[fs[i]] >= 2
  {
    assert fs == fs[..j] + [fs[j]] + fs[j + 1..];
    assert fs[..j][i] == fs[i];
    assert fs[i] in multiset(fs[..j]);
  }

  // ---------------------------------------------------------------------------
  // The simulator as a value

  /** What the k-th handler to run will do: any finite list of actions. */
  type Script = nat -> seq<Action>

  /** The simulator's fields and clock, with the record of what was ever scheduled and of what fired. */
  datatype Sim = Sim(
    level: IntStatus, status: MachineStatus, inHandler: bool, yieldOnReturn: bool, pending: seq<Item<Pending>>,
    total: nat, idle: nat, system: nat, user: nat, scheduled: seq<Pending>, fired: seq<Firing>)

  function Initial(): Sim {
    Sim(IntOff, SystemMode, false, false, [], 0, 0, 0, 0, [], [])
  }

  /** Nothing is due, or all that is left is the timer. */
  ghost predicate Drained(pending: seq<Item<Pending>>, now: int, status: MachineStatus) {
    || DueCount(pending, now) == 0
    || (status == IdleMode && LoneTimer(pending))
  }

  predicate LoneTimer(pending: seq<Item<Pending>>) {
    |pending| == 1 && pending[0].item.kind == TimerInt
  }

  /** Interrupt::Schedule. */
  function Filed(s: Sim, handler: int, arg: int, fromNow: Delay, kind: IntType): Sim {
    var p := Pending(|s.scheduled|, handler, arg, s.total + fromNow, kind);
    s.(scheduled := s.scheduled + [p], pending := Inserted(s.pending, Item(p.when, p)))
  }

  /** One thing a handler does. */
  function Acted(s: Sim, a: Action): Sim {
    match a
    case ScheduleLater(handler, arg, fromNow, kind) => Filed(s, handler, arg, fromNow, kind)
    case AskYield => s.(yieldOnReturn := true)
  }

  function Handled(s: Sim, actions: seq<Action>): Sim {
    if actions == [] then s else Acted(Handled(s, actions[..|actions| - 1]), actions[|actions| - 1])
  }

  /** The head goes to the log, and its handler is entered in system mode. */
  function Entered(s: Sim): Sim
    requires s.pending != []
  {
    s.(pending := s.pending[1..], fired := s.fired + [Firing(s.pending[0].item, s.total)],
       inHandler := true, status := SystemMode)
  }

  /** The head fires: its handler is entered, acts and returns. */
  function FiredHead(s: Sim, script: Script): Sim
    requires s.pending != []
  {
    Handled(Entered(s), script(|s.fired|)).(inHandler := false, status := s.status)
  }

  /** The head is taken off and put back. */
  function PutBack(s: Sim): Sim
    requires s.pending != []
  {
    s.(pending := Inserted(s.pending[1..], s.pending[0]))
  }

  /** Idle time passes up to the head, if it lies ahead. */
  function MovedUp(s: Sim): Sim
    requires s.pending != []
  {
    if s.pending[0].key > s.total
    then s.(idle := s.idle + (s.pending[0].key - s.total), total := s.pending[0].key)
    else s
  }

  /** Interrupt::CheckIfDue. */
  function Checked(s: Sim, script: Script, advanceClock: bool): (Sim, bool) {
    if s.pending == [] then (s, false)
    else
      var s1 := if advanceClock then MovedUp(s) else s;
      if s1.pending[0].key > s1.total || (s1.status == IdleMode && LoneTimer(s1.pending)) then (PutBack(s1), false)
      else (FiredHead(s1, script), true)
  }

  /** The drain loop: check until nothing fires. */
  function DrainedSim(s: Sim, script: Script): Sim
    decreases DueCount(s.pending, s.total)
  {
    var (s1, more) := Checked(s, script, false);
    if more then
      CheckedUsesOne(s, script);
      DrainedSim(s1, script)
    else s1
  }

  /** One tick of the current mode. */
  function Clocked(s: Sim): Sim {
    if s.status == SystemMode then s.(total := s.total + SYSTEM_TICK, system := s.system + SYSTEM_TICK)
    else s.(total := s.total + USER_TICK, user := s.user + USER_TICK)
  }

  /** Interrupt::OneTick; a yield that a handler asked for is over when it returns. */
  function Ticked(s: Sim, script: Script): Sim {
    DrainedSim(Clocked(s).(level := IntOff), script).(level := IntOn, yieldOnReturn := false)
  }

  /** Interrupt::Idle, and whether the machine halts. */
  function Idled(s: Sim, script: Script): (Sim, bool) {
    var (s1, any) := Checked(s.(status := IdleMode), script, true);
    if any then (DrainedSim(s1, script).(yieldOnReturn := false, status := SystemMode), false) else (s1, true)
  }

  /** Interrupt::SetLevel. */
  function Leveled(s: Sim, now: IntStatus, script: Script): Sim {
    if now == IntOn && s.level == IntOff then Ticked(s.(level := now), script) else s.(level := now)
  }

  /** What the rest of the machine may ask of the simulator between two handler runs.  A yield that a
      handler asked for shows up as the steps of the other threads, with their changes of mode. */
  datatype Step = UserInstruction | Level(now: IntStatus) | GoIdle | Mode(status: MachineStatus)
                | Device(handler: int, arg: int, fromNow: Delay, kind: IntType)

  /** One step, and whether the machine halts. */
  function Stepped(s: Sim, step: Step, script: Script): (Sim, bool) {
    match step
    case UserInstruction => if s.level == IntOn then (Ticked(s, script), false) else (s, false)
    case Level(now) => (Leveled(s, now, script), false)
    case GoIdle => if s.level == IntOff then Idled(s, script) else (s, false)
    case Mode(status) => (s.(status := status), false)
    case Device(handler, arg, fromNow, kind) => (Filed(s, handler, arg, fromNow, kind), false)
  }

  /** A sequence of steps, up to a halt. */
  function RunSim(s: Sim, steps: seq<Step>, script: Script): (Sim, bool) {
    if steps == [] then (s, false)
    else
      var (s1, halted) := RunSim(s, steps[..|steps| - 1], script);
      if halted then (s1, true) else Stepped(s1, steps[|steps| - 1], script)
  }

  // ---------------------------------------------------------------------------
  // The drain loop ends

  lemma {:induction false} HandledUsesNone(s: Sim, actions: seq<Action>)
    ensures var s' := Handled(s, actions);
            && s'.total == s.total && s'.fired == s.fired && s'.status == s.status && s'.level == s.level
            && s'.idle == s.idle && s'.system == s.system && s'.user == s.user && s'.inHandler == s.inHandler
            && DueCount(s'.pending, s'.total) == DueCount(s.pending, s.total)
  {
    hide Inserted, DueCount;
    if actions != [] {
      var n := |actions| - 1;
      HandledUsesNone(s, actions[..n]);
      var s1 := Handled(s, actions[..n]);
      if actions[n].ScheduleLater? {
        var p := Pending(|s1.scheduled|, actions[n].handler, actions[n].arg, s1.total + actions[n].fromNow,
                         actions[n].kind);
        DueCountInserted(s1.pending, Item(p.when, p), s1.total);
      }
    }
  }

  /** A handler schedules strictly ahead, so a check that fires leaves one fewer due. */
  lemma CheckedUsesOne(s: Sim, script: Script)
    requires Checked(s, script, false).1
    ensures var s1 := Checked(s, script, false).0;
            s1.total == s.total && DueCount(s1.pending, s1.total) == DueCount(s.pending, s.total) - 1
  {
    hide Handled;
    var s0 := Entered(s);
    HandledUsesNone(s0, script(|s.fired|));
  }

  lemma LaterKeepsHistory(scheduled: seq<Pending>, pending: seq<Item<Pending>>, fired: seq<Firing>, now: int,
                          later: int)
    requires History(scheduled, pending, fired, now) && now <= later
    ensures History(scheduled, pending, fired, later)
  {
  }

  /** Outside idle mode, a drained list holds only interrupts strictly ahead. */
  lemma DrainedMeansLater(pending: seq<Item<Pending>>, now: int, status: MachineStatus)
    requires Drained(pending, now, status) && status != IdleMode
    ensures forall i | 0 <= i < |pending| :: pending[i].key > now
  {
    NoneDueMeansLater(pending, now);
  }

  lemma {:induction false} NoneDueMeansLater(pending: seq<Item<Pending>>, now: int)
    requires DueCount(pending, now) == 0
    ensures forall i | 0 <= i < |pending| :: pending[i].key > now
  {
    if pending != [] {
      NoneDueMeansLater(pending[1..], now);
      assert forall i | 1 <= i < |pending| :: pending[i] == pending[1..][i - 1];
    }
  }

  // ---------------------------------------------------------------------------
  // What every step keeps

  ghost predicate Good(s: Sim) {
    History(s.scheduled, s.pending, s.fired, s.total) && s.total == s.idle + s.system + s.user
  }

  /** Nothing on record is lost: both records only grow. */
  ghost predicate Grows(s: Sim, s': Sim) { s.scheduled <= s'.scheduled && s.fired <= s'.fired && s.total <= s'.total }

  lemma GoodFiled(s: Sim, handler: int, arg: int, fromNow: Delay, kind: IntType)
    requires Good(s)
    ensures Good(Filed(s, handler, arg, fromNow, kind)) && Grows(s, Filed(s, handler, arg, fromNow, kind))
  {
    hide History, Inserted;
    ScheduleKeepsHistory(s.scheduled, s.pending, s.fired, s.total,
                         Pending(|s.scheduled|, handler, arg, s.total + fromNow, kind));
  }

  lemma {:induction false} GoodHandled(s: Sim, actions: seq<Action>)
    requires Good(s)
    ensures Good(Handled(s, actions)) && Grows(s, Handled(s, actions))
  {
    hide History, Filed;
    if actions != [] {
      var n := |actions| - 1;
      GoodHandled(s, actions[..n]);
      match actions[n]
      case ScheduleLater(handler, arg, fromNow, kind) =>
        GoodFiled(Handled(s, actions[..n]), handler, arg, fromNow, kind);
      case AskYield =>
    }
  }

  lemma GoodFired(s: Sim, script: Script)
    requires Good(s) && s.pending != [] && s.pending[0].key <= s.total
    ensures Good(FiredHead(s, script)) && Grows(s, FiredHead(s, script))
    ensures FiredHead(s, script).fired == s.fired + [Firing(s.pending[0].item, s.total)]
  {
    hide History, Handled, DueCount;
    FireKeepsHistory(s.scheduled, s.pending, s.fired, s.total);
    var s1 := Entered(s);
    GoodHandled(s1, script(|s.fired|));
    HandledUsesNone(s1, script(|s.fired|));
  }

  lemma GoodPutBack(s: Sim)
    requires Good(s) && s.pending != []
    ensures Good(PutBack(s)) && DueCount(PutBack(s).pending, s.total) == DueCount(s.pending, s.total)
  {
    hide History, DueCount;
    PutBackKeepsHistory(s.scheduled, s.pending, s.fired, s.total);
  }

  lemma GoodMovedUp(s: Sim)
    requires Good(s) && s.pending != []
    ensures Good(MovedUp(s))
  {
    hide History;
    if s.pending[0].key > s.total {
      LaterKeepsHistory(s.scheduled, s.pending, s.fired, s.total, s.pending[0].key);
    }
  }

  lemma GoodChecked(s: Sim, script: Script, advanceClock: bool)
    requires Good(s)
    ensures Good(Checked(s, script, advanceClock).0) && Grows(s, Checked(s, script, advanceClock).0)
  {
    hide Good, FiredHead, LoneTimer;
    if s.pending != [] {
      if advanceClock { GoodMovedUp(s); }
      var s1 := if advanceClock then MovedUp(s) else s;
      GoodPutBack(s1);
      if s1.pending[0].key <= s1.total { GoodFired(s1, script); }
    }
  }

  lemma {:induction false} GoodDrained(s: Sim, script: Script)
    requires Good(s)
    ensures Good(DrainedSim(s, script)) && Grows(s, DrainedSim(s, script))
    decreases DueCount(s.pending, s.total)
  {
    hide Good, Checked, DueCount;
    GoodChecked(s, script, false);
    if Checked(s, script, false).1 {
      CheckedUsesOne(s, script);
      GoodDrained(Checked(s, script, false).0, script);
    }
  }

  lemma GoodClocked(s: Sim)
    requires Good(s)
    ensures Good(Clocked(s))
  {
    hide History;
    LaterKeepsHistory(s.scheduled, s.pending, s.fired, s.total, Clocked(s).total);
  }

  lemma GoodTicked(s: Sim, script: Script)
    requires Good(s)
    ensures Good(Ticked(s, script)) && Grows(s, Ticked(s, script))
  {
    hide History, DrainedSim;
    GoodClocked(s);
    GoodDrained(Clocked(s).(level := IntOff), script);
  }

  lemma GoodIdled(s: Sim, script: Script)
    requires Good(s)
    ensures Good(Idled(s, script).0) && Grows(s, Idled(s, script).0)
  {
    hide History, DrainedSim, Checked;
    GoodChecked(s.(status := IdleMode), script, true);
    GoodDrained(Checked(s.(status := IdleMode), script, true).0, script);
  }

  /** Every step keeps the history in order and nothing is lost. */
  lemma GoodStepped(s: Sim, step: Step, script: Script)
    requires Good(s)
    ensures Good(Stepped(s, step, script).0) && Grows(s, Stepped(s, step, script).0)
  {
    hide History, Ticked, Idled, Filed;
    match step
    case UserInstruction => GoodTicked(s, script);
    case Level(now) => GoodTicked(s.(level := now), script);
    case GoIdle => GoodIdled(s, script);
    case Mode(_) =>
    case Device(handler, arg, fromNow, kind) => GoodFiled(s, handler, arg, fromNow, kind);
  }

  lemma {:induction false} GoodRun(s: Sim, steps: seq<Step>, script: Script)
    requires Good(s)
    ensures Good(RunSim(s, steps, script).0) && Grows(s, RunSim(s, steps, script).0)
  {
    hide Good, Stepped;
    if steps != [] {
      var n := |steps| - 1;
      GoodRun(s, steps[..n], script);
      GoodStepped(RunSim(s, steps[..n], script).0, steps[n], script);
    }
  }

  // ---------------------------------------------------------------------------
  // Main results

  /** Over any run, whatever the handlers do: every interrupt ever scheduled is pending or has fired, not
      both and none twice; none fired before its time; the log never goes back in time; and the clock is
      the sum of its three counters. */
  lemma RunFiresOnce(s: Sim, steps: seq<Step>, script: Script)
    requires Good(s)
    ensures var s' := RunSim(s, steps, script).0;
            && (forall p | p in s'.scheduled :: (p in Items(s'.pending)) != (p in WhatFired(s'.fired)))
            && (forall i, j | 0 <= i < j < |s'.fired| :: s'.fired[i].what != s'.fired[j].what)
            && (forall i | 0 <= i < |s'.fired| :: s'.fired[i].what.when <= s'.fired[i].at <= s'.total)
            && (forall i, j | 0 <= i < j < |s'.fired| :: s'.fired[i].what.when <= s'.fired[j].what.when)
            && s'.total == s'.idle + s'.system + s'.user
            && s.scheduled <= s'.scheduled && s.fired <= s'.fired
  {
    hide RunSim, History;
    GoodRun(s, steps, script);
    var s' := RunSim(s, steps, script).0;
    FiredOnce(s'.scheduled, s'.pending, s'.fired, s'.total);
    assert InOrder(s'.fired, s'.total) by { HistoryOrder(s'); }
    FiredInOrder(s'.fired, s'.total);
  }

  lemma HistoryOrder(s: Sim)
    requires Good(s)
    ensures InOrder(s.fired, s.total) && Ordered(s.pending)
  {
  }

  /** In a sorted list the due items come first. */
  lemma {:induction false} DueFirst(s: seq<Item<Pending>>, now: int, i: nat)
    requires Sorted(s) && i < |s|
    ensures s[i].key <= now <==> i < DueCount(s, now)
  {
    if s[0].key > now {
      NoneDue(s, now);
    } else if i > 0 {
      DueFirst(s[1..], now, i - 1);
    }
  }

  /** Filing an interrupt ahead leaves the due items where they are. */
  lemma FiledKeepsDue(s: seq<Item<Pending>>, x: Item<Pending>, now: int)
    requires Sorted(s) && x.key > now
    ensures var d := DueCount(s, now);
            DueCount(Inserted(s, x), now) == d && Inserted(s, x)[..d] == s[..d]
  {
    hide DueCount, Slot;
    var d, p := DueCount(s, now), Slot(s, x.key);
    DueCountInserted(s, x, now);
    SlotSplits(s, x.key, 0);
    if p < d {
      DueFirst(s, now, p);
    }
  }

  lemma {:induction false} HandledKeepsDue(s: Sim, actions: seq<Action>)
    requires Good(s)
    ensures var d := DueCount(s.pending, s.total);
            && DueCount(Handled(s, actions).pending, s.total) == d
            && Handled(s, actions).pending[..d] == s.pending[..d]
  {
    hide History, DueCount, Inserted;
    if actions != [] {
      var n := |actions| - 1;
      var s1 := Handled(s, actions[..n]);
      HandledKeepsDue(s, actions[..n]);
      HandledUsesNone(s, actions[..n]);
      GoodHandled(s, actions[..n]);
      HistoryOrder(s1);
      if actions[n].ScheduleLater? {
        var p := Pending(|s1.scheduled|, actions[n].handler, actions[n].arg, s1.total + actions[n].fromNow,
                         actions[n].kind);
        FiledKeepsDue(s1.pending, Item(p.when, p), s1.total);
      }
    }
  }

  /** The log entries of these items, fired in this order at this time. */
  ghost function FiringsOf(items: seq<Item<Pending>>, at: int): (fs: seq<Firing>)
    ensures |fs| == |items|
  {
    seq(|items|, i requires 0 <= i < |items| => Firing(items[i].item, at))
  }

  /** The drain loop fires exactly the due interrupts, in the order of the list, at the present time, and
      leaves nothing due save possibly an idle machine's lone timer. */
  lemma {:induction false} DrainFiresDue(s: Sim, script: Script)
    requires Good(s)
    ensures var s' := DrainedSim(s, script);
            var m := DueCount(s.pending, s.total) - DueCount(s'.pending, s'.total);
            && s'.total == s.total && s'.status == s.status && s'.level == s.level
            && Drained(s'.pending, s'.total, s'.status)
            && 0 <= m <= |s.pending| && s'.fired == s.fired + FiringsOf(s.pending[..m], s.total)
    decreases DueCount(s.pending, s.total)
  {
    hide Good, DueCount, Checked, FiringsOf, Drained;
    var (s1, more) := Checked(s, script, false);
    if more {
      CheckedUsesOne(s, script);
      GoodChecked(s, script, false);
      CheckFires(s, script);
      DrainFiresDue(s1, script);
      var s' := DrainedSim(s1, script);
      var m := DueCount(s1.pending, s1.total) - DueCount(s'.pending, s'.total);
      FiringsSplit(s, s1, m);
    } else {
      CheckStops(s, script);
      NoFirings(s);
    }
  }

  /** A check that fires, fires the head, and the due items behind it stay in place. */
  lemma CheckFires(s: Sim, script: Script)
    requires Good(s) && Checked(s, script, false).1
    ensures var s1 := Checked(s, script, false).0;
            var d := DueCount(s.pending, s.total);
            && s1.status == s.status && s1.level == s.level
            && d > 0 && s.pending != [] && s1.fired == s.fired + [Firing(s.pending[0].item, s.total)]
            && d - 1 <= |s1.pending| && s1.pending[..d - 1] == s.pending[1..d]
  {
    hide History, Handled;
    GoodFired(s, script);
    FireKeepsHistory(s.scheduled, s.pending, s.fired, s.total);
    var s0 := Entered(s);
    HandledUsesNone(s0, script(|s.fired|));
    HandledKeepsDue(s0, script(|s.fired|));
    var d := DueCount(s.pending, s.total);
    assert s.pending[1..][..d - 1] == s.pending[1..d];
  }

  /** A check that does not fire leaves things as they are, and nothing more is to be done. */
  lemma CheckStops(s: Sim, script: Script)
    requires Good(s) && !Checked(s, script, false).1
    ensures var s1 := Checked(s, script, false).0;
            && s1 == s.(pending := s1.pending) && Drained(s1.pending, s1.total, s1.status)
            && DueCount(s1.pending, s1.total) == DueCount(s.pending, s.total)
  {
    hide History;
    if s.pending != [] {
      GoodPutBack(s);
      HistoryOrder(s);
      if s.pending[0].key > s.total {
        NoneDue(s.pending, s.total);
      } else {
        assert s.pending[1..] == [];
      }
    }
  }

  lemma NoFirings(s: Sim)
    ensures s.fired == s.fired + FiringsOf(s.pending[..0], s.total)
  {
  }

  lemma FiringsSplit(s: Sim, s1: Sim, m: nat)
    requires s.pending != [] && s1.total == s.total && s1.fired == s.fired + [Firing(s.pending[0].item, s.total)]
    requires m < DueCount(s.pending, s.total) && m <= |s1.pending|
    requires DueCount(s.pending, s.total) - 1 <= |s1.pending|
    requires s1.pending[..DueCount(s.pending, s.total) - 1] == s.pending[1..DueCount(s.pending, s.total)]
    ensures s1.fired + FiringsOf(s1.pending[..m], s1.total) == s.fired + FiringsOf(s.pending[..m + 1], s.total)
  {
    hide DueCount;
    var d := DueCount(s.pending, s.total);
    assert forall i | 0 <= i < m :: s1.pending[i] == s1.pending[..d - 1][i] == s.pending[1..d][i] == s.pending[i + 1];
    assert FiringsOf(s.pending[..m + 1], s.total)
        == [Firing(s.pending[0].item, s.total)] + FiringsOf(s1.pending[..m], s1.total);
  }

  /** After a tick outside idle mode an interrupt has fired exactly when its time has come. */
  lemma TickFiresExactly(s: Sim, script: Script, p: Pending)
    requires Good(s) && s.status != IdleMode && p in Ticked(s, script).scheduled
    ensures p in WhatFired(Ticked(s, script).fired) <==> p.when <= Ticked(s, script).total
    ensures Ticked(s, script).total == s.total + (if s.status == SystemMode then SYSTEM_TICK else USER_TICK)
  {
    hide History, DrainedSim, DueCount;
    var c, s' := Clocked(s).(level := IntOff), Ticked(s, script);
    GoodClocked(s);
    GoodTicked(s, script);
    DrainFiresDue(c, script);
    DrainedMeansLater(s'.pending, s'.total, s'.status);
    RecordedOnce(s', p);
  }

  /** An interrupt on record is pending at its time or has fired no earlier. */
  lemma RecordedOnce(s: Sim, p: Pending)
    requires Good(s) && p in s.scheduled
    ensures p !in WhatFired(s.fired) ==> exists i | 0 <= i < |s.pending| :: s.pending[i].key == p.when
    ensures p in WhatFired(s.fired) ==> p.when <= s.total
  {
    FiredOnce(s.scheduled, s.pending, s.fired, s.total);
    FiredInOrder(s.fired, s.total);
    if p !in WhatFired(s.fired) {
      assert p in Items(s.pending);
      var i :| 0 <= i < |s.pending| && Items(s.pending)[i] == p;
      assert s.pending[i].key == p.when;
    } else {
      var i :| 0 <= i < |s.fired| && WhatFired(s.fired)[i] == p;
      assert s.fired[i].what == p;
    }
  }

  /** The same at any point of any run: a user instruction with interrupts on fires all that is due. */
  lemma RunFiresOnTime(s: Sim, steps: seq<Step>, script: Script, p: Pending)
    requires Good(s)
    requires var s1 := RunSim(s, steps, script).0; s1.status != IdleMode && s1.level == IntOn
    requires p in Stepped(RunSim(s, steps, script).0, UserInstruction, script).0.scheduled
    ensures var s' := Stepped(RunSim(s, steps, script).0, UserInstruction, script).0;
            p in WhatFired(s'.fired) <==> p.when <= s'.total
  {
    hide Good, RunSim, Ticked;
    GoodRun(s, steps, script);
    TickFiresExactly(RunSim(s, steps, script).0, script, p);
  }

  // ---------------------------------------------------------------------------
  // Which counter time is charged to

  /** Draining takes no time. */
  lemma {:induction false} DrainTakesNoTime(s: Sim, script: Script)
    ensures var s' := DrainedSim(s, script);
            s'.total == s.total && s'.idle == s.idle && s'.system == s.system && s'.user == s.user
    decreases DueCount(s.pending, s.total)
  {
    hide DueCount, Checked;
    CheckTakesNoTime(s, script);
    if Checked(s, script, false).1 {
      CheckedUsesOne(s, script);
      DrainTakesNoTime(Checked(s, script, false).0, script);
    }
  }

  lemma CheckTakesNoTime(s: Sim, script: Script)
    ensures var s' := Checked(s, script, false).0;
            s'.total == s.total && s'.idle == s.idle && s'.system == s.system && s'.user == s.user
  {
    hide Handled, Inserted, LoneTimer;
    if s.pending != [] { HandledUsesNone(Entered(s), script(|s.fired|)); }
  }

  /** A tick charges ten units to system time in system mode, and one to user time otherwise. */
  lemma TickCharges(s: Sim, script: Script)
    ensures var s' := Ticked(s, script);
            && s'.idle == s.idle && s'.level == IntOn && !s'.yieldOnReturn
            && (s.status == SystemMode ==> s'.total == s.total + 10 && s'.system == s.system + 10 && s'.user == s.user)
            && (s.status != SystemMode ==> s'.total == s.total + 1 && s'.user == s.user + 1 && s'.system == s.system)
  {
    hide DrainedSim;
    DrainTakesNoTime(Clocked(s).(level := IntOff), script);
  }

  /** A handler's request for a yield is remembered until the tick that serves it. */
  lemma {:induction false} HandlerAsks(s: Sim, actions: seq<Action>)
    ensures Handled(s, actions).yieldOnReturn <==> s.yieldOnReturn || AskYield in actions
  {
    if actions != [] {
      var n := |actions| - 1;
      HandlerAsks(s, actions[..n]);
      assert actions == actions[..n] + [actions[n]];
    }
  }

  /** Turning interrupts on from off outside idle mode lets one tick of the mode pass, and an interrupt on
      record has fired exactly when its time has come. */
  lemma LevelOnTicks(s: Sim, script: Script, p: Pending)
    requires Good(s) && s.status != IdleMode && s.level == IntOff
    ensures var s' := Stepped(s, Level(IntOn), script).0;
            && s'.level == IntOn && s'.status == s.status
               && s'.total == s.total + (if s.status == SystemMode then 10 else 1)
            && (p in s'.scheduled ==> (p in WhatFired(s'.fired) <==> p.when <= s'.total))
  {
    hide History, DrainedSim;
    var on := s.(level := IntOn);
    TickCharges(on, script);
    GoodClocked(on);
    DrainFiresDue(Clocked(on).(level := IntOff), script);
    if p in Ticked(on, script).scheduled { TickFiresExactly(on, script, p); }
  }

  /** Any other change of level changes the level and nothing else. */
  lemma LevelElseIsQuiet(s: Sim, now: IntStatus, script: Script)
    requires now == IntOff || s.level == IntOn
    ensures Stepped(s, Level(now), script) == (s.(level := now), false)
  {
  }

  /** Both at any point of any run. */
  lemma RunLevels(s: Sim, steps: seq<Step>, now: IntStatus, script: Script, p: Pending)
    requires Good(s) && !RunSim(s, steps, script).1
    ensures var s1 := RunSim(s, steps, script).0;
            var s' := RunSim(s, steps + [Level(now)], script).0;
            && (now == IntOff || s1.level == IntOn ==> s' == s1.(level := now))
            && (now == IntOn && s1.level == IntOff && s1.status != IdleMode ==>
                  && s'.level == IntOn && s'.total == s1.total + (if s1.status == SystemMode then 10 else 1)
                  && (p in s'.scheduled ==> (p in WhatFired(s'.fired) <==> p.when <= s'.total)))
  {
    hide Good, Stepped;
    assert (steps + [Level(now)])[..|steps|] == steps;
    GoodRun(s, steps, script);
    var s1 := RunSim(s, steps, script).0;
    if now == IntOff || s1.level == IntOn {
      LevelElseIsQuiet(s1, now, script);
    } else if s1.status != IdleMode {
      LevelOnTicks(s1, script, p);
    }
  }

  // ---------------------------------------------------------------------------
  // Idling

  /** The machine halts exactly when nothing but a lone timer, or nothing at all, is pending, and then
      nothing fires.  Otherwise the head fires, at its own time if that lies ahead, and nothing due is left
      but possibly a lone timer.  The time that passes is idle time. */
  lemma IdleMeans(s: Sim, script: Script)
    requires Good(s)
    ensures var (s', halted) := Idled(s, script);
            && (halted <==> s.pending == [] || (|s.pending| == 1 && s.pending[0].item.kind == TimerInt))
            && (halted ==> s'.fired == s.fired && s'.scheduled == s.scheduled)
            && (!halted ==> s'.status == SystemMode && !s'.yieldOnReturn)
            && (!halted ==> (forall i | 0 <= i < |s'.pending| :: s'.pending[i].key > s'.total)
                            || (|s'.pending| == 1 && s'.pending[0].item.kind == TimerInt))
            && (!halted ==> |s'.fired| > |s.fired| && s'.fired[|s.fired|] == Firing(s.pending[0].item, s'.total))
    ensures var s' := Idled(s, script).0;
            && s'.total == (if s.pending != [] && s.pending[0].key > s.total then s.pending[0].key else s.total)
            && s'.idle == s.idle + (s'.total - s.total) && s'.system == s.system && s'.user == s.user
  {
    hide History, DrainedSim, FiredHead, DueCount, FiringsOf;
    var s0 := s.(status := IdleMode);
    var (s1, any) := Checked(s0, script, true);
    GoodChecked(s0, script, true);
    if any {
      GoodMovedUp(s0);
      GoodFired(MovedUp(s0), script);
      FiringTakesNoTime(MovedUp(s0), script);
      DrainFiresDue(s1, script);
      DrainTakesNoTime(s1, script);
      var s' := DrainedSim(s1, script);
      if DueCount(s'.pending, s'.total) == 0 { NoneDueMeansLater(s'.pending, s'.total); }
    }
  }

  lemma FiringTakesNoTime(s: Sim, script: Script)
    requires s.pending != []
    ensures var s' := FiredHead(s, script);
            s'.total == s.total && s'.idle == s.idle && s'.system == s.system && s'.user == s.user
  {
    hide Handled;
    HandledUsesNone(Entered(s), script(|s.fired|));
  }

  /** A device's request is on record for the rest of the run, with the time it asked for. */
  lemma {:induction false} RunRecords(s: Sim, steps: seq<Step>, script: Script, k: nat)
    requires Good(s) && k < |steps| && steps[k].Device? && !RunSim(s, steps[..k], script).1
    ensures Asked(RunSim(s, steps[..k], script).0, steps[k]) in RunSim(s, steps, script).0.scheduled
    decreases |steps|
  {
    hide Good, Stepped, Asked;
    var n := |steps| - 1;
    var s1 := RunSim(s, steps[..n], script).0;
    GoodRun(s, steps[..n], script);
    if k < n {
      assert steps[..n][..k] == steps[..k];
      RunRecords(s, steps[..n], script, k);
      GoodStepped(s1, steps[n], script);
    } else {
      DeviceFiles(s1, steps[n], script);
    }
  }

  /** The interrupt that a device asks for. */
  function Asked(s: Sim, step: Step): Pending
    requires step.Device?
  {
    Pending(|s.scheduled|, step.handler, step.arg, s.total + step.fromNow, step.kind)
  }

  lemma DeviceFiles(s: Sim, step: Step, script: Script)
    requires step.Device?
    ensures Stepped(s, step, script).0.scheduled == s.scheduled + [Asked(s, step)]
  {
  }

  // ---------------------------------------------------------------------------
  // How much was scheduled

  function Requests(actions: seq<Action>): nat {
    if actions == [] then 0
    else Requests(actions[..|actions| - 1]) + Flag(actions[|actions| - 1].ScheduleLater?)
  }

  /** What the handlers numbered from `m` up to `n` schedule. */
  function ByHandlers(script: Script, m: nat, n: nat): nat
    requires m <= n
    decreases n - m
  {
    if m == n then 0 else ByHandlers(script, m, n - 1) + Requests(script(n - 1))
  }

  lemma {:induction false} ByHandlersConcat(script: Script, l: nat, m: nat, n: nat)
    requires l <= m <= n
    ensures ByHandlers(script, l, n) == ByHandlers(script, l, m) + ByHandlers(script, m, n)
    decreases n - m
  {
    if m < n { ByHandlersConcat(script, l, m, n - 1); }
  }

  lemma OneHandler(script: Script, n: nat)
    ensures ByHandlers(script, n, n) == 0 && ByHandlers(script, n, n + 1) == Requests(script(n))
  {
  }

  /** The record grew by what the handlers that ran asked for, and `extra` more. */
  ghost predicate GrewBy(s: Sim, s': Sim, script: Script, extra: nat) {
    && |s.fired| <= |s'.fired|
    && |s'.scheduled| == |s.scheduled| + ByHandlers(script, |s.fired|, |s'.fired|) + extra
  }

  lemma GrewTwice(s: Sim, s1: Sim, s2: Sim, script: Script, a: nat, b: nat)
    requires GrewBy(s, s1, script, a) && GrewBy(s1, s2, script, b)
    ensures GrewBy(s, s2, script, a + b)
  {
    ByHandlersConcat(script, |s.fired|, |s1.fired|, |s2.fired|);
  }

  lemma {:induction false} HandledGrows(s: Sim, actions: seq<Action>)
    ensures |Handled(s, actions).scheduled| == |s.scheduled| + Requests(actions)
  {
    if actions != [] { HandledGrows(s, actions[..|actions| - 1]); }
  }

  lemma CheckedGrows(s: Sim, script: Script, advanceClock: bool)
    ensures GrewBy(s, Checked(s, script, advanceClock).0, script, 0)
  {
    hide Handled, Inserted, LoneTimer;
    if s.pending != [] {
      var s1 := if advanceClock then MovedUp(s) else s;
      var s2 := Entered(s1);
      HandledGrows(s2, script(|s.fired|));
      HandledUsesNone(s2, script(|s.fired|));
      OneHandler(script, |s.fired|);
    } else {
      NothingGrew(s, script);
    }
  }

  lemma {:induction false} DrainedGrows(s: Sim, script: Script)
    ensures GrewBy(s, DrainedSim(s, script), script, 0)
    decreases DueCount(s.pending, s.total)
  {
    hide GrewBy, Checked, DueCount;
    CheckedGrows(s, script, false);
    if Checked(s, script, false).1 {
      CheckedUsesOne(s, script);
      DrainedGrows(Checked(s, script, false).0, script);
      GrewTwice(s, Checked(s, script, false).0, DrainedSim(s, script), script, 0, 0);
    }
  }

  lemma SteppedGrows(s: Sim, step: Step, script: Script)
    ensures GrewBy(s, Stepped(s, step, script).0, script, Flag(step.Device?))
  {
    hide DrainedSim, Checked, Inserted;
    match step
    case UserInstruction => DrainedGrows(Clocked(s).(level := IntOff), script);
    case Level(now) => DrainedGrows(Clocked(s.(level := now)).(level := IntOff), script);
    case GoIdle =>
      var s0 := s.(status := IdleMode);
      CheckedGrows(s0, script, true);
      DrainedGrows(Checked(s0, script, true).0, script);
      GrewTwice(s0, Checked(s0, script, true).0, DrainedSim(Checked(s0, script, true).0, script), script, 0, 0);
    case Mode(_) =>
    case Device(_, _, _, _) =>
  }

  /** The device steps taken before a halt. */
  function Devices(s: Sim, steps: seq<Step>, script: Script): nat {
    if steps == [] then 0
    else
      var n := |steps| - 1;
      Devices(s, steps[..n], script) + Flag(steps[n].Device? && !RunSim(s, steps[..n], script).1)
  }

  /** Nothing is scheduled but by devices, one interrupt a request, and by the handlers that ran. */
  lemma {:induction false} RunCounts(s: Sim, steps: seq<Step>, script: Script)
    ensures GrewBy(s, RunSim(s, steps, script).0, script, Devices(s, steps, script))
  {
    hide GrewBy, Stepped;
    if steps == [] {
      NothingGrew(s, script);
    } else {
      var n := |steps| - 1;
      RunCounts(s, steps[..n], script);
      var (s1, halted) := RunSim(s, steps[..n], script);
      if !halted {
        SteppedGrows(s1, steps[n], script);
        GrewTwice(s, s1, RunSim(s, steps, script).0, script, Devices(s, steps[..n], script), Flag(steps[n].Device?));
      }
    }
  }

  lemma NothingGrew(s: Sim, script: Script)
    ensures GrewBy(s, s, script, 0)
  {
  }
}
