/** Exec, Join and Exit of threads/ptable.cc over the process control blocks of threads/pcb.cc,
    for any number of processes, in every interleaving.  P on a semaphore is a step that can be
    taken only while its value is positive; each other statement is a step of its own. */
module Processes {
  import opened Common

  const PSIZE := 10

  /** A process control block: parent, exit code, and the two semaphores of the handshake. */
  datatype Pcb = Pcb(parent: int, exitcode: int, joinsem: int, exitsem: int)

  /** Where a process stands: computing; in Join, before JoinWait, before GetExitCode or before
      ExitRelease; in Exit, before SetExitCode, before JoinRelease or before ExitWait; past ExitWait. */
  datatype Pc = Absent | Computing
              | Joining(pid: nat) | Reading(pid: nat) | Releasing(pid: nat, code: int)
              | Setting(code: int) | Announcing | Waiting | Gone

  /** A Join that returned: who called it, on whom, and what it returned. */
  datatype Joined = Joined(parent: nat, pid: int, code: int, normal: bool)

  /** The table, each process's place, the code each process passed to Exit, the code that was read
      from each block, and the Joins that returned. */
  datatype State = State(pcb: seq<Option<Pcb>>, pc: seq<Pc>, exited: map<nat, int>, seen: map<nat, int>,
                         joined: seq<Joined>)

  datatype Step = Exec(p: nat, runnable: bool)
                | ExitCall(p: nat, code: int) | SetExitCode(p: nat) | JoinRelease(p: nat) | ExitWait(p: nat)
                | JoinCall(p: nat, pid: int) | JoinWait(p: nat) | GetExitCode(p: nat) | ExitRelease(p: nat)

  /** The constructor: slot zero holds the first process, which has no parent. */
  function Initial(): State {
    State([Some(Pcb(-1, 0, 0, 0))] + seq(PSIZE - 1, i => None),
          [Computing] + seq(PSIZE - 1, i => Absent), map[], map[], [])
  }

  /** The first empty slot from `i` on, or -1. */
  function FreeSlot(pcb: seq<Option<Pcb>>, i: nat := 0): (r: int)
    requires i <= |pcb|
    ensures r == -1 || (i <= r < |pcb| && pcb[r].None?)
    ensures r == -1 ==> forall j | i <= j < |pcb| :: pcb[j].Some?
    ensures r != -1 ==> forall j | i <= j < r :: pcb[j].Some?
    decreases |pcb| - i
  {
    if i == |pcb| then -1 else if pcb[i].None? then i else FreeSlot(pcb, i + 1)
  }

  method GetFreeSlot(pcb: seq<Option<Pcb>>) returns (r: int)
    ensures r == FreeSlot(pcb)
  {
    for i := 0 to |pcb|
      invariant FreeSlot(pcb) == FreeSlot(pcb, i)
    {
      if pcb[i] == None { return i; }
    }
    return -1;
  }

  ghost predicate Shaped(s: State) {
    |s.pcb| == |s.pc| == PSIZE && forall i | 0 <= i < PSIZE :: s.pcb[i].Some? <==> s.pc[i] != Absent
  }

  /** May `p` join `pid`?  Only an existing child of the caller. */
  predicate MayJoin(s: State, p: nat, pid: int) {
    0 <= pid < |s.pcb| && s.pcb[pid].Some? && s.pcb[pid].value.parent == p
  }

  function Block(s: State, pid: nat): Pcb
    requires pid < |s.pcb| && s.pcb[pid].Some?
  {
    s.pcb[pid].value
  }

  predicate Enabled(s: State, step: Step) {
    && step.p < |s.pc| == |s.pcb|
    && match step
       case Exec(p, _) => s.pc[p] == Computing
       case ExitCall(p, _) => s.pc[p] == Computing && p != 0
       case SetExitCode(p) => s.pc[p].Setting? && s.pcb[p].Some?
       case JoinRelease(p) => s.pc[p] == Announcing && s.pcb[p].Some?
       case ExitWait(p) => s.pc[p] == Waiting && s.pcb[p].Some? && Block(s, p).exitsem > 0
       case JoinCall(p, pid) => s.pc[p] == Computing && (MayJoin(s, p, pid) ==> s.pc[pid] != Gone)
       case JoinWait(p) => s.pc[p].Joining? && Has(s, s.pc[p].pid) && Block(s, s.pc[p].pid).joinsem > 0
       case GetExitCode(p) => s.pc[p].Reading? && Has(s, s.pc[p].pid)
       case ExitRelease(p) => s.pc[p].Releasing? && Has(s, s.pc[p].pid)
  }

  predicate Has(s: State, pid: nat) { pid < |s.pcb| && s.pcb[pid].Some? }

  function Next(s: State, step: Step): State
    requires Enabled(s, step)
  {
    match step
    case Exec(p, runnable) =>
      var slot := FreeSlot(s.pcb);
      if !runnable || slot == -1 then s
      else s.(pcb := s.pcb[slot := Some(Pcb(p, 0, 0, 0))], pc := s.pc[slot := Computing])
    case ExitCall(p, code) => s.(pc := s.pc[p := Setting(code)], exited := s.exited[p := code])
    case SetExitCode(p) =>
      s.(pcb := s.pcb[p := Some(Block(s, p).(exitcode := s.pc[p].code))], pc := s.pc[p := Announcing])
    case JoinRelease(p) =>
      s.(pcb := s.pcb[p := Some(Block(s, p).(joinsem := Block(s, p).joinsem + 1))], pc := s.pc[p := Waiting])
    case ExitWait(p) =>
      s.(pcb := s.pcb[p := Some(Block(s, p).(exitsem := Block(s, p).exitsem - 1))], pc := s.pc[p := Gone])
    case JoinCall(p, pid) =>
      if MayJoin(s, p, pid) then s.(pc := s.pc[p := Joining(pid)])
      else s.(joined := s.joined + [Joined(p, pid, -1, false)])
    case JoinWait(p) =>
      var c := s.pc[p].pid;
      s.(pcb := s.pcb[c := Some(Block(s, c).(joinsem := Block(s, c).joinsem - 1))], pc := s.pc[p := Reading(c)])
    case GetExitCode(p) =>
      var c := s.pc[p].pid;
      s.(pc := s.pc[p := Releasing(c, Block(s, c).exitcode)], seen := s.seen[c := Block(s, c).exitcode])
    case ExitRelease(p) =>
      var c := s.pc[p].pid;
      s.(pcb := s.pcb[c := Some(Block(s, c).(exitsem := Block(s, c).exitsem + 1))], pc := s.pc[p := Computing],
         joined := s.joined + [Joined(p, c, s.pc[p].code, true)])
  }

  function After(steps: seq<Step>): Option<State> {
    if steps == [] then Some(Initial())
    else
      var before := After(steps[..|steps| - 1]);
      if before.Some? && Enabled(before.value, steps[|steps| - 1]) then Some(Next(before.value, steps[|steps| - 1]))
      else None
  }

  // ---------------------------------------------------------------------------
  // The invariant of one parent and one child

  /** The child has announced its exit. */
  predicate Announced(s: State, c: nat) requires c < |s.pc| { s.pc[c] == Waiting || s.pc[c] == Gone }

  /** The child has called Exit and stored its code. */
  predicate Stored(s: State, c: nat) requires c < |s.pc| { s.pc[c] == Announcing || Announced(s, c) }

  /** The parent is past JoinWait on `c` and has not yet read the code. */
  predicate IsReading(s: State, c: nat) {
    c < |s.pcb| && s.pcb[c].Some? && 0 <= s.pcb[c].value.parent < |s.pc| && s.pc[s.pcb[c].value.parent] == Reading(c)
  }

  predicate IsReleasing(s: State, c: nat) {
    c < |s.pcb| && s.pcb[c].Some? && 0 <= s.pcb[c].value.parent < |s.pc|
    && s.pc[s.pcb[c].value.parent].Releasing? && s.pc[s.pcb[c].value.parent].pid == c
  }

  /** The semaphores of a child count its announcement against the parent's wait, and the parent's
      release against its own; and the code travels unchanged. */
  ghost predicate Handshake(s: State, c: nat)
    requires c < |s.pcb| == |s.pc| && s.pcb[c].Some?
  {
    var b := s.pcb[c].value;
    && b.joinsem == Flag(Announced(s, c)) - Flag(IsReading(s, c) || c in s.seen) && b.joinsem >= 0
    && b.exitsem == Flag(c in s.seen && !IsReleasing(s, c)) - Flag(s.pc[c] == Gone) && b.exitsem >= 0
    && !(IsReading(s, c) && c in s.seen) && (IsReleasing(s, c) ==> c in s.seen)
    && (c in s.exited <==> s.pc[c].Setting? || Stored(s, c))
    && (s.pc[c].Setting? ==> s.exited[c] == s.pc[c].code)
    && (Stored(s, c) ==> b.exitcode == s.exited[c])
    && (c in s.seen ==> Announced(s, c) && s.seen[c] == s.exited[c])
    && (IsReleasing(s, c) ==> s.pc[b.parent].code == s.exited[c])
  }

  /** Whoever is inside Join is inside it for a child of its own. */
  ghost predicate JoinsOwn(s: State, p: nat)
    requires p < |s.pc| == |s.pcb|
  {
    (s.pc[p].Joining? || s.pc[p].Reading? || s.pc[p].Releasing?) ==>
      s.pc[p].pid < |s.pcb| && s.pcb[s.pc[p].pid].Some? && s.pcb[s.pc[p].pid].value.parent == p
  }

  ghost predicate Good(s: State) {
    && Shaped(s)
    && (forall c | 0 <= c < PSIZE && s.pcb[c].Some? :: Handshake(s, c))
    && (forall p | 0 <= p < PSIZE :: JoinsOwn(s, p))
    && (forall c | c in s.seen || c in s.exited :: c < PSIZE && s.pcb[c].Some?)
    && (forall k | 0 <= k < |s.joined| && s.joined[k].normal ::
          s.joined[k].pid in s.exited && s.joined[k].code == s.exited[s.joined[k].pid])
  }

  /** A step of Exit keeps the handshake of every child. */
  lemma HandshakeExit(s: State, step: Step, c: nat)
    requires Good(s) && Enabled(s, step) && (step.ExitCall? || step.SetExitCode? || step.JoinRelease? || step.ExitWait?)
    requires c < PSIZE && s.pcb[c].Some?
    ensures Next(s, step).pcb[c].Some? && Handshake(Next(s, step), c)
  {
    assert Handshake(s, c) && JoinsOwn(s, step.p);
  }

  /** A step of Join keeps the handshake of every child. */
  lemma HandshakeJoin(s: State, step: Step, c: nat)
    requires Good(s) && Enabled(s, step) && (step.JoinCall? || step.JoinWait? || step.GetExitCode? || step.ExitRelease?)
    requires c < PSIZE && s.pcb[c].Some?
    ensures Next(s, step).pcb[c].Some? && Handshake(Next(s, step), c)
  {
    assert Handshake(s, c) && JoinsOwn(s, step.p);
  }

  lemma HandshakeExec(s: State, step: Step, c: nat)
    requires Good(s) && Enabled(s, step) && step.Exec?
    requires c < PSIZE && Next(s, step).pcb[c].Some?
    ensures Handshake(Next(s, step), c)
  {
    if s.pcb[c].Some? { assert Handshake(s, c); }
  }

  lemma JoinsOwnStep(s: State, step: Step, p: nat)
    requires Good(s) && Enabled(s, step) && p < PSIZE
    ensures JoinsOwn(Next(s, step), p)
  {
    hide Handshake, FreeSlot;
    assert JoinsOwn(s, p) && JoinsOwn(s, step.p);
  }

  /** The Join recorded by a step returns what the child passed to Exit. */
  lemma JoinedStep(s: State, step: Step, k: nat)
    requires Good(s) && Enabled(s, step)
    requires k < |Next(s, step).joined| && Next(s, step).joined[k].normal
    ensures var s' := Next(s, step); s'.joined[k].pid in s'.exited && s'.joined[k].code == s'.exited[s'.joined[k].pid]
  {
    var s' := Next(s, step);
    if step.ExitCall? {
      assert Handshake(s, step.p);
    }
    if step.ExitRelease? {
      var c := s.pc[step.p].pid;
      assert JoinsOwn(s, step.p) && Handshake(s, c);
    }
  }

  lemma TablesStep(s: State, step: Step)
    requires Good(s) && Enabled(s, step)
    ensures Shaped(Next(s, step))
    ensures forall c | c in Next(s, step).seen || c in Next(s, step).exited :: c < PSIZE && Next(s, step).pcb[c].Some?
  {
    hide Handshake, JoinsOwn;
  }

  /** Every step of every process keeps the invariant. */
  lemma GoodStep(s: State, step: Step)
    requires Good(s) && Enabled(s, step)
    ensures Good(Next(s, step))
  {
    TablesStep(s, step);
    forall c | 0 <= c < PSIZE && Next(s, step).pcb[c].Some?
      ensures Handshake(Next(s, step), c)
    {
      if step.Exec? {
        HandshakeExec(s, step, c);
      } else if step.ExitCall? || step.SetExitCode? || step.JoinRelease? || step.ExitWait? {
        HandshakeExit(s, step, c);
      } else {
        HandshakeJoin(s, step, c);
      }
    }
    forall p | 0 <= p < PSIZE
      ensures JoinsOwn(Next(s, step), p)
    {
      JoinsOwnStep(s, step, p);
    }
    forall k | 0 <= k < |Next(s, step).joined| && Next(s, step).joined[k].normal
      ensures var s' := Next(s, step); s'.joined[k].pid in s'.exited && s'.joined[k].code == s'.exited[s'.joined[k].pid]
    {
      JoinedStep(s, step, k);
    }
  }

  lemma {:induction false} RunIsGood(steps: seq<Step>)
    requires After(steps).Some?
    ensures Good(After(steps).value)
  {
    if steps == [] {
    } else {
      var n := |steps| - 1;
      RunIsGood(steps[..n]);
      GoodStep(After(steps[..n]).value, steps[n]);
    }
  }

  // ---------------------------------------------------------------------------
  // Main results

  /** In every interleaving, a Join that gets past its checks returns exactly what the child passed
      to Exit. */
  lemma JoinReturnsExitCode(steps: seq<Step>)
    requires After(steps).Some?
    ensures var s := After(steps).value;
            forall k | 0 <= k < |s.joined| && s.joined[k].normal ::
              s.joined[k].pid in s.exited && s.joined[k].code == s.exited[s.joined[k].pid]
  {
    RunIsGood(steps);
  }

  /** No child gets past ExitWait before its code has been read, and read right. */
  lemma ExitWaitsForRead(steps: seq<Step>, c: nat)
    requires After(steps).Some? && c < PSIZE
    ensures var s := After(steps).value;
            c < |s.pc| && (s.pc[c] == Gone ==> c in s.seen && c in s.exited && s.seen[c] == s.exited[c])
  {
    RunIsGood(steps);
    var s := After(steps).value;
    if s.pc[c] == Gone { assert Handshake(s, c); }
  }

  /** The handshake makes progress: once the child has announced its exit, the first Join on it can
      pass; and once that Join has let it go, the child can leave. */
  lemma HandshakeProgress(steps: seq<Step>, p: nat, c: nat)
    requires After(steps).Some? && Has(After(steps).value, c) && p < |After(steps).value.pc|
    requires c < |After(steps).value.pc| && After(steps).value.pc[c] == Waiting
    ensures var s := After(steps).value;
            && (s.pc[p] == Joining(c) && c !in s.seen ==> Enabled(s, JoinWait(p)))
            && (c in s.seen && !IsReleasing(s, c) ==> Enabled(s, ExitWait(c)))
  {
    RunIsGood(steps);
    var s := After(steps).value;
    assert Handshake(s, c) && JoinsOwn(s, p);
  }

  // ---------------------------------------------------------------------------
  // Slots

  /** The slots in use are an initial stretch of the table. */
  ghost predicate Packed(s: State, n: nat) {
    && 0 < n <= |s.pcb| == PSIZE
    && forall i | 0 <= i < PSIZE :: s.pcb[i].Some? <==> i < n
  }

  function Execs(steps: seq<Step>): nat {
    if steps == [] then 0
    else
      var last := steps[|steps| - 1];
      Execs(steps[..|steps| - 1]) + Flag(last.Exec? && last.runnable)
  }

  lemma {:induction false} FreeSlotOfPacked(pcb: seq<Option<Pcb>>, n: nat, i: nat)
    requires i <= n <= |pcb|
    requires forall j | 0 <= j < |pcb| :: pcb[j].Some? <==> j < n
    ensures FreeSlot(pcb, i) == if n < |pcb| then n else -1
    decreases n - i
  {
    if i < n { FreeSlotOfPacked(pcb, n, i + 1); }
  }

  lemma PackedStep(s: State, step: Step, n: nat)
    requires Packed(s, n) && Enabled(s, step)
    ensures Packed(Next(s, step), if step.Exec? && step.runnable && n < PSIZE then n + 1 else n)
  {
    hide FreeSlot, MayJoin;
    FreeSlotOfPacked(s.pcb, n, 0);
  }

  /** Exec hands out slots one, two, three and so on, none twice, until all ten are in use. */
  lemma {:induction false} SlotsInOrder(steps: seq<Step>)
    requires After(steps).Some?
    ensures var n := 1 + Execs(steps); Packed(After(steps).value, if n < PSIZE then n else PSIZE)
  {
    hide Next, Enabled;
    if steps != [] {
      var k := |steps| - 1;
      SlotsInOrder(steps[..k]);
      var n := 1 + Execs(steps[..k]);
      PackedStep(After(steps[..k]).value, steps[k], if n < PSIZE then n else PSIZE);
    }
  }

  /** No process is ever kept from its next statement but by the two semaphores: whoever computes may call
      Exec, Exit or Join, and inside them each statement follows the one before. */
  lemma NextStatement(steps: seq<Step>, p: nat, pid: int, code: int, runnable: bool)
    requires After(steps).Some? && p < PSIZE
    ensures var s := After(steps).value;
            && |s.pc| == |s.pcb| == PSIZE
            && (s.pc[p] == Computing ==> Enabled(s, Exec(p, runnable)) && (p != 0 ==> Enabled(s, ExitCall(p, code))))
            && (s.pc[p] == Computing && !(0 <= pid < PSIZE && s.pc[pid] == Gone) ==> Enabled(s, JoinCall(p, pid)))
            && (s.pc[p].Setting? ==> Enabled(s, SetExitCode(p)))
               && (s.pc[p] == Announcing ==> Enabled(s, JoinRelease(p)))
            && (s.pc[p].Reading? ==> Enabled(s, GetExitCode(p))) && (s.pc[p].Releasing? ==> Enabled(s, ExitRelease(p)))
  {
    RunIsGood(steps);
    assert JoinsOwn(After(steps).value, p);
  }

  // ---------------------------------------------------------------------------
  // Whose child is whose, from the list of steps alone

  /** The Exec at place `j` of the run was by process `p` and got slot `c`: the slots are handed out in order. */
  predicate Got(steps: seq<Step>, j: nat, p: nat, c: int) {
    j < |steps| && steps[j] == Exec(p, true) && c == 1 + Execs(steps[..j]) && c < PSIZE
  }

  /** Some Exec by `p` got slot `c`. */
  ghost predicate IsChild(steps: seq<Step>, p: nat, c: int) {
    exists j: nat | j < |steps| :: Got(steps, j, p, c)
  }

  lemma IsChildSnoc(steps: seq<Step>, p: nat, c: int)
    requires steps != []
    ensures var n := |steps| - 1; IsChild(steps, p, c) <==> IsChild(steps[..n], p, c) || Got(steps, n, p, c)
  {
    hide Execs;
    var n := |steps| - 1;
    forall j: nat | j < n
      ensures Got(steps[..n], j, p, c) <==> Got(steps, j, p, c)
    {
      assert steps[..n][..j] == steps[..j];
    }
    if IsChild(steps[..n], p, c) {
      var j: nat :| j < n && Got(steps[..n], j, p, c);
      assert Got(steps, j, p, c);
    }
    if IsChild(steps, p, c) {
      var j: nat :| j < |steps| && Got(steps, j, p, c);
      assert j < n ==> Got(steps[..n], j, p, c);
    }
  }

  /** One step makes a new block in the first empty slot for a runnable Exec, and changes no parent. */
  lemma ParentStep(s: State, step: Step, n: nat, c: int)
    requires Packed(s, n) && Enabled(s, step) && 0 <= c < PSIZE
    ensures var s' := Next(s, step);
            && |s'.pcb| == PSIZE
            && (step.Exec? && step.runnable && c == n ==> s'.pcb[c].Some? && s'.pcb[c].value.parent == step.p)
            && (!(step.Exec? && step.runnable && c == n) ==>
                  && s'.pcb[c].Some? == s.pcb[c].Some?
                  && (s.pcb[c].Some? ==> s'.pcb[c].value.parent == s.pcb[c].value.parent))
  {
    hide FreeSlot, MayJoin;
    FreeSlotOfPacked(s.pcb, n, 0);
  }

  /** After any run, the parent of a slot in use is the process whose Exec got it; slot zero has none. */
  lemma {:induction false} ParentsAreExecs(steps: seq<Step>, p: nat, c: int)
    requires After(steps).Some?
    ensures var s := After(steps).value;
            && |s.pcb| == PSIZE
            && (IsChild(steps, p, c) <==> 0 <= c < PSIZE && s.pcb[c].Some? && s.pcb[c].value.parent == p)
  {
    hide Next, Enabled, Execs, Got, IsChild;
    SlotsInOrder(steps);
    if steps == [] {
      NoChildYet(p, c);
    } else {
      var k := |steps| - 1;
      var s := After(steps[..k]).value;
      ParentsAreExecs(steps[..k], p, c);
      SlotsInOrder(steps[..k]);
      IsChildSnoc(steps, p, c);
      GotMeans(steps, k, p, c);
      if 0 <= c < PSIZE {
        var n := 1 + Execs(steps[..k]);
        ParentStep(s, steps[k], if n < PSIZE then n else PSIZE, c);
      }
    }
  }

  lemma GotMeans(steps: seq<Step>, j: nat, p: nat, c: int)
    requires j < |steps|
    ensures Got(steps, j, p, c) <==> steps[j] == Exec(p, true) && c == 1 + Execs(steps[..j]) && c < PSIZE
  {
  }

  lemma NoChildYet(p: nat, c: int)
    ensures !IsChild([], p, c) && After([]) == Some(Initial())
    ensures forall i | 0 <= i < PSIZE :: Initial().pcb[i].Some? ==> Initial().pcb[i].value.parent != p
  {
  }

  /** At any point of any run, a Join of a process that is not gone waits for it exactly when some Exec by
      the caller got its slot; any other Join returns -1 at once. */
  lemma JoinWaitsExactly(steps: seq<Step>, p: nat, pid: int)
    requires After(steps).Some? && Enabled(After(steps).value, JoinCall(p, pid))
    ensures var s := After(steps).value;
            var s' := Next(s, JoinCall(p, pid));
            && (IsChild(steps, p, pid) ==> pid >= 0 && s' == s.(pc := s.pc[p := Joining(pid)]))
            && (!IsChild(steps, p, pid) ==> s' == s.(joined := s.joined + [Joined(p, pid, -1, false)]))
  {
    hide After, IsChild;
    ParentsAreExecs(steps, p, pid);
  }

  /** The joins that a run refused, with who asked, for whom, and when. */
  ghost predicate RefusedAt(steps: seq<Step>, j: nat, p: nat, pid: int) {
    j < |steps| && steps[j] == JoinCall(p, pid) && !IsChild(steps[..j], p, pid)
  }

  /** Every Join that did not take the normal path was refused at some step, when no Exec by its caller had
      got the slot it names. */
  lemma {:induction false} RefusedAreNoChildren(steps: seq<Step>, k: nat)
    requires After(steps).Some? && k < |After(steps).value.joined| && !After(steps).value.joined[k].normal
    ensures var r := After(steps).value.joined[k];
            r.code == -1 && exists j: nat | j < |steps| :: RefusedAt(steps, j, r.parent, r.pid)
  {
    hide Next, Enabled, IsChild;
    if steps != [] {
      var n := |steps| - 1;
      var s := After(steps[..n]).value;
      JoinedBy(s, steps[n]);
      if k < |s.joined| {
        RefusedAreNoChildren(steps[..n], k);
        var r := s.joined[k];
        var j: nat :| j < n && RefusedAt(steps[..n], j, r.parent, r.pid);
        assert steps[..n][..j] == steps[..j];
        assert RefusedAt(steps, j, r.parent, r.pid);
      } else {
        var step := steps[n];
        assert step.JoinCall?;
        JoinWaitsExactly(steps[..n], step.p, step.pid);
        assert RefusedAt(steps, n, step.p, step.pid);
      }
    }
  }

  /** Only a Join call records a refusal, and the record only grows. */
  lemma JoinedBy(s: State, step: Step)
    requires Enabled(s, step)
    ensures var s' := Next(s, step);
            && s.joined <= s'.joined && |s'.joined| <= |s.joined| + 1
            && (|s'.joined| > |s.joined| && !s'.joined[|s.joined|].normal ==> step.JoinCall?)
  {
    hide FreeSlot;
  }

  // ---------------------------------------------------------------------------
  // The table's own code, which changes the control blocks in place.  Each method is one statement of
  // Exec, Exit or Join; `pc` says where each process stands, and the ghost fields keep the history.

  class PTable {
    const pcb: array<Option<Pcb>>
    var pc: seq<Pc>
    ghost var exited: map<nat, int>
    ghost var seen: map<nat, int>
    ghost var joined: seq<Joined>

    ghost function Snapshot(): State
      reads this, pcb
    {
      State(pcb[..], pc, exited, seen, joined)
    }

    constructor ()
      ensures Snapshot() == Initial() && fresh(pcb)
    {
      pcb := new Option<Pcb>[PSIZE](i => if i == 0 then Some(Pcb(-1, 0, 0, 0)) else None);
      pc, exited, seen, joined := [Computing] + seq(PSIZE - 1, i => Absent), map[], map[], [];
    }

    /** Exec: a block in the first empty slot, or -1 when there is none or the program cannot run. */
    method ExecUpdate(p: nat, runnable: bool) returns (id: int)
      requires Enabled(Snapshot(), Exec(p, runnable))
      modifies this, pcb
      ensures Snapshot() == Next(old(Snapshot()), Exec(p, runnable))
      ensures id == if runnable then FreeSlot(old(pcb[..])) else -1
    {
      if !runnable {
        return -1;
      }
      var index := GetFreeSlot(pcb[..]);
      if index < 0 {
        return -1;
      }
      pcb[index] := Some(Pcb(p, 0, 0, 0));
      pc := pc[index := Computing];
      return index;
    }

    /** Exit is called by a process other than the first. */
    method CallExit(p: nat, extcode: int)
      requires Enabled(Snapshot(), ExitCall(p, extcode))
      modifies this
      ensures Snapshot() == Next(old(Snapshot()), ExitCall(p, extcode))
    {
      exited := exited[p := extcode];
      pc := pc[p := Setting(extcode)];
    }

    method StoreExitCode(p: nat)
      requires Enabled(Snapshot(), SetExitCode(p))
      modifies this, pcb
      ensures Snapshot() == Next(old(Snapshot()), SetExitCode(p))
    {
      pcb[p] := Some(pcb[p].value.(exitcode := pc[p].code));
      pc := pc[p := Announcing];
    }

    method AnnounceExit(p: nat)
      requires Enabled(Snapshot(), JoinRelease(p))
      modifies this, pcb
      ensures Snapshot() == Next(old(Snapshot()), JoinRelease(p))
    {
      pcb[p] := Some(pcb[p].value.(joinsem := pcb[p].value.joinsem + 1));
      pc := pc[p := Waiting];
    }

    method PassExitWait(p: nat)
      requires Enabled(Snapshot(), ExitWait(p))
      modifies this, pcb
      ensures Snapshot() == Next(old(Snapshot()), ExitWait(p))
    {
      pcb[p] := Some(pcb[p].value.(exitsem := pcb[p].value.exitsem - 1));
      pc := pc[p := Gone];
    }

    /** Join's check: only an existing child of the caller may be joined. */
    method CheckJoin(p: nat, pid: int) returns (ok: bool)
      requires Enabled(Snapshot(), JoinCall(p, pid))
      modifies this
      ensures ok == MayJoin(old(Snapshot()), p, pid)
      ensures Snapshot() == Next(old(Snapshot()), JoinCall(p, pid))
    {
      if pid < 0 || pid >= pcb.Length || pcb[pid] == None || pcb[pid].value.parent != p {
        joined := joined + [Joined(p, pid, -1, false)];
        return false;
      }
      pc := pc[p := Joining(pid)];
      return true;
    }

    method PassJoinWait(p: nat)
      requires Enabled(Snapshot(), JoinWait(p))
      modifies this, pcb
      ensures Snapshot() == Next(old(Snapshot()), JoinWait(p))
    {
      var pid := pc[p].pid;
      pcb[pid] := Some(pcb[pid].value.(joinsem := pcb[pid].value.joinsem - 1));
      pc := pc[p := Reading(pid)];
    }

    method ReadExitCode(p: nat)
      requires Enabled(Snapshot(), GetExitCode(p))
      modifies this
      ensures Snapshot() == Next(old(Snapshot()), GetExitCode(p))
    {
      var pid := pc[p].pid;
      seen := seen[pid := pcb[pid].value.exitcode];
      pc := pc[p := Releasing(pid, pcb[pid].value.exitcode)];
    }

    /** The end of Join: the child may go, and its code is returned. */
    method FinishJoin(p: nat) returns (extcode: int)
      requires Enabled(Snapshot(), ExitRelease(p))
      modifies this, pcb
      ensures Snapshot() == Next(old(Snapshot()), ExitRelease(p))
      ensures joined == old(joined) + [Joined(p, old(pc[p].pid), extcode, true)]
    {
      var pid := pc[p].pid;
      extcode := pc[p].code;
      pcb[pid] := Some(pcb[pid].value.(exitsem := pcb[pid].value.exitsem + 1));
      pc := pc[p := Computing];
      joined := joined + [Joined(p, pid, extcode, true)];
    }

    /** Whatever statement a process comes to: the code takes exactly the step of the model. */
    method Take(step: Step)
      requires Enabled(Snapshot(), step)
      modifies this, pcb
      ensures Snapshot() == Next(old(Snapshot()), step)
    {
      hide Next, Enabled;
      match step
      case Exec(p, runnable) => var _ := ExecUpdate(p, runnable);
      case ExitCall(p, code) => CallExit(p, code);
      case SetExitCode(p) => StoreExitCode(p);
      case JoinRelease(p) => AnnounceExit(p);
      case ExitWait(p) => PassExitWait(p);
      case JoinCall(p, pid) => var _ := CheckJoin(p, pid);
      case JoinWait(p) => PassJoinWait(p);
      case GetExitCode(p) => ReadExitCode(p);
      case ExitRelease(p) => var _ := FinishJoin(p);
    }
  }

  /** Any interleaving of the processes, run by the table's code: every Join that passed its checks returned
      what the child passed to Exit, and no child is gone whose code was not read. */
  method RunTable(steps: seq<Step>) returns (t: PTable)
    requires After(steps).Some?
    ensures Some(t.Snapshot()) == After(steps) && Good(t.Snapshot())
    ensures forall k | 0 <= k < |t.joined| && t.joined[k].normal ::
              t.joined[k].pid in t.exited && t.joined[k].code == t.exited[t.joined[k].pid]
    ensures forall c | 0 <= c < |t.pc| && t.pc[c] == Gone :: c in t.seen && c in t.exited && t.seen[c] == t.exited[c]
  {
    hide Good, Next, Enabled;
    t := new PTable();
    for n := 0 to |steps|
      invariant fresh(t) && fresh(t.pcb)
      invariant Some(t.Snapshot()) == After(steps[..n])
    {
      AfterPrefix(steps, n + 1);
      assert steps[..n + 1][..n] == steps[..n];
      t.Take(steps[n]);
    }
    assert steps[..|steps|] == steps;
    RunIsGood(steps);
    JoinReturnsExitCode(steps);
    TableSize(t.Snapshot());
    forall c | 0 <= c < |t.pc| && t.pc[c] == Gone
      ensures c in t.seen && c in t.exited && t.seen[c] == t.exited[c]
    {
      ExitWaitsForRead(steps, c);
    }
  }

  lemma TableSize(s: State)
    requires Good(s)
    ensures |s.pc| == PSIZE
  {
  }

  lemma {:induction false} AfterPrefix(steps: seq<Step>, n: nat)
    requires After(steps).Some? && n <= |steps|
    ensures After(steps[..n]).Some?
  {
    hide Next, Enabled;
    if n < |steps| {
      AfterPrefix(steps[..|steps| - 1], n);
      assert steps[..|steps| - 1][..n] == steps[..n];
    } else {
      assert steps[..n] == steps;
    }
  }
}
