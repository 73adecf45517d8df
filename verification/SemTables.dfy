/** The table of named semaphores of threads/stable.cc: ten slots, a bitmap saying which are
    taken, and linear search by name. */
module SemTables {
  import opened Common
  import opened BitMaps
  import opened NameTables
  import K = Kernel

  const MAX_SEMAPHORE := 10

  type Slot = NameTables.Slot<string, K.Sem>

  /** A new semaphore: nobody waits on it. */
  function NewSem(init: int): K.Sem { K.Sem(init, [], init, 0, 0, {}) }

  function Retested(m: K.Sem, t: K.Tid): K.Sem { K.Tried(m.(woken := m.woken - {t}), t) }

  /** How a Wait or Signal ends: no such name; done; or, for Wait only, the caller blocks. */
  datatype Outcome = Missing | Done | Blocks

  class STable {
    const bm: BitMap
    const semTab: array<Slot>

    /** Bit `i` is set exactly when slot `i` holds a semaphore, and the names are distinct. */
    ghost predicate Valid()
      reads semTab, bm.words
    {
      && bm.Valid() && bm.numBits == semTab.Length == MAX_SEMAPHORE
      && bm.words as object != semTab as object
      && bm.Bits() == InUse(semTab[..])
      && NamesDistinct(semTab[..])
    }

    ghost function Names(): map<string, K.Sem>
      reads semTab
    {
      MapOf(semTab[..])
    }

    constructor ()
      ensures Valid() && Names() == map[] && fresh(semTab) && fresh(bm.words)
    {
      bm := new BitMap(MAX_SEMAPHORE);
      semTab := new Slot[MAX_SEMAPHORE];
      new;
      for i := 0 to MAX_SEMAPHORE
        invariant forall j | 0 <= j < i :: semTab[j].Empty?
        invariant bm.numBits == MAX_SEMAPHORE && bm.Valid() && forall j | 0 <= j < MAX_SEMAPHORE :: !bm.Bits()[j]
      {
        semTab[i] := Empty;
      }
      MapIs(semTab[..], map[]);
    }

    /** The slot with the given name, found by scanning the taken slots, or -1. */
    method Lookup(name: string) returns (at: int)
      requires Valid()
      ensures at == -1 <==> name !in Names()
      ensures at != -1 ==> 0 <= at < MAX_SEMAPHORE && semTab[at].Named? && semTab[at].name == name
      ensures at != -1 ==> Names()[name] == semTab[at].value
    {
      MapReadsSlots(semTab[..]);
      var i := 0;
      while i < MAX_SEMAPHORE
        invariant 0 <= i <= MAX_SEMAPHORE
        invariant forall j | 0 <= j < i :: semTab[..][j].Named? ==> semTab[..][j].name != name
      {
        var taken := bm.Test(i);
        if taken && semTab[i].name == name {
          assert semTab[..][i].Named?;
          return i;
        }
        i := i + 1;
      }
      return -1;
    }

    /** Fails exactly on a name already taken or a full table, leaving the table alone; otherwise
        adds the name with the given value. */
    method Create(name: string, init: int) returns (r: int)
      requires Valid() && |name| < 50
      modifies semTab, bm.words
      ensures Valid()
      ensures r == 0 || r == -1
      ensures r == -1 <==> name in old(Names()) || |old(Names())| == MAX_SEMAPHORE
      ensures Names() == if r == 0 then old(Names())[name := NewSem(init)] else old(Names())
    {
      var found := Lookup(name);
      if found != -1 {
        return -1;
      }
      MapCounts(semTab[..]);
      ghost var t := semTab[..];
      var pid := bm.Find();
      assert semTab[..] == t;
      if pid < 0 {
        return -1;
      }
      MapAfterCreate(t, pid, name, NewSem(init));
      semTab[pid] := Named(name, NewSem(init));
      assert semTab[..] == t[pid := Named(name, NewSem(init))];
      assert InUse(semTab[..]) == InUse(t)[pid := true];
      return 0;
    }

    /** A pass of P by thread `t` on the semaphore of the given name: it consumes a unit, or queues up. */
    method Wait(name: string, t: K.Tid) returns (r: Outcome)
      requires Valid()
      modifies semTab
      ensures Valid()
      ensures r == Missing <==> name !in old(Names())
      ensures r == Blocks <==> name in old(Names()) && old(Names())[name].value == 0
      ensures Names() == if r == Missing then old(Names()) else old(Names())[name := K.Tried(old(Names())[name], t)]
    {
      var at := Lookup(name);
      if at == -1 {
        return Missing;
      }
      var sem := semTab[at].value;
      SetValue(at, K.Tried(sem, t));
      return if sem.value == 0 then Blocks else Done;
    }

    /** A later pass of P by a thread that was woken: it gives up its claim, and consumes a unit or queues up
        again. */
    method Retest(name: string, t: K.Tid) returns (r: Outcome)
      requires Valid() && (name in Names() ==> t in Names()[name].woken)
      modifies semTab
      ensures Valid()
      ensures r == Missing <==> name !in old(Names())
      ensures r == Blocks <==> name in old(Names()) && old(Names())[name].value == 0
      ensures Names() == if r == Missing then old(Names()) else old(Names())[name := Retested(old(Names())[name], t)]
    {
      var at := Lookup(name);
      if at == -1 {
        return Missing;
      }
      var sem := semTab[at].value;
      SetValue(at, Retested(sem, t));
      return if sem.value == 0 then Blocks else Done;
    }

    /** V on the semaphore of the given name; the thread to make ready, if any waits. */
    method Signal(name: string) returns (r: Outcome, woken: Option<K.Tid>)
      requires Valid()
      modifies semTab
      ensures Valid()
      ensures r == if name in old(Names()) then Done else Missing
      ensures Names() == if r == Missing then old(Names()) else old(Names())[name := K.Raised(old(Names())[name])]
      ensures woken == if r == Missing || old(Names())[name].queue == [] then None
              else Some(old(Names())[name].queue[0])
    {
      var at := Lookup(name);
      if at == -1 {
        return Missing, None;
      }
      var sem := semTab[at].value;
      SetValue(at, K.Raised(sem));
      return Done, if sem.queue == [] then None else Some(sem.queue[0]);
    }

    method SetValue(at: nat, value: K.Sem)
      requires Valid() && at < MAX_SEMAPHORE && semTab[at].Named?
      modifies semTab
      ensures Valid() && Names() == old(Names())[old(semTab[at]).name := value]
    {
      ghost var t := semTab[..];
      MapAfterUpdate(t, at, value);
      semTab[at] := Named(semTab[at].name, value);
      assert semTab[..] == t[at := Named(t[at].name, value)];
      assert InUse(semTab[..]) == InUse(t);
    }

    /** Whatever is asked of the table: it changes as the map does. */
    method Do(op: Op)
      requires Valid() && Allowed(Names(), op)
      modifies semTab, bm.words
      ensures Valid() && Names() == Applied(old(Names()), op)
    {
      hide K.Tried, K.Raised, MapOf;
      match op
      case Make(name, init) => var _ := Create(name, init);
      case Down(name, t) => var _ := Wait(name, t);
      case Again(name, t) => var _ := Retest(name, t);
      case Up(name) => var _, _ := Signal(name);
    }
  }

  // ---------------------------------------------------------------------------
  // Any run of the table

  /** A request by name; `Again` is the re-test of a thread that was woken. */
  datatype Op = Make(name: string, init: int) | Down(name: string, t: K.Tid) | Again(name: string,
        t: K.Tid) | Up(name: string)

  /** A thread that waits, or was woken and has yet to re-test, makes no other request of that semaphore. */
  predicate Allowed(m: map<string, K.Sem>, op: Op) {
    match op
    case Make(name, _) => |name| < 50
    case Down(name, t) => name in m ==> t !in m[name].queue && t !in m[name].woken
    case Again(name, t) => name in m && t in m[name].woken
    case Up(_) => true
  }

  /** What a request does to the map of names; a request for an unknown name does nothing. */
  function Applied(m: map<string, K.Sem>, op: Op): map<string, K.Sem> {
    match op
    case Make(name, init) => if name in m || |m| == MAX_SEMAPHORE then m else m[name := NewSem(init)]
    case Down(name, t) => if name in m then m[name := K.Tried(m[name], t)] else m
    case Again(name, t) => if name in m then m[name := Retested(m[name], t)] else m
    case Up(name) => if name in m then m[name := K.Raised(m[name])] else m
  }

  function AppliedAll(ops: seq<Op>): Option<map<string, K.Sem>> {
    if ops == [] then Some(map[])
    else
      var before := AppliedAll(ops[..|ops| - 1]);
      if before.Some? && Allowed(before.value, ops[|ops| - 1]) then Some(Applied(before.value, ops[|ops| - 1]))
          else None
  }

  /** No wake-up is lost, and no thread both waits and is woken or waits twice. */
  ghost predicate Sound(sem: K.Sem) {
    && K.SemGood(sem) && K.NoDuplicates(sem.queue)
    && forall i | 0 <= i < |sem.queue| :: sem.queue[i] !in sem.woken
  }

  ghost predicate AllSound(m: map<string, K.Sem>) {
    forall name | name in m :: Sound(m[name])
  }

  lemma NewIsSound(init: int)
    ensures Sound(NewSem(init))
  {
  }

  lemma DownIsSound(sem: K.Sem, t: K.Tid)
    requires Sound(sem) && t !in sem.queue && t !in sem.woken
    ensures Sound(K.Tried(sem, t))
  {
    hide K.SemGood;
    K.TriedIsGood(sem, t);
  }

  lemma AgainIsSound(sem: K.Sem, t: K.Tid)
    requires Sound(sem) && t in sem.woken
    ensures Sound(Retested(sem, t))
  {
    hide K.SemGood;
    K.RetestIsGood(sem, t);
  }

  lemma UpIsSound(sem: K.Sem)
    requires Sound(sem)
    ensures Sound(K.Raised(sem))
  {
    hide K.SemGood;
    K.RaisedIsGood(sem);
  }

  /** Every request keeps every semaphore in the table sound. */
  lemma AppliedIsSound(m: map<string, K.Sem>, op: Op)
    requires AllSound(m) && Allowed(m, op)
    ensures AllSound(Applied(m, op))
  {
    hide Sound, K.Tried, K.Raised, Retested;
    match op
    case Make(_, init) => NewIsSound(init);
    case Down(name, t) => if name in m { DownIsSound(m[name], t); }
    case Again(name, t) => AgainIsSound(m[name], t);
    case Up(name) => if name in m { UpIsSound(m[name]); }
  }

  lemma {:induction false} RunIsSound(ops: seq<Op>)
    requires AppliedAll(ops).Some?
    ensures AllSound(AppliedAll(ops).value)
  {
    hide AllSound, Applied, Allowed;
    if ops == [] {
      NoneUnsound();
    } else {
      RunIsSound(ops[..|ops| - 1]);
      AppliedIsSound(AppliedAll(ops[..|ops| - 1]).value, ops[|ops| - 1]);
    }
  }

  // ---------------------------------------------------------------------------
  // Counting the requests

  /** The request is a pass of P under this name that did not leave its caller on the queue. */
  predicate Through(m: map<string, K.Sem>, op: Op, m': map<string, K.Sem>, name: string) {
    (op.Down? || op.Again?) && op.name == name && name in m && name in m' && op.t !in m'[name].queue
  }

  /** What one request does to the semaphore of a given name. */
  lemma NamedStep(m: map<string, K.Sem>, op: Op, name: string)
    requires AllSound(m) && Allowed(m, op)
    ensures var m' := Applied(m, op);
            && (name in m ==>
                  && name in m' && (op.name != name ==> m'[name] == m[name])
                  && m'[name].value == m[name].value + Flag(op == Up(name)) - Flag(Through(m, op, m', name)))
            && (name !in m && name in m' ==> op.Make? && op.name == name && m'[name].value == op.init)
  {
    if name in m { assert Sound(m[name]); }
  }

  /** The value that the name was created with, in this list of requests. */
  ghost function Start(ops: seq<Op>, name: string): int {
    if ops == [] then 0
    else
      var n := |ops| - 1;
      var before, after := AppliedAll(ops[..n]), AppliedAll(ops);
      if before.Some? && after.Some? && name !in before.value && name in after.value && ops[n].Make? then ops[n].init
      else Start(ops[..n], name)
  }

  /** How often the name, once created, was signalled. */
  ghost function Ups(ops: seq<Op>, name: string): nat {
    if ops == [] then 0
    else
      var n := |ops| - 1;
      var before := AppliedAll(ops[..n]);
      Ups(ops[..n], name) + Flag(ops[n] == Up(name) && before.Some? && name in before.value)
  }

  /** How often a Wait under the name went through. */
  ghost function Throughs(ops: seq<Op>, name: string): nat {
    if ops == [] then 0
    else
      var n := |ops| - 1;
      var before, after := AppliedAll(ops[..n]), AppliedAll(ops);
      Throughs(ops[..n], name) + Flag(before.Some? && after.Some? && Through(before.value, ops[n], after.value, name))
  }

  /** After any run a semaphore's value is what it was created with plus its signals minus its waits that
      went through, counted in the list of requests. */
  lemma {:induction false} NamedValueCounts(ops: seq<Op>, name: string)
    requires AppliedAll(ops).Some?
    ensures var m := AppliedAll(ops).value;
            if name in m then m[name].value == Start(ops, name) + Ups(ops, name) - Throughs(ops, name)
            else Ups(ops, name) == 0 && Throughs(ops, name) == 0
  {
    hide Applied, Allowed, Through, AllSound;
    if ops != [] {
      var n := |ops| - 1;
      NamedValueCounts(ops[..n], name);
      RunIsSound(ops[..n]);
      NamedStep(AppliedAll(ops[..n]).value, ops[n], name);
      ThroughNeedsName(AppliedAll(ops[..n]).value, ops[n], AppliedAll(ops).value, name);
    }
  }

  lemma ThroughNeedsName(m: map<string, K.Sem>, op: Op, m': map<string, K.Sem>, name: string)
    ensures Through(m, op, m', name) ==> name in m
  {
  }

  lemma NoneUnsound()
    ensures AllSound(map[])
  {
  }

  lemma {:induction false} AppliedPrefix(ops: seq<Op>, n: nat)
    requires AppliedAll(ops).Some? && n <= |ops|
    ensures AppliedAll(ops[..n]).Some?
  {
    hide Applied, Allowed;
    if n < |ops| {
      AppliedPrefix(ops[..|ops| - 1], n);
      assert ops[..|ops| - 1][..n] == ops[..n];
    } else {
      assert ops[..n] == ops;
    }
  }

  /** Any run of requests by name: the table is the map that the requests make of the empty one, and no
      semaphore in it ever loses a wake-up. */
  method RunOps(ops: seq<Op>) returns (table: STable)
    requires AppliedAll(ops).Some?
    ensures table.Valid() && Some(table.Names()) == AppliedAll(ops) && AllSound(table.Names())
  {
    hide AllSound, Applied, Allowed, MapOf, InUse, NamesDistinct;
    table := new STable();
    for n := 0 to |ops|
      invariant table.Valid() && fresh(table.semTab) && fresh(table.bm.words)
      invariant Some(table.Names()) == AppliedAll(ops[..n])
    {
      AppliedPrefix(ops, n + 1);
      assert ops[..n + 1][..n] == ops[..n];
      table.Do(ops[n]);
    }
    assert ops[..|ops|] == ops;
    RunIsSound(ops);
  }
}
