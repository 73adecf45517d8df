/** Processes running side by side: whatever order their loads and stores come in, each behaves as if it
    had a memory of its own. */
module Isolation {
  import opened Common
  import opened Words
  import opened BitMaps
  import opened Files
  import opened Translation
  import opened AddressSpaces

  type Size = s: int | IsSize(s) witness 1

  /** A load or a store by process `p`. */
  datatype Access = Load(p: nat, addr: Int32, size: Size) | Store(p: nat, addr: Int32, size: Size, value: Int32)

  datatype Answer = Value(value: Int32) | Stored | Refused(e: Exception)

  // ---------------------------------------------------------------------------
  // Independent memories

  predicate Aligned(u: nat, size: Size) { (size == 4 ==> u % 4 == 0) && (size == 2 ==> u % 2 == 0) }

  /** What an access does to the memory of its process alone, and what it answers. */
  ghost function Outcome(v: seq<Byte>, a: Access): (r: (seq<Byte>, Answer))
    ensures |r.0| == |v|
  {
    var u := Unsigned(a.addr);
    if !Aligned(u, a.size) || u + a.size > |v| then (v, Refused(AddressErrorException))
    else match a
         case Load(_, _, size) => (v, Value(ValueOf(v[u..u + size])))
         case Store(_, _, size, value) => (Splice(v, u, LowBytes(value, size)), Stored)
  }

  /** The answer to a load, as a number without sign. */
  ghost function Loaded(v: seq<Byte>, addr: Int32, size: Size): Option<UInt32> {
    var answer := Outcome(v, Load(0, addr, size)).1;
    if answer.Value? then Some(Unsigned(answer.value)) else None
  }

  lemma LoadedIs(v: seq<Byte>, addr: Int32, size: Size)
    ensures var u := Unsigned(addr);
            Loaded(v, addr, size) == if Aligned(u, size) && 0 < size && u + size <= |v|
                                     then Some(Unsigned(ValueOf(v[u..u + size]))) else None
  {
    assert IsSize(size);
  }

  lemma NextHalf(addr: Int32)
    requires addr <= 0x7fff_fffd && Aligned(Unsigned(addr), 4)
    ensures Unsigned(addr + 2) == Unsigned(addr) + 2 && Aligned(Unsigned(addr), 2) && Aligned(Unsigned(addr) + 2, 2)
  {
  }

  /** A word load is the two half-word loads at the same and the next place, the lower one counting less. */
  lemma WordIsTwoHalves(v: seq<Byte>, addr: Int32)
    requires addr <= 0x7fff_fffd && Loaded(v, addr, 4).Some?
    ensures Loaded(v, addr, 2).Some? && Loaded(v, addr + 2, 2).Some?
    ensures Loaded(v, addr, 4).value == Loaded(v, addr, 2).value + 65536 * Loaded(v, addr + 2, 2).value
  {
    hide Loaded, ValueOf, Aligned;
    var u := Unsigned(addr);
    LoadedIs(v, addr, 4);
    LoadedIs(v, addr, 2);
    LoadedIs(v, addr + 2, 2);
    NextHalf(addr);
    WordBytes(v, u);
  }

  lemma WordBytes(v: seq<Byte>, u: nat)
    requires u + 4 <= |v|
    ensures Unsigned(ValueOf(v[u..u + 4]))
            == Unsigned(ValueOf(v[u..u + 2])) + 65536 * Unsigned(ValueOf(v[u + 2..u + 4]))
  {
    hide ValueOf;
    var w := v[u..u + 4];
    assert w[..2] == v[u..u + 2] && w[2..] == v[u + 2..u + 4];
    ValuesNest(w);
    ValuesNest(w[..2]);
    ValuesNest(w[2..]);
  }

  /** A half-word load is the two byte loads at the same and the next place, each without its sign. */
  lemma HalfIsTwoBytes(v: seq<Byte>, addr: Int32)
    requires addr <= 0x7fff_fffd && Loaded(v, addr, 2).Some?
    ensures Loaded(v, addr, 1).Some? && Loaded(v, addr + 1, 1).Some?
    ensures Loaded(v, addr, 2).value
            == Loaded(v, addr, 1).value % 256 + 256 * (Loaded(v, addr + 1, 1).value % 256)
  {
    hide Loaded, ValueOf;
    var u := Unsigned(addr);
    LoadedIs(v, addr, 2);
    assert Unsigned(addr + 1) == u + 1;
    ValuesNest(v[u..u + 2]);
    ByteLoad(v, addr);
    ByteLoad(v, addr + 1);
  }

  lemma ByteLoad(v: seq<Byte>, addr: Int32)
    requires Unsigned(addr) < |v|
    ensures Loaded(v, addr, 1).Some? && Loaded(v, addr, 1).value % 256 == v[Unsigned(addr)]
  {
    hide Loaded, ValueOf;
    LoadedIs(v, addr, 1);
    ValuesNest(v[Unsigned(addr)..Unsigned(addr) + 1]);
  }

  /** A store changes the bytes it covers and no others, and a load of the same size at the same place gives
      the value back as far as its size goes. */
  lemma StoreMeans(v: seq<Byte>, addr: Int32, size: Size, value: Int32)
    requires Outcome(v, Store(0, addr, size, value)).1 == Stored
    ensures var v', u := Outcome(v, Store(0, addr, size, value)).0, Unsigned(addr);
            && |v'| == |v| && u + size <= |v|
            && (forall i | 0 <= i < |v| && !(u <= i < u + size) :: v'[i] == v[i])
            && v'[u] == value % 256
            && (size == 4 ==> Outcome(v', Load(0, addr, size)).1 == Value(value))
            && (size == 2 ==> Loaded(v', addr, size) == Some(Unsigned(value) % 65536))
            && (size == 1 ==> Loaded(v', addr, size) == Some(Unsigned(ValueOf(LowBytes(value, 1)))))
  {
    hide ValueOf, LowBytes;
    var v', u := Outcome(v, Store(0, addr, size, value)).0, Unsigned(addr);
    assert v'[u..u + size] == LowBytes(value, size);
    ValueOfLowBytes(value, size);
    LowBytesNest(value);
  }

  /** One process alone: its memory and its answers after a sequence of accesses. */
  ghost function Alone(v: seq<Byte>, accesses: seq<Access>): (seq<Byte>, seq<Answer>) {
    if accesses == [] then (v, [])
    else
      var n := |accesses| - 1;
      var (v', answers) := Alone(v, accesses[..n]);
      (Outcome(v', accesses[n]).0, answers + [Outcome(v', accesses[n]).1])
  }

  lemma AloneSnoc(v: seq<Byte>, accesses: seq<Access>, a: Access)
    ensures var (v', answers) := Alone(v, accesses);
            Alone(v, accesses + [a]) == (Outcome(v', a).0, answers + [Outcome(v', a).1])
  {
    hide Outcome;
    assert (accesses + [a])[..|accesses|] == accesses;
  }

  /** What may happen: a program, by its number, is launched, or a process loads or stores. */
  datatype Event = Launch(j: nat) | Run(a: Access)

  datatype Reply = Started | NoMemory | Did(answer: Answer)

  /** A program: its header and the file that holds it. */
  datatype Program = Program(h: Noff, file: seq<Byte>)

  /** The memories of the processes in the order they were launched, the clear bits of the frame map, and
      those of them that stand for real frames. */
  datatype World = World(memories: seq<seq<Byte>>, clear: nat, usable: nat)

  /** A launch must fit the real frames or exceed the whole map; an access is by a process that exists. */
  ghost predicate Allowed(w: World, e: Event, programs: seq<Program>) {
    match e
    case Launch(j) => j < |programs| && (NumPages(programs[j].h) > w.clear || NumPages(programs[j].h) <= w.usable)
    case Run(a) => a.p < |w.memories|
  }

  /** The memory a process starts with. */
  ghost function ImageOf(p: Program): seq<Byte> {
    seq(PAGE_SIZE * NumPages(p.h), va requires 0 <= va < PAGE_SIZE * NumPages(p.h) => ImageByte(p.file, p.h, va))
  }

  /** A launch adds a memory of its own, or is refused; an access concerns one memory. */
  ghost function Happens(w: World, e: Event, programs: seq<Program>): (World, Reply)
    requires Allowed(w, e, programs)
  {
    match e
    case Launch(j) =>
      var n := NumPages(programs[j].h);
      if n > w.clear then (w, NoMemory)
      else (World(w.memories + [ImageOf(programs[j])], w.clear - n, w.usable - n), Started)
    case Run(a) =>
      var o := Outcome(w.memories[a.p], a);
      (w.(memories := w.memories[a.p := o.0]), Did(o.1))
  }

  /** A run: the world afterwards and the replies, if each event was allowed in turn. */
  ghost function After(w: World, events: seq<Event>, programs: seq<Program>): Option<(World, seq<Reply>)> {
    if events == [] then Some((w, []))
    else
      var n := |events| - 1;
      var before := After(w, events[..n], programs);
      if before.Some? && Allowed(before.value.0, events[n], programs) then
        var (w', reply) := Happens(before.value.0, events[n], programs);
        Some((w', before.value.1 + [reply]))
      else None
  }

  /** The accesses of process `p`. */
  ghost function AccessesOf(events: seq<Event>, p: nat): seq<Access> {
    if events == [] then []
    else
      var n := |events| - 1;
      AccessesOf(events[..n], p) + (if events[n].Run? && events[n].a.p == p then [events[n].a] else [])
  }

  /** The answers to the accesses of process `p`. */
  ghost function AnswersOf(events: seq<Event>, replies: seq<Reply>, p: nat): seq<Answer>
    requires |replies| == |events|
  {
    if events == [] then []
    else
      var n := |events| - 1;
      AnswersOf(events[..n], replies[..n], p)
      + (if events[n].Run? && events[n].a.p == p && replies[n].Did? then [replies[n].answer] else [])
  }

  lemma {:induction false} RepliesMatch(w: World, events: seq<Event>, programs: seq<Program>)
    requires After(w, events, programs).Some?
    ensures |After(w, events, programs).value.1| == |events|
    ensures |w.memories| <= |After(w, events, programs).value.0.memories|
  {
    hide Outcome, ImageOf;
    if events != [] { RepliesMatch(w, events[..|events| - 1], programs); }
  }

  /** From the moment a process exists, what it sees of a run of all, launches included, is exactly what it
      would see running alone. */
  lemma {:induction false} EachAsAlone(w: World, events: seq<Event>, programs: seq<Program>, p: nat)
    requires After(w, events, programs).Some? && p < |w.memories|
    ensures var r := After(w, events, programs).value;
            && |r.1| == |events| && p < |r.0.memories|
            && (r.0.memories[p], AnswersOf(events, r.1, p)) == Alone(w.memories[p], AccessesOf(events, p))
  {
    hide Outcome, ImageOf;
    RepliesMatch(w, events, programs);
    if events != [] {
      var n := |events| - 1;
      EachAsAlone(w, events[..n], programs, p);
      var r := After(w, events, programs).value;
      assert r.1[..n] == After(w, events[..n], programs).value.1;
      if events[n].Run? && events[n].a.p == p {
        AloneSnoc(w.memories[p], AccessesOf(events[..n], p), events[n].a);
      } else {
        assert AccessesOf(events, p) == AccessesOf(events[..n], p);
        assert AnswersOf(events, r.1, p) == AnswersOf(events[..n], r.1[..n], p);
      }
    }
  }

  // ---------------------------------------------------------------------------
  // The machine refines them

  /** What each process sees. */
  ghost function Memories(mem: seq<Byte>, lists: seq<seq<int>>): (vs: seq<seq<Byte>>)
    requires |mem| == MEMORY_SIZE && forall i | 0 <= i < |lists| :: InMemory(lists[i])
    ensures |vs| == |lists|
  {
    seq(|lists|, i requires 0 <= i < |lists| => Virtual(mem, lists[i]))
  }

  /** Every entry may be read and written. */
  ghost predicate Plain(table: seq<Entry>) {
    forall i | 0 <= i < |table| :: table[i].valid && !table[i].readOnly
  }

  /** The table of a process loaded into memory raises an address error or nothing, and exactly when its
      own memory says so. */
  lemma PlainCheck(table: seq<Entry>, addr: Int32, size: Size, writing: bool)
    requires Plain(table) && InMemory(FramesOf(table))
    ensures Check(table, addr, size, writing)
            == if !Aligned(Unsigned(addr), size) || Unsigned(addr) + size > PAGE_SIZE * |table|
               then AddressErrorException else NoException
  {
    var u := Unsigned(addr);
    if Aligned(u, size) {
      AlignedFits(u, size, |table|);
      if u / PAGE_SIZE < |table| {
        assert FramesOf(table)[u / PAGE_SIZE] == table[u / PAGE_SIZE].physicalPage;
      }
    }
  }

  lemma AlignedFits(u: nat, size: Size, n: nat)
    requires Aligned(u, size)
    ensures u + size <= PAGE_SIZE * n <==> u / PAGE_SIZE < n
  {
    StaysInPage(u, size);
  }

  /** A page table in memory maps process `i` to its frames. */
  ghost predicate Maps(table: seq<Entry>, frames: seq<int>) {
    Plain(table) && FramesOf(table) == frames
  }

  lemma MapsSame(table: seq<Entry>, table': seq<Entry>, frames: seq<int>)
    requires Maps(table, frames) && SameMapping(table, table')
    ensures Maps(table', frames)
  {
  }

  /** A store in one process's memory leaves the others as they are. */
  lemma MemoriesAfterStore(mem: seq<Byte>, mem': seq<Byte>, lists: seq<seq<int>>, bits: seq<bool>, p: nat, v: seq<Byte>)
    requires |mem| == |mem'| == MEMORY_SIZE && Apart(lists, bits) && p < |lists|
    requires Virtual(mem', lists[p]) == v
    requires forall other: seq<int> | InMemory(other) && (forall f | f in lists[p] :: f !in other) ::
               Virtual(mem', other) == Virtual(mem, other)
    ensures Memories(mem', lists) == Memories(mem, lists)[p := v]
  {
    hide Virtual;
    forall i | 0 <= i < |lists| && i != p
      ensures Virtual(mem', lists[i]) == Virtual(mem, lists[i])
    {
      ApartPair(lists, bits, p, i);
    }
  }

  lemma ApartPair(lists: seq<seq<int>>, bits: seq<bool>, p: nat, i: nat)
    requires Apart(lists, bits) && p < |lists| && i < |lists| && i != p
    ensures forall f | f in lists[p] :: f !in lists[i]
  {
  }

  /** One access by the process with this page table. */
  method Perform(machine: Machine, table: array<Entry>, a: Access, ghost lists: seq<seq<int>>, ghost bits: seq<bool>)
    returns (answer: Answer)
    requires machine.mainMemory.Length == MEMORY_SIZE && machine.mainMemory as object != table as object
    requires Apart(lists, bits) && a.p < |lists| && Maps(table[..], lists[a.p])
    modifies table, machine.mainMemory
    ensures Maps(table[..], lists[a.p])
    ensures var vs := Memories(old(machine.mainMemory[..]), lists);
            var o := Outcome(vs[a.p], a);
            answer == o.1 && Memories(machine.mainMemory[..], lists) == vs[a.p := o.0]
  {
    hide Virtual, Check, LowBytes, ValueOf, Apart, Plain;
    ghost var mem := machine.mainMemory[..];
    AllInMemory(lists, bits);
    PlainCheck(table[..], a.addr, a.size, a.Store?);
    match a
    case Load(_, addr, size) =>
      var e, value := machine.ReadMem(table, addr, size);
      MapsSame(old(table[..]), table[..], lists[a.p]);
      answer := if e == NoException then Value(value) else Refused(e);
    case Store(_, addr, size, value) =>
      var e := machine.WriteMem(table, addr, size, value);
      MapsSame(old(table[..]), table[..], lists[a.p]);
      if e == NoException {
        MemoriesAfterStore(mem, machine.mainMemory[..], lists, bits, a.p, Virtual(machine.mainMemory[..], lists[a.p]));
      }
      answer := if e == NoException then Stored else Refused(e);
  }

  lemma AllInMemory(lists: seq<seq<int>>, bits: seq<bool>)
    requires Apart(lists, bits)
    ensures forall i | 0 <= i < |lists| :: InMemory(lists[i]) && Distinct(lists[i])
  {
  }

  lemma MemoriesMore(mem: seq<Byte>, mem': seq<Byte>, lists: seq<seq<int>>, bits: seq<bool>,
                                        program: Program)
    requires |mem| == |mem'| == MEMORY_SIZE && Apart(lists, bits)
    requires var n := NumPages(program.h); n <= CountClear(bits[..NUM_PHYS_PAGES]) && n <= CountClear(bits)
    requires Sees(mem', Frames(bits, NumPages(program.h)).0, program.file, program.h)
    requires forall other: seq<int> |
               InMemory(other) && (forall f | f in Frames(bits, NumPages(program.h)).0 :: f !in other) ::
               Virtual(mem', other) == Virtual(mem, other)
    ensures var lists' := lists + [Frames(bits, NumPages(program.h)).0];
            && Apart(lists', Frames(bits, NumPages(program.h)).1)
            && (forall i | 0 <= i < |lists| :: InMemory(lists[i]))
               && (forall i | 0 <= i < |lists'| :: InMemory(lists'[i]))
            && Memories(mem', lists') == Memories(mem, lists) + [ImageOf(program)]
  {
    hide Frames, Virtual, ImageByte, NumPages;
    var fs := Frames(bits, NumPages(program.h)).0;
    var lists' := lists + [fs];
    CreationKeepsApart(lists, bits, NumPages(program.h));
    AllInMemory(lists, bits);
    AllInMemory(lists', Frames(bits, NumPages(program.h)).1);
    forall i | 0 <= i < |lists|
      ensures Virtual(mem', lists'[i]) == Virtual(mem, lists[i])
    {
      LoadedApart(lists, bits, NumPages(program.h), i);
    }
    assert Virtual(mem', fs) == ImageOf(program);
  }

  /** A launch takes its pages from the clear bits, and from those that stand for real frames. */
  lemma LaunchCounts(bits: seq<bool>, n: nat)
    requires |bits| == FRAME_BITS && n <= CountClear(bits) && n <= CountClear(bits[..NUM_PHYS_PAGES])
    ensures var bits' := Frames(bits, n).1;
            CountClear(bits') == CountClear(bits) - n
            && CountClear(bits'[..NUM_PHYS_PAGES]) == CountClear(bits[..NUM_PHYS_PAGES]) - n
  {
    FramesAreTaken(bits, n);
    FramesFillLow(bits, n, NUM_PHYS_PAGES);
  }

  /** The machine, its frame map and the page tables of the processes launched so far. */
  class Computer {
    const machine: Machine
    const frames: BitMap
    var tables: seq<array<Entry>>
    ghost var lists: seq<seq<int>>

    ghost predicate Valid()
      reads this, frames.words, tables
    {
      && machine.mainMemory.Length == MEMORY_SIZE && frames.Valid() && frames.numBits == FRAME_BITS
      && machine.mainMemory as object != frames.words as object
      && Apart(lists, frames.Bits()) && |tables| == |lists|
      && (forall i | 0 <= i < |tables| :: tables[i] as object != machine.mainMemory as object)
      && (forall i | 0 <= i < |tables| :: tables[i] as object != frames.words as object)
      && (forall i, j | 0 <= i < j < |tables| :: tables[i] != tables[j])
      && (forall i | 0 <= i < |tables| :: Maps(tables[i][..], lists[i]))
    }

    /** What the processes see, and how much of the frame map is clear. */
    ghost function Now(): World
      requires Valid()
      reads this, frames.words, tables, machine.mainMemory
    {
      AllInMemory(lists, frames.Bits());
      World(Memories(machine.mainMemory[..], lists), CountClear(frames.Bits()),
            CountClear(frames.Bits()[..NUM_PHYS_PAGES]))
    }

    /** A machine without processes. */
    constructor (machine: Machine, frames: BitMap)
      requires machine.mainMemory.Length == MEMORY_SIZE && frames.Valid() && frames.numBits == FRAME_BITS
      requires machine.mainMemory as object != frames.words as object
      ensures this.machine == machine && this.frames == frames && tables == []
      ensures Valid() && Now().memories == []
    {
      this.machine, this.frames := machine, frames;
      tables, lists := [], [];
    }

    /** Launches a program, unless the frame map has too few clear bits. */
    method LaunchProgram(executable: OpenFile, h: Noff, ghost programs: seq<Program>, ghost j: nat)
      returns (started: bool)
      requires Valid() && WellFormed(executable.hdr.View()) && Allowed(Now(), Launch(j), programs)
      requires programs[j] == Program(h, Contents(executable.disk.sectors, executable.hdr.View()))
      modifies this, machine.mainMemory, frames.words
      ensures Valid() && forall i | 0 <= i < |tables| :: tables[i] in old(tables) || fresh(tables[i])
      ensures (Now(), if started then Started else NoMemory) == Happens(old(Now()), Launch(j), programs)
    {
      hide Virtual, Contents, CountClear, ImageOf, NumPages, Frames, Apart, Maps, Memories, Sees;
      ghost var bits, mem := frames.Bits(), machine.mainMemory[..];
      var space := new AddrSpace(machine, frames, executable, h);
      if space.numPages == 0 {
        PagesPositive(h);
        return false;
      }
      MemoriesMore(mem, machine.mainMemory[..], lists, bits, programs[j]);
      LaunchCounts(bits, NumPages(h));
      InitialMaps(space.pageTable[..]);
      tables := tables + [space.pageTable];
      lists := lists + [FramesOf(space.pageTable[..])];
      return true;
    }

    /** A load or store by a process. */
    method Access(a: Access) returns (answer: Answer)
      requires Valid() && a.p < |tables|
      modifies machine.mainMemory, tables
      ensures Valid()
      ensures Now().clear == old(Now()).clear && Now().usable == old(Now()).usable
      ensures var o := Outcome(old(Now()).memories[a.p], a);
              answer == o.1 && Now().memories == old(Now()).memories[a.p := o.0]
    {
      hide Virtual, CountClear, Apart, Outcome, Memories, Maps;
      AllInMemory(lists, frames.Bits());
      answer := Perform(machine, tables[a.p], a, lists, frames.Bits());
    }
  }

  lemma PagesPositive(h: Noff)
    ensures NumPages(h) > 0
  {
  }

  lemma InitialMaps(table: seq<Entry>)
    requires Initial(table)
    ensures Maps(table, FramesOf(table))
  {
  }

  lemma {:induction false} AfterPrefix(w: World, events: seq<Event>, programs: seq<Program>, n: nat)
    requires After(w, events, programs).Some? && n <= |events|
    ensures After(w, events[..n], programs).Some?
  {
    hide Happens, Allowed;
    if n < |events| {
      AfterPrefix(w, events[..|events| - 1], programs, n);
      assert events[..|events| - 1][..n] == events[..n];
    } else {
      assert events[..n] == events;
    }
  }

  /** One event. */
  method Handle(c: Computer, executables: seq<OpenFile>, hs: seq<Noff>, ghost programs: seq<Program>, e: Event)
    returns (reply: Reply)
    requires c.Valid() && |executables| == |hs| == |programs| && Allowed(c.Now(), e, programs)
    requires forall j | 0 <= j < |hs| :: WellFormed(executables[j].hdr.View())
    requires forall j | 0 <= j < |hs| ::
               programs[j] == Program(hs[j], Contents(executables[j].disk.sectors, executables[j].hdr.View()))
    modifies c, c.machine.mainMemory, c.frames.words, c.tables
    ensures c.Valid() && forall i | 0 <= i < |c.tables| :: c.tables[i] in old(c.tables) || fresh(c.tables[i])
    ensures (c.Now(), reply) == Happens(old(c.Now()), e, programs)
  {
    hide Contents, Outcome, ImageOf, NumPages, Apart, Maps, Memories, CountClear;
    match e
    case Launch(j) =>
      var started := c.LaunchProgram(executables[j], hs[j], programs, j);
      reply := if started then Started else NoMemory;
    case Run(a) =>
      var answer := c.Access(a);
      reply := Did(answer);
  }

  /** Any interleaving of launches, granted or refused, and of loads and stores by the processes launched so
      far: memory behaves as one independent memory for each process, starting with its program's image. */
  method RunEvents(c: Computer, executables: seq<OpenFile>, hs: seq<Noff>, ghost programs: seq<Program>,
                   events: seq<Event>)
    returns (replies: seq<Reply>)
    requires c.Valid() && |executables| == |hs| == |programs| && After(c.Now(), events, programs).Some?
    requires forall j | 0 <= j < |hs| :: WellFormed(executables[j].hdr.View())
    requires forall j | 0 <= j < |hs| ::
               programs[j] == Program(hs[j], Contents(executables[j].disk.sectors, executables[j].hdr.View()))
    modifies c, c.machine.mainMemory, c.frames.words, c.tables
    ensures c.Valid() && Some((c.Now(), replies)) == After(old(c.Now()), events, programs)
  {
    hide Contents, Happens, Allowed, Apart, Maps, Memories, CountClear;
    ghost var w := c.Now();
    replies := [];
    for n := 0 to |events|
      invariant c.Valid() && forall i | 0 <= i < |c.tables| :: c.tables[i] in old(c.tables) || fresh(c.tables[i])
      invariant Some((c.Now(), replies)) == After(w, events[..n], programs)
    {
      AfterPrefix(w, events, programs, n + 1);
      assert events[..n + 1][..n] == events[..n];
      var reply := Handle(c, executables, hs, programs, events[n]);
      replies := replies + [reply];
    }
    assert events[..|events|] == events;
  }

  /** At start-up: no process, and every bit of the frame map clear. */
  method Boot(machine: Machine) returns (c: Computer)
    requires machine.mainMemory.Length == MEMORY_SIZE
    ensures fresh(c) && fresh(c.frames) && fresh(c.frames.words) && c.machine == machine
    ensures c.Valid() && c.Now() == World([], FRAME_BITS, NUM_PHYS_PAGES)
  {
    var frames := new BitMap(FRAME_BITS);
    CountOfClear(frames.Bits());
    CountOfClear(frames.Bits()[..NUM_PHYS_PAGES]);
    c := new Computer(machine, frames);
  }
}
