/** The address spaces of userprog/addrspace.cc: page frames from a bitmap, and the page-by-page
    loading of a NOFF executable. */
module AddressSpaces {
  import opened Words
  import opened BitMaps
  import opened Files
  import opened Translation

  const USER_STACK_SIZE := 1024
  const FRAME_BITS := 256

  /** The segment sizes and file positions of a NOFF header whose code starts at address zero. */
  datatype Noff = Noff(codeSize: nat, codeAt: nat, dataSize: nat, dataAt: nat, bssSize: nat)

  // ---------------------------------------------------------------------------
  // Page frames

  /** The frames that `n` successive searches of the bitmap yield, and the bitmap after them. */
  function Frames(bits: seq<bool>, n: nat): (r: (seq<int>, seq<bool>))
    ensures |r.1| == |bits|
    decreases n
  {
    if n == 0 then ([], bits)
    else
      var (fs, after) := Frames(bits, n - 1);
      var f := FirstClear(after);
      (fs + [f], if 0 <= f < |after| then after[f := true] else after)
  }

  /** Enough clear bits make all searches succeed: the frames are distinct, were clear, and are now
      the only new marks. */
  lemma {:induction false} FramesAreTaken(bits: seq<bool>, n: nat)
    requires n <= CountClear(bits)
    ensures Taken(bits, Frames(bits, n).1, Frames(bits, n).0) && |Frames(bits, n).0| == n
  {
    if n > 0 {
      FramesAreTaken(bits, n - 1);
      var (fs, after) := Frames(bits, n - 1);
      CountMeetsFind(after);
      FirstClearIsLowest(after, 0);
      TakenOne(bits, after, fs, FirstClear(after));
    }
  }

  /** Below a bound, searching uses up the clear bits below it first. */
  lemma {:induction false} FramesFillLow(bits: seq<bool>, n: nat, bound: nat)
    requires n <= CountClear(bits) && bound <= |bits|
    ensures CountClear(Frames(bits, n).1[..bound])
            == (if n <= CountClear(bits[..bound]) then CountClear(bits[..bound]) - n else 0)
  {
    if n > 0 {
      FramesFillLow(bits, n - 1, bound);
      NextFrame(bits, n - 1);
      var after := Frames(bits, n - 1).1;
      FirstBelow(after, bound, FirstClear(after));
    }
  }

  /** While clear bits remain, the next search finds the lowest of them. */
  lemma NextFrame(bits: seq<bool>, n: nat)
    requires n < CountClear(bits)
    ensures var after := Frames(bits, n).1; var f := FirstClear(after);
            |Frames(bits, n).0| == n && 0 <= f < |after| && !after[f] && forall i | 0 <= i < f :: after[i]
  {
    FramesAreTaken(bits, n);
    CountMeetsFind(Frames(bits, n).1);
    FirstClearIsLowest(Frames(bits, n).1, 0);
  }

  ghost predicate AllBelow(fs: seq<int>, bound: int) {
    forall i | 0 <= i < |fs| :: fs[i] < bound
  }

  lemma {:induction false} FramesBelow(bits: seq<bool>, n: nat, bound: nat)
    requires n <= CountClear(bits) && bound <= |bits|
    ensures AllBelow(Frames(bits, n).0, bound) <==> n <= CountClear(bits[..bound])
  {
    if n > 0 {
      FramesBelow(bits, n - 1, bound);
      FramesFillLow(bits, n - 1, bound);
      NextFrame(bits, n - 1);
      var (fs, after) := Frames(bits, n - 1);
      var f := FirstClear(after);
      FirstBelow(after, bound, f);
      BelowSnoc(fs, f, bound);
    }
  }

  lemma BelowSnoc(fs: seq<int>, f: int, bound: int)
    ensures AllBelow(fs + [f], bound) <==> AllBelow(fs, bound) && f < bound
  {
    var all := fs + [f];
    assert all[|fs|] == f && forall i | 0 <= i < |fs| :: all[i] == fs[i];
  }

  lemma FirstBelow(bits: seq<bool>, bound: nat, f: int)
    requires bound <= |bits| && 0 <= f < |bits| && !bits[f] && forall i | 0 <= i < f :: bits[i]
    ensures f < bound <==> CountClear(bits[..bound]) > 0
    ensures CountClear(bits[f := true][..bound]) == CountClear(bits[..bound]) - (if f < bound then 1 else 0)
  {
    if f < bound {
      CountPositive(bits[..bound], f);
      CountAfterMark(bits[..bound], f);
      assert bits[f := true][..bound] == bits[..bound][f := true];
    } else {
      CountOfMarked(bits[..bound]);
      assert bits[f := true][..bound] == bits[..bound];
    }
  }

  /** The frame bitmap has more bits than memory has frames.  What is handed out lies in memory exactly
      when the request fits the clear bits that stand for real frames. */
  lemma FramesInMemoryExactly(bits: seq<bool>, n: nat)
    requires |bits| == FRAME_BITS && n <= CountClear(bits)
    ensures InMemory(Frames(bits, n).0) <==> n <= CountClear(bits[..NUM_PHYS_PAGES])
  {
    FramesBelow(bits, n, NUM_PHYS_PAGES);
    FramesAreTaken(bits, n);
  }

  /** At start-up a process of 129 pages is not refused, although memory has 128 frames: it is handed a
      frame that does not exist. */
  lemma FramesBeyondMemory()
    ensures var bits := seq(FRAME_BITS, i => false);
            129 <= CountClear(bits) && !InMemory(Frames(bits, 129).0)
  {
    hide Frames;
    var bits := seq(FRAME_BITS, i => false);
    CountOfClear(bits);
    CountOfClear(bits[..NUM_PHYS_PAGES]);
    FramesInMemoryExactly(bits, 129);
  }

  // ---------------------------------------------------------------------------
  // All address spaces together

  /** The frame lists of all processes are in memory, free of duplicates and disjoint, and marked. */
  ghost predicate Apart(spaces: seq<seq<int>>, bits: seq<bool>) {
    && (forall i | 0 <= i < |spaces| :: InMemory(spaces[i]) && Distinct(spaces[i]))
    && (forall i, j, f | 0 <= i < j < |spaces| && f in spaces[i] :: f !in spaces[j])
    && |bits| == FRAME_BITS
    && (forall i, f | 0 <= i < |spaces| && f in spaces[i] :: 0 <= f < FRAME_BITS && bits[f])
  }

  /** Creating one more address space keeps all of them apart. */
  lemma CreationKeepsApart(spaces: seq<seq<int>>, bits: seq<bool>, n: nat)
    requires Apart(spaces, bits) && n <= CountClear(bits[..NUM_PHYS_PAGES]) && n <= CountClear(bits)
    ensures Apart(spaces + [Frames(bits, n).0], Frames(bits, n).1)
  {
    var (fs, after) := Frames(bits, n);
    FramesAreTaken(bits, n);
    FramesInMemoryExactly(bits, n);
    var all := spaces + [fs];
    forall i, j, f | 0 <= i < j < |all| && f in all[i]
      ensures f !in all[j]
    {
      assert j == |spaces| ==> bits[f];
    }
  }

  /** Any sequence of creations, each asking for some number of pages that fits. */
  lemma {:induction false} CreationsKeepApart(bitss: seq<seq<bool>>, ns: seq<nat>, spaces: seq<seq<int>>)
    requires |bitss| == |ns| + 1 && |spaces| == |ns| && Apart([], bitss[0])
    requires forall i | 0 <= i < |ns| ::
               && ns[i] <= CountClear(bitss[i])
               && |bitss[i]| >= NUM_PHYS_PAGES && ns[i] <= CountClear(bitss[i][..NUM_PHYS_PAGES])
               && spaces[i] == Frames(bitss[i], ns[i]).0 && bitss[i + 1] == Frames(bitss[i], ns[i]).1
    ensures Apart(spaces, bitss[|ns|])
  {
    hide Apart, Frames, CountClear;
    if ns != [] {
      var k := |ns| - 1;
      CreationsKeepApart(bitss[..k + 1], ns[..k], spaces[..k]);
      CreationKeepsApart(spaces[..k], bitss[k], ns[k]);
      assert spaces == spaces[..k] + [spaces[k]];
    }
  }

  /** A write by one process is seen by that process at the address written, and by no other. */
  lemma OthersSeeNothing(spaces: seq<seq<int>>, bits: seq<bool>, mem: seq<Byte>, i: nat, j: nat, page: nat, offset: nat,
                         data: seq<Byte>)
    requires Apart(spaces, bits) && |mem| == MEMORY_SIZE && i < |spaces| && j < |spaces|
    requires page < |spaces[i]| && offset + |data| <= PAGE_SIZE
    ensures var mem' := Splice(mem, PAGE_SIZE * spaces[i][page] + offset, data);
            && (i != j ==> Virtual(mem', spaces[j]) == Virtual(mem, spaces[j]))
            && PAGE_SIZE * page + offset + |data| <= PAGE_SIZE * |spaces[i]|
            && Virtual(mem', spaces[i]) == Splice(Virtual(mem, spaces[i]), PAGE_SIZE * page + offset, data)
  {
    var f := spaces[i][page];
    assert f in spaces[i];
    VirtualAfterWrite(mem, spaces[i], page, offset, data);
    if i != j {
      assert f !in spaces[j];
      VirtualUntouched(mem, spaces[j], f, offset, data);
    }
  }

  // ---------------------------------------------------------------------------
  // Loading

  /** A byte of the executable, or zero past its end. */
  ghost function FileByte(file: seq<Byte>, at: nat): Byte {
    if at < |file| then file[at] else 0
  }

  /** The byte a program should find at a virtual address: code, then initialised data, then zero. */
  ghost function ImageByte(file: seq<Byte>, h: Noff, va: nat): Byte {
    if va < h.codeSize then FileByte(file, h.codeAt + va)
    else if va < h.codeSize + h.dataSize then FileByte(file, h.dataAt + (va - h.codeSize))
    else 0
  }

  /** What the image says at each address, in plain words: the code from the start of the space, the data
      right behind it, each as far as the file goes, and zero everywhere else. */
  lemma ImageMeans(file: seq<Byte>, h: Noff, va: nat)
    ensures va < h.codeSize && h.codeAt + va < |file| ==> ImageByte(file, h, va) == file[h.codeAt + va]
    ensures h.codeSize <= va < h.codeSize + h.dataSize && h.dataAt + (va - h.codeSize) < |file| ==>
              ImageByte(file, h, va) == file[h.dataAt + (va - h.codeSize)]
    ensures va >= h.codeSize + h.dataSize ==> ImageByte(file, h, va) == 0
  {
  }

  /** A process with the given frames finds the whole image in its memory. */
  ghost predicate Sees(mem: seq<Byte>, frames: seq<int>, file: seq<Byte>, h: Noff)
    requires |mem| == MEMORY_SIZE
  {
    && InMemory(frames) && |frames| == NumPages(h)
    && forall va | 0 <= va < PAGE_SIZE * |frames| :: Virtual(mem, frames)[va] == ImageByte(file, h, va)
  }

  /** The space holds the image up to an address and zeros from there on. */
  ghost predicate LoadedTo(v: seq<Byte>, file: seq<Byte>, h: Noff, upto: nat) {
    forall va | 0 <= va < |v| :: v[va] == if va < upto then ImageByte(file, h, va) else 0
  }

  /** The `n` bytes of the image from an address on are those of the file from `pos` on. */
  ghost predicate ChunkAt(file: seq<Byte>, h: Noff, upto: nat, n: nat, pos: nat) {
    forall va | upto <= va < upto + n :: ImageByte(file, h, va) == FileByte(file, pos + (va - upto))
  }

  /** Reading a chunk of the file into place extends what is loaded; where the file is too short, the
      zeros already there are right. */
  lemma LoadedMore(v: seq<Byte>, file: seq<Byte>, h: Noff, upto: nat, n: nat, pos: nat)
    requires LoadedTo(v, file, h, upto) && upto + n <= |v|
    requires ChunkAt(file, h, upto, n, pos)
    ensures var m := Clip(|file|, n, pos);
            m <= n && LoadedTo(Splice(v, upto, Slice(file, pos, m)), file, h, upto + n)
  {
    var m := Clip(|file|, n, pos);
    var v' := Splice(v, upto, Slice(file, pos, m));
    forall va | 0 <= va < |v'|
      ensures v'[va] == if va < upto + n then ImageByte(file, h, va) else 0
    {
      if upto <= va < upto + n {
        assert ImageByte(file, h, va) == FileByte(file, pos + (va - upto));
      }
    }
  }

  /** The sizes the constructor computes from the header. */
  function NumPages(h: Noff): nat {
    DivRoundUp(h.codeSize + h.dataSize + h.bssSize + USER_STACK_SIZE, PAGE_SIZE)
  }

  function NumCodePage(h: Noff): nat { DivRoundUp(h.codeSize, PAGE_SIZE) }

  /** With no code at all, the unsigned arithmetic of the source wraps around to a full page. */
  function LastCodePageSize(h: Noff): int { h.codeSize - (NumCodePage(h) - 1) * PAGE_SIZE }

  function TempDataSize(h: Noff): int { h.dataSize - (PAGE_SIZE - LastCodePageSize(h)) }

  function NumDataPage(h: Noff): nat {
    if TempDataSize(h) < 0 then 0 else DivRoundUp(TempDataSize(h), PAGE_SIZE)
  }

  function LastDataPageSize(h: Noff): int { TempDataSize(h) - (NumDataPage(h) - 1) * PAGE_SIZE }

  function FirstDataPageSize(h: Noff): int {
    if TempDataSize(h) < 0 then h.dataSize else PAGE_SIZE - LastCodePageSize(h)
  }

  /** How those sizes fit together. */
  lemma Sizes(h: Noff)
    ensures 0 < LastCodePageSize(h) <= PAGE_SIZE
    ensures h.codeSize == PAGE_SIZE * NumCodePage(h) - PAGE_SIZE + LastCodePageSize(h)
    ensures LastCodePageSize(h) < PAGE_SIZE ==> NumCodePage(h) > 0
    ensures 0 <= FirstDataPageSize(h) <= h.dataSize && FirstDataPageSize(h) <= PAGE_SIZE - LastCodePageSize(h)
    ensures NumDataPage(h) > 0 ==> h.codeSize + FirstDataPageSize(h) == PAGE_SIZE * NumCodePage(h)
    ensures NumDataPage(h) > 0 ==> 0 < LastDataPageSize(h) <= PAGE_SIZE
    ensures NumDataPage(h) > 0 ==>
              h.dataSize - FirstDataPageSize(h) == PAGE_SIZE * (NumDataPage(h) - 1) + LastDataPageSize(h)
    ensures NumDataPage(h) == 0 ==> FirstDataPageSize(h) == h.dataSize
    ensures NumCodePage(h) + NumDataPage(h) <= NumPages(h)
    ensures h.codeSize + h.dataSize <= PAGE_SIZE * NumPages(h)
  {
  }

  /** The space holds code, data, uninitialised data and a stack of 1024 bytes, and no page too many. */
  lemma NumPagesIsExact(h: Noff)
    ensures var size := h.codeSize + h.dataSize + h.bssSize + 1024;
            512 * (NumPages(h) - 1) < size <= 512 * NumPages(h)
  {
  }

  /** One byte of a frame. */
  ghost function Cell(mem: seq<Byte>, frame: int, offset: int): Byte
    requires |mem| == MEMORY_SIZE && 0 <= frame < NUM_PHYS_PAGES && 0 <= offset < PAGE_SIZE
  {
    mem[PAGE_SIZE * frame + offset]
  }

  /** Only the given frames differ between two states of memory. */
  ghost predicate OnlyChanged(mem: seq<Byte>, mem': seq<Byte>, frames: seq<int>)
    requires |mem| == |mem'| == MEMORY_SIZE
  {
    forall f, o | 0 <= f < NUM_PHYS_PAGES && f !in frames && 0 <= o < PAGE_SIZE :: Cell(mem', f, o) == Cell(mem, f, o)
  }

  lemma WriteChangesFrame(mem: seq<Byte>, mem1: seq<Byte>, frames: seq<int>, page: nat, offset: nat, data: seq<Byte>)
    requires |mem| == |mem1| == MEMORY_SIZE && InMemory(frames) && OnlyChanged(mem, mem1, frames)
    requires page < |frames| && offset + |data| <= PAGE_SIZE
    ensures OnlyChanged(mem, Splice(mem1, PAGE_SIZE * frames[page] + offset, data), frames)
  {
    var mem' := Splice(mem1, PAGE_SIZE * frames[page] + offset, data);
    forall f, o | 0 <= f < NUM_PHYS_PAGES && f !in frames && 0 <= o < PAGE_SIZE
      ensures Cell(mem', f, o) == Cell(mem, f, o)
    {
      assert Cell(mem1, f, o) == Cell(mem, f, o);
      assert f != frames[page];
    }
  }

  /** A process none of whose frames changed sees what it saw. */
  lemma OnlyChangedUnseen(mem: seq<Byte>, mem': seq<Byte>, frames: seq<int>, other: seq<int>)
    requires |mem| == |mem'| == MEMORY_SIZE && OnlyChanged(mem, mem', frames)
    requires InMemory(other) && forall f | f in frames :: f !in other
    ensures Virtual(mem', other) == Virtual(mem, other)
  {
    forall va | 0 <= va < PAGE_SIZE * |other|
      ensures Virtual(mem', other)[va] == Virtual(mem, other)[va]
    {
      var f, o := other[va / PAGE_SIZE], va % PAGE_SIZE;
      assert f in other && f !in frames;
      assert Cell(mem', f, o) == Cell(mem, f, o);
    }
  }

  /** Zeroing one more frame extends an all-zero space by a page. */
  lemma ZeroMore(mem: seq<Byte>, frames: seq<int>, f: int)
    requires |mem| == MEMORY_SIZE && InMemory(frames) && 0 <= f < NUM_PHYS_PAGES && f !in frames
    requires forall va | 0 <= va < PAGE_SIZE * |frames| :: Virtual(mem, frames)[va] == 0
    ensures InMemory(frames + [f])
    ensures var mem' := Splice(mem, PAGE_SIZE * f, seq(PAGE_SIZE, i => 0));
            forall va | 0 <= va < PAGE_SIZE * |frames + [f]| :: Virtual(mem', frames + [f])[va] == 0
  {
    var zeros := seq(PAGE_SIZE, i => 0);
    var mem' := Splice(mem, PAGE_SIZE * f + 0, zeros);
    VirtualUntouched(mem, frames, f, 0, zeros);
    var all := frames + [f];
    forall va | 0 <= va < PAGE_SIZE * |all|
      ensures Virtual(mem', all)[va] == 0
    {
      if va < PAGE_SIZE * |frames| {
        assert all[va / PAGE_SIZE] == frames[va / PAGE_SIZE];
        assert Virtual(mem', frames)[va] == 0;
      } else {
        assert va / PAGE_SIZE == |frames| && all[va / PAGE_SIZE] == f;
      }
    }
  }

  // ---------------------------------------------------------------------------
  // The constructor

  /** Takes a frame for each page and fills it with zeros. */
  method AllocatePages(machine: Machine, frames: BitMap, n: nat) returns (pageTable: array<Entry>)
    requires machine.mainMemory.Length == MEMORY_SIZE
    requires frames.Valid() && frames.numBits == FRAME_BITS
    requires n <= CountClear(frames.Bits()) && n <= CountClear(frames.Bits()[..NUM_PHYS_PAGES])
    requires machine.mainMemory as object != frames.words as object
    modifies machine.mainMemory, frames.words
    ensures fresh(pageTable) && pageTable.Length == n
    ensures (FramesOf(pageTable[..]), frames.Bits()) == Frames(old(frames.Bits()), n)
    ensures InMemory(FramesOf(pageTable[..]))
    ensures Initial(pageTable[..])
    ensures forall va | 0 <= va < PAGE_SIZE * n :: Virtual(machine.mainMemory[..], FramesOf(pageTable[..]))[va] == 0
    ensures OnlyChanged(old(machine.mainMemory[..]), machine.mainMemory[..], FramesOf(pageTable[..]))
  {
    ghost var bits, mem := frames.Bits(), machine.mainMemory[..];
    pageTable := new Entry[n];
    FillPageTable(machine, frames, pageTable, bits, mem);
  }

  /** Valid, writable, and neither used nor dirty yet. */
  ghost predicate Initial(entries: seq<Entry>) {
    forall k | 0 <= k < |entries| :: entries[k].valid && !entries[k].readOnly && !entries[k].use && !entries[k].dirty
  }

  /** The first `i` pages have their frames, zeroed, and clean entries. */
  ghost predicate Filled(entries: seq<Entry>, bits': seq<bool>, mem': seq<Byte>, bits: seq<bool>, mem: seq<Byte>,
                         i: nat)
    requires |mem| == |mem'| == MEMORY_SIZE
  {
    (FramesOf(entries), bits') == Frames(bits, i) && Zeroed(mem, mem', FramesOf(entries)) && Initial(entries)
  }

  method FillPageTable(machine: Machine, frames: BitMap, pageTable: array<Entry>, ghost bits: seq<bool>,
                       ghost mem: seq<Byte>)
    requires machine.mainMemory.Length == |mem| == MEMORY_SIZE
    requires frames.Valid() && frames.numBits == FRAME_BITS && frames.Bits() == bits && machine.mainMemory[..] == mem
    requires pageTable.Length <= CountClear(bits) && pageTable.Length <= CountClear(bits[..NUM_PHYS_PAGES])
    requires machine.mainMemory as object != frames.words as object
    requires pageTable as object != frames.words as object && pageTable as object != machine.mainMemory as object
    modifies machine.mainMemory, frames.words, pageTable
    ensures Filled(pageTable[..], frames.Bits(), machine.mainMemory[..], bits, mem, pageTable.Length)
  {
    var i := 0;
    while i < pageTable.Length
      invariant 0 <= i <= pageTable.Length
      invariant Filled(pageTable[..i], frames.Bits(), machine.mainMemory[..], bits, mem, i)
    {
      FillEntry(machine, frames, pageTable, i, bits, mem);
      i := i + 1;
    }
    assert pageTable[..i] == pageTable[..];
  }

  method FillEntry(machine: Machine, frames: BitMap, pageTable: array<Entry>, i: nat, ghost bits: seq<bool>,
                   ghost mem: seq<Byte>)
    requires machine.mainMemory.Length == |mem| == MEMORY_SIZE
    requires frames.Valid() && frames.numBits == FRAME_BITS && |bits| == FRAME_BITS
    requires i < pageTable.Length <= CountClear(bits) && pageTable.Length <= CountClear(bits[..NUM_PHYS_PAGES])
    requires machine.mainMemory as object != frames.words as object
    requires pageTable as object != frames.words as object && pageTable as object != machine.mainMemory as object
    requires Filled(pageTable[..i], frames.Bits(), machine.mainMemory[..], bits, mem, i)
    modifies machine.mainMemory, frames.words, pageTable
    ensures Filled(pageTable[..i + 1], frames.Bits(), machine.mainMemory[..], bits, mem, i + 1)
  {
    ghost var was, before := pageTable[..i], machine.mainMemory[..];
    NextInMemory(bits, i, pageTable.Length);
    var f := frames.Find();
    assert machine.mainMemory[..] == before;
    ZeroedMore(mem, before, FramesOf(was), f);
    ZeroFrame(machine, f);
    pageTable[i] := Entry(i, f, true, false, false, false);
    assert pageTable[..i + 1] == was + [pageTable[i]];
    FramesSnoc(was, pageTable[i]);
  }

  lemma FramesSnoc(entries: seq<Entry>, e: Entry)
    ensures FramesOf(entries + [e]) == FramesOf(entries) + [e.physicalPage]
  {
  }

  /** The frames so far are zero throughout, and nothing else changed. */
  ghost predicate Zeroed(mem: seq<Byte>, mem': seq<Byte>, frames: seq<int>)
    requires |mem| == |mem'| == MEMORY_SIZE
  {
    && InMemory(frames) && OnlyChanged(mem, mem', frames)
    && forall va | 0 <= va < PAGE_SIZE * |frames| :: Virtual(mem', frames)[va] == 0
  }

  lemma ZeroedMore(mem: seq<Byte>, before: seq<Byte>, fs: seq<int>, f: int)
    requires |mem| == |before| == MEMORY_SIZE && Zeroed(mem, before, fs)
    requires 0 <= f < NUM_PHYS_PAGES && f !in fs
    ensures Zeroed(mem, Splice(before, PAGE_SIZE * f, seq(PAGE_SIZE, i => 0)), fs + [f])
  {
    ZeroMore(before, fs, f);
    var all := fs + [f];
    assert OnlyChanged(mem, before, all);
    assert all[|fs|] == f;
    WriteChangesFrame(mem, before, all, |fs|, 0, seq(PAGE_SIZE, i => 0));
  }

  /** As long as the request fits, the next frame found is a real one and a new one. */
  lemma NextInMemory(bits: seq<bool>, i: nat, n: nat)
    requires |bits| == FRAME_BITS && i < n <= CountClear(bits) && n <= CountClear(bits[..NUM_PHYS_PAGES])
    ensures var (fs, after) := Frames(bits, i); var f := FirstClear(after);
            0 <= f < NUM_PHYS_PAGES && f !in fs && Frames(bits, i + 1) == (fs + [f], after[f := true])
  {
    NextFrame(bits, i);
    FramesFillLow(bits, i, NUM_PHYS_PAGES);
    FramesAreTaken(bits, i);
    var after := Frames(bits, i).1;
    FirstBelow(after, NUM_PHYS_PAGES, FirstClear(after));
  }

  method ZeroFrame(machine: Machine, f: int)
    requires machine.mainMemory.Length == MEMORY_SIZE && 0 <= f < NUM_PHYS_PAGES
    modifies machine.mainMemory
    ensures machine.mainMemory[..] == Splice(old(machine.mainMemory[..]), PAGE_SIZE * f, seq(PAGE_SIZE, i => 0))
  {
    forall k | 0 <= k < PAGE_SIZE {
      machine.mainMemory[PAGE_SIZE * f + k] := 0;
    }
  }

  /** The space is loaded up to an address, and only its own frames changed since `mem`. */
  ghost predicate Progress(mem: seq<Byte>, mem': seq<Byte>, frames: seq<int>, file: seq<Byte>, h: Noff, upto: nat)
    requires |mem| == |mem'| == MEMORY_SIZE
  {
    InMemory(frames) && Distinct(frames) && OnlyChanged(mem, mem', frames)
    && LoadedTo(Virtual(mem', frames), file, h, upto)
  }

  /** Reads one chunk of the executable to its place within one page. */
  method LoadChunk(machine: Machine, executable: OpenFile, pageTable: array<Entry>, page: nat, offset: nat, n: nat,
                   pos: nat,
                   ghost mem: seq<Byte>, ghost h: Noff)
    requires WellFormed(executable.hdr.View()) && machine.mainMemory.Length == |mem| == MEMORY_SIZE
    requires page < pageTable.Length && offset + n <= PAGE_SIZE
    requires machine.mainMemory as object != pageTable as object
    requires var file := Contents(executable.disk.sectors, executable.hdr.View());
             && Progress(mem, machine.mainMemory[..], FramesOf(pageTable[..]), file, h, PAGE_SIZE * page + offset)
             && ChunkAt(file, h, PAGE_SIZE * page + offset, n, pos)
    modifies machine.mainMemory
    ensures Progress(mem, machine.mainMemory[..], FramesOf(pageTable[..]),
                     Contents(executable.disk.sectors, executable.hdr.View()), h, PAGE_SIZE * page + offset + n)
  {
    ghost var fs, before := FramesOf(pageTable[..]), machine.mainMemory[..];
    ghost var file := Contents(executable.disk.sectors, executable.hdr.View());
    var at := pageTable[page].physicalPage * PAGE_SIZE + offset;
    assert fs[page] == pageTable[page].physicalPage;
    var m := executable.ReadAt(machine.mainMemory, at, n, pos);
    ProgressMore(mem, before, fs, file, h, page, offset, n, pos);
  }

  lemma ProgressMore(mem: seq<Byte>, before: seq<Byte>, fs: seq<int>, file: seq<Byte>, h: Noff, page: nat, offset: nat,
                     n: nat, pos: nat)
    requires |mem| == |before| == MEMORY_SIZE && page < |fs| && offset + n <= PAGE_SIZE
    requires Progress(mem, before, fs, file, h, PAGE_SIZE * page + offset)
    requires ChunkAt(file, h, PAGE_SIZE * page + offset, n, pos)
    ensures var m := Clip(|file|, n, pos);
            m <= n && Progress(mem, Splice(before, PAGE_SIZE * fs[page] + offset, Slice(file, pos, m)), fs, file, h,
                               PAGE_SIZE * page + offset + n)
  {
    var m := Clip(|file|, n, pos);
    var data := Slice(file, pos, m);
    VirtualAfterWrite(before, fs, page, offset, data);
    LoadedMore(Virtual(before, fs), file, h, PAGE_SIZE * page + offset, n, pos);
    WriteChangesFrame(mem, before, fs, page, offset, data);
  }

  /** How far the space is loaded when `i` of the code pages are. */
  ghost function CodeUpTo(h: Noff, i: nat): nat {
    if i < NumCodePage(h) then PAGE_SIZE * i else h.codeSize
  }

  lemma CodeChunk(file: seq<Byte>, h: Noff, i: nat)
    requires i < NumCodePage(h)
    ensures var n := if i < NumCodePage(h) - 1 then PAGE_SIZE else LastCodePageSize(h);
            && 0 < n <= PAGE_SIZE && ChunkAt(file, h, CodeUpTo(h, i), n, h.codeAt + i * PAGE_SIZE)
            && CodeUpTo(h, i) + n == CodeUpTo(h, i + 1)
    ensures NumCodePage(h) <= NumPages(h)
  {
    Sizes(h);
  }

  /** Where the last code page has room, the first of the data goes there. */
  lemma FirstDataChunk(file: seq<Byte>, h: Noff)
    ensures FirstDataPageSize(h) >= 0 && NumCodePage(h) <= NumPages(h)
    ensures ChunkAt(file, h, h.codeSize, FirstDataPageSize(h), h.dataAt)
    ensures LastCodePageSize(h) < PAGE_SIZE ==>
              && NumCodePage(h) > 0 && 0 <= LastCodePageSize(h)
              && LastCodePageSize(h) + FirstDataPageSize(h) <= PAGE_SIZE
              && PAGE_SIZE * (NumCodePage(h) - 1) + LastCodePageSize(h) == h.codeSize
    ensures LastCodePageSize(h) >= PAGE_SIZE ==> FirstDataPageSize(h) == 0
  {
    Sizes(h);
  }

  /** How far the space is loaded when `j` of the data pages are. */
  ghost function DataUpTo(h: Noff, j: nat): nat {
    if j < NumDataPage(h) then PAGE_SIZE * (NumCodePage(h) + j) else h.codeSize + h.dataSize
  }

  lemma DataStarts(h: Noff)
    ensures h.codeSize + FirstDataPageSize(h) == DataUpTo(h, 0)
  {
    Sizes(h);
  }

  lemma DataChunk(file: seq<Byte>, h: Noff, j: nat)
    requires j < NumDataPage(h)
    ensures var n := if j < NumDataPage(h) - 1 then PAGE_SIZE else LastDataPageSize(h);
            && 0 < n <= PAGE_SIZE && 0 <= FirstDataPageSize(h)
            && ChunkAt(file, h, DataUpTo(h, j), n, h.dataAt + j * PAGE_SIZE + FirstDataPageSize(h))
            && DataUpTo(h, j) + n == DataUpTo(h, j + 1)
    ensures NumCodePage(h) + NumDataPage(h) <= NumPages(h)
  {
    Sizes(h);
  }

  method LoadCodePage(machine: Machine, executable: OpenFile, pageTable: array<Entry>, h: Noff, i: nat,
                      ghost mem: seq<Byte>)
    requires WellFormed(executable.hdr.View()) && machine.mainMemory.Length == |mem| == MEMORY_SIZE
    requires pageTable.Length == NumPages(h) && machine.mainMemory as object != pageTable as object
    requires i < NumCodePage(h)
    requires Progress(mem, machine.mainMemory[..], FramesOf(pageTable[..]),
                      Contents(executable.disk.sectors, executable.hdr.View()), h,
                      CodeUpTo(h, i))
    modifies machine.mainMemory
    ensures Progress(mem, machine.mainMemory[..], FramesOf(pageTable[..]),
                     Contents(executable.disk.sectors, executable.hdr.View()), h,
                     CodeUpTo(h, i + 1))
  {
    hide Progress, ChunkAt, Contents, FramesOf;
    CodeChunk(Contents(executable.disk.sectors, executable.hdr.View()), h, i);
    LoadChunk(machine, executable, pageTable, i, 0, if i < NumCodePage(h) - 1 then PAGE_SIZE else LastCodePageSize(h),
              h.codeAt + i * PAGE_SIZE, mem, h);
  }

  method LoadCode(machine: Machine, executable: OpenFile, pageTable: array<Entry>, h: Noff, ghost mem: seq<Byte>)
    requires WellFormed(executable.hdr.View()) && machine.mainMemory.Length == |mem| == MEMORY_SIZE
    requires pageTable.Length == NumPages(h) && machine.mainMemory as object != pageTable as object
    requires Progress(mem, machine.mainMemory[..], FramesOf(pageTable[..]),
                      Contents(executable.disk.sectors, executable.hdr.View()), h,
                      CodeUpTo(h, 0))
    modifies machine.mainMemory
    ensures Progress(mem, machine.mainMemory[..], FramesOf(pageTable[..]),
                     Contents(executable.disk.sectors, executable.hdr.View()), h, h.codeSize)
  {
    ghost var file := Contents(executable.disk.sectors, executable.hdr.View());
    var i, numCodePage := 0, NumCodePage(h);
    while i < numCodePage
      invariant 0 <= i <= numCodePage
      invariant Progress(mem, machine.mainMemory[..], FramesOf(pageTable[..]), file, h, CodeUpTo(h, i))
    {
      LoadCodePage(machine, executable, pageTable, h, i, mem);
      i := i + 1;
    }
  }

  /** The part of the initialised data that shares the last code page. */
  method LoadFirstData(machine: Machine, executable: OpenFile, pageTable: array<Entry>, h: Noff, ghost mem: seq<Byte>)
    requires WellFormed(executable.hdr.View()) && machine.mainMemory.Length == |mem| == MEMORY_SIZE
    requires pageTable.Length == NumPages(h) && machine.mainMemory as object != pageTable as object
    requires Progress(mem, machine.mainMemory[..], FramesOf(pageTable[..]),
                      Contents(executable.disk.sectors, executable.hdr.View()), h, h.codeSize)
    modifies machine.mainMemory
    ensures FirstDataPageSize(h) >= 0
    ensures Progress(mem, machine.mainMemory[..], FramesOf(pageTable[..]),
                     Contents(executable.disk.sectors, executable.hdr.View()), h,
                     h.codeSize + FirstDataPageSize(h))
  {
    hide Progress, ChunkAt, Contents, FramesOf;
    FirstDataChunk(Contents(executable.disk.sectors, executable.hdr.View()), h);
    if LastCodePageSize(h) < PAGE_SIZE {
      if FirstDataPageSize(h) > 0 {
        LoadChunk(machine, executable, pageTable, NumCodePage(h) - 1, LastCodePageSize(h), FirstDataPageSize(h),
                  h.dataAt, mem, h);
      }
    }
  }

  method LoadDataPage(machine: Machine, executable: OpenFile, pageTable: array<Entry>, h: Noff, i: nat, j: nat,
                      ghost mem: seq<Byte>)
    requires WellFormed(executable.hdr.View()) && machine.mainMemory.Length == |mem| == MEMORY_SIZE
    requires pageTable.Length == NumPages(h) && machine.mainMemory as object != pageTable as object
    requires j < NumDataPage(h) && i == NumCodePage(h) + j
    requires Progress(mem, machine.mainMemory[..], FramesOf(pageTable[..]),
                      Contents(executable.disk.sectors, executable.hdr.View()), h,
                      DataUpTo(h, j))
    modifies machine.mainMemory
    ensures Progress(mem, machine.mainMemory[..], FramesOf(pageTable[..]),
                     Contents(executable.disk.sectors, executable.hdr.View()), h,
                     DataUpTo(h, j + 1))
  {
    hide Progress, ChunkAt, Contents, FramesOf;
    DataChunk(Contents(executable.disk.sectors, executable.hdr.View()), h, j);
    LoadChunk(machine, executable, pageTable, i, 0, if j < NumDataPage(h) - 1 then PAGE_SIZE else LastDataPageSize(h),
              h.dataAt + j * PAGE_SIZE + FirstDataPageSize(h), mem, h);
  }

  /** The initialised data beyond the last code page. */
  method LoadData(machine: Machine, executable: OpenFile, pageTable: array<Entry>, h: Noff, ghost mem: seq<Byte>)
    requires WellFormed(executable.hdr.View()) && machine.mainMemory.Length == |mem| == MEMORY_SIZE
    requires pageTable.Length == NumPages(h) && machine.mainMemory as object != pageTable as object
    requires Progress(mem, machine.mainMemory[..], FramesOf(pageTable[..]),
                      Contents(executable.disk.sectors, executable.hdr.View()), h,
                      DataUpTo(h, 0))
    modifies machine.mainMemory
    ensures Progress(mem, machine.mainMemory[..], FramesOf(pageTable[..]),
                     Contents(executable.disk.sectors, executable.hdr.View()), h,
                     h.codeSize + h.dataSize)
  {
    ghost var file := Contents(executable.disk.sectors, executable.hdr.View());
    var i, j, numDataPage := NumCodePage(h), 0, NumDataPage(h);
    while j < numDataPage
      invariant 0 <= j <= numDataPage && i == NumCodePage(h) + j
      invariant Progress(mem, machine.mainMemory[..], FramesOf(pageTable[..]), file, h, DataUpTo(h, j))
    {
      LoadDataPage(machine, executable, pageTable, h, i, j, mem);
      i := i + 1;
      j := j + 1;
    }
  }

  class AddrSpace {
    const pageTable: array<Entry>
    const numPages: nat

    /** Fails, changing nothing, exactly when the bitmap has too few clear bits.  Otherwise the process
        finds at every virtual address the code byte, the initialised data byte or zero that belongs
        there, and no process with other frames sees any change.

        The request must fit the clear bits that stand for real frames, or else exceed the whole
        bitmap; between the two the source runs past the end of memory. */
    constructor (machine: Machine, frames: BitMap, executable: OpenFile, h: Noff)
      requires machine.mainMemory.Length == MEMORY_SIZE
      requires frames.Valid() && frames.numBits == FRAME_BITS
      requires machine.mainMemory as object != frames.words as object
      requires WellFormed(executable.hdr.View())
      requires NumPages(h) > CountClear(frames.Bits()) || NumPages(h) <= CountClear(frames.Bits()[..NUM_PHYS_PAGES])
      modifies machine.mainMemory, frames.words
      ensures fresh(pageTable) && numPages == pageTable.Length
      ensures NumPages(h) > CountClear(old(frames.Bits())) ==>
                && numPages == 0 && frames.Bits() == old(frames.Bits())
                && machine.mainMemory[..] == old(machine.mainMemory[..])
      ensures NumPages(h) <= CountClear(old(frames.Bits())) ==>
                && numPages == NumPages(h) && Initial(pageTable[..])
                && (FramesOf(pageTable[..]), frames.Bits()) == Frames(old(frames.Bits()), numPages)
      ensures NumPages(h) <= CountClear(old(frames.Bits())) ==>
                Sees(machine.mainMemory[..], FramesOf(pageTable[..]),
                     Contents(executable.disk.sectors, executable.hdr.View()), h)
      ensures forall other: seq<int> | InMemory(other) && (forall f | f in FramesOf(pageTable[..]) :: f !in other) ::
                Virtual(machine.mainMemory[..], other) == Virtual(old(machine.mainMemory[..]), other)
    {
      var n := NumPages(h);
      var clear := frames.NumClear();
      ghost var bits, mem := frames.Bits(), machine.mainMemory[..];
      if n > clear {
        numPages := 0;
        pageTable := new Entry[0];
      } else {
        FramesAreTaken(bits, n);
        var table := AllocatePages(machine, frames, n);
        LoadImage(machine, executable, table, h, mem);
        numPages := n;
        pageTable := table;
        forall other: seq<int> | InMemory(other) && (forall f | f in FramesOf(table[..]) :: f !in other)
          ensures Virtual(machine.mainMemory[..], other) == Virtual(mem, other)
        {
          OnlyChangedUnseen(mem, machine.mainMemory[..], FramesOf(table[..]), other);
        }
      }
    }
  }

  method LoadImage(machine: Machine, executable: OpenFile, pageTable: array<Entry>, h: Noff, ghost mem: seq<Byte>)
    requires WellFormed(executable.hdr.View()) && machine.mainMemory.Length == |mem| == MEMORY_SIZE
    requires pageTable.Length == NumPages(h) && machine.mainMemory as object != pageTable as object
    requires Zeroed(mem, machine.mainMemory[..], FramesOf(pageTable[..])) && Distinct(FramesOf(pageTable[..]))
    modifies machine.mainMemory
    ensures OnlyChanged(mem, machine.mainMemory[..], FramesOf(pageTable[..]))
    ensures Sees(machine.mainMemory[..], FramesOf(pageTable[..]),
                 Contents(executable.disk.sectors, executable.hdr.View()), h)
  {
    LoadCode(machine, executable, pageTable, h, mem);
    LoadFirstData(machine, executable, pageTable, h, mem);
    DataStarts(h);
    LoadData(machine, executable, pageTable, h, mem);
  }

  /** Loading one more process keeps all apart and disturbs none of those already loaded. */
  lemma LoadedApart(spaces: seq<seq<int>>, bits: seq<bool>, n: nat, i: nat)
    requires Apart(spaces, bits) && i < |spaces|
    requires n <= CountClear(bits[..NUM_PHYS_PAGES]) && n <= CountClear(bits)
    ensures InMemory(spaces[i]) && forall f | f in Frames(bits, n).0 :: f !in spaces[i]
  {
    hide Frames;
    CreationKeepsApart(spaces, bits, n);
    var all := spaces + [Frames(bits, n).0];
    assert all[i] == spaces[i] && all[|spaces|] == Frames(bits, n).0;
  }
}
