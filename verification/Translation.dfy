/** Virtual memory of machine/translate.cc with a linear page table: Translate, ReadMem, WriteMem,
    and what they mean for the memory that each process sees. */
module Translation {
  import opened Words
  import opened Files

  const PAGE_SIZE := 512
  const NUM_PHYS_PAGES := 128
  const MEMORY_SIZE := 65536

  datatype Entry = Entry(virtualPage: int, physicalPage: int, valid: bool, readOnly: bool, use: bool, dirty: bool)

  datatype Exception = NoException | PageFaultException | ReadOnlyException | BusErrorException | AddressErrorException

  // ---------------------------------------------------------------------------
  // What a process sees

  /** The page frames of a page table. */
  function FramesOf(table: seq<Entry>): (fs: seq<int>)
    ensures |fs| == |table|
  {
    seq(|table|, i requires 0 <= i < |table| => table[i].physicalPage)
  }

  ghost predicate InMemory(frames: seq<int>) {
    forall i | 0 <= i < |frames| :: 0 <= frames[i] < NUM_PHYS_PAGES
  }

  /** The bytes at virtual addresses 0, 1, 2, ... of a process with the given page frames. */
  ghost function Virtual(mem: seq<Byte>, frames: seq<int>): (v: seq<Byte>)
    requires |mem| == MEMORY_SIZE && InMemory(frames)
    ensures |v| == PAGE_SIZE * |frames|
  {
    seq(PAGE_SIZE * |frames|, va requires 0 <= va < PAGE_SIZE * |frames| =>
      mem[PAGE_SIZE * frames[va / PAGE_SIZE] + va % PAGE_SIZE])
  }

  lemma VirtualAt(mem: seq<Byte>, frames: seq<int>, page: nat, offset: nat)
    requires |mem| == MEMORY_SIZE && InMemory(frames)
    requires page < |frames| && offset < PAGE_SIZE
    ensures Virtual(mem, frames)[PAGE_SIZE * page + offset] == mem[PAGE_SIZE * frames[page] + offset]
  {
    assert (PAGE_SIZE * page + offset) / PAGE_SIZE == page && (PAGE_SIZE * page + offset) % PAGE_SIZE == offset;
  }

  /** Writing within one frame of a process is writing at the matching virtual address. */
  lemma VirtualAfterWrite(mem: seq<Byte>, frames: seq<int>, page: nat, offset: nat, data: seq<Byte>)
    requires |mem| == MEMORY_SIZE && InMemory(frames) && Distinct(frames)
    requires page < |frames| && offset + |data| <= PAGE_SIZE
    ensures PAGE_SIZE * page + offset + |data| <= PAGE_SIZE * |frames|
    ensures Virtual(Splice(mem, PAGE_SIZE * frames[page] + offset, data), frames)
            == Splice(Virtual(mem, frames), PAGE_SIZE * page + offset, data)
  {
    var at, vat := PAGE_SIZE * frames[page] + offset, PAGE_SIZE * page + offset;
    var mem' := Splice(mem, at, data);
    var lhs, rhs := Virtual(mem', frames), Splice(Virtual(mem, frames), vat, data);
    forall va | 0 <= va < PAGE_SIZE * |frames|
      ensures lhs[va] == rhs[va]
    {
      SpliceByte(mem, frames, page, offset, data, va);
    }
  }

  lemma SpliceByte(mem: seq<Byte>, frames: seq<int>, page: nat, offset: nat, data: seq<Byte>, va: nat)
    requires |mem| == MEMORY_SIZE && InMemory(frames) && Distinct(frames)
    requires page < |frames| && offset + |data| <= PAGE_SIZE && va < PAGE_SIZE * |frames|
    ensures Splice(mem, PAGE_SIZE * frames[page] + offset, data)[PAGE_SIZE * frames[va / PAGE_SIZE] + va % PAGE_SIZE]
            == Splice(Virtual(mem, frames), PAGE_SIZE * page + offset, data)[va]
  {
    var p, o := va / PAGE_SIZE, va % PAGE_SIZE;
    assert va == PAGE_SIZE * p + o;
    var at, vat := PAGE_SIZE * frames[page] + offset, PAGE_SIZE * page + offset;
    if p == page {
      assert at <= PAGE_SIZE * frames[p] + o < at + |data| <==> vat <= va < vat + |data|;
    } else {
      assert frames[p] != frames[page];
      assert !(at <= PAGE_SIZE * frames[p] + o < at + |data|) && !(vat <= va < vat + |data|);
    }
  }

  /** Writing within a frame that a process does not have changes nothing that it sees. */
  lemma VirtualUntouched(mem: seq<Byte>, frames: seq<int>, frame: int, offset: nat, data: seq<Byte>)
    requires |mem| == MEMORY_SIZE && InMemory(frames) && 0 <= frame < NUM_PHYS_PAGES
    requires frame !in frames && offset + |data| <= PAGE_SIZE
    ensures Virtual(Splice(mem, PAGE_SIZE * frame + offset, data), frames) == Virtual(mem, frames)
  {
    var at := PAGE_SIZE * frame + offset;
    forall va | 0 <= va < PAGE_SIZE * |frames|
      ensures !(at <= PAGE_SIZE * frames[va / PAGE_SIZE] + va % PAGE_SIZE < at + |data|)
    {
      assert frames[va / PAGE_SIZE] != frame;
    }
  }

  // ---------------------------------------------------------------------------
  // Words of one, two and four bytes

  predicate IsSize(size: int) { size == 1 || size == 2 || size == 4 }

  /** The low `size` bytes of a value, little end first. */
  function LowBytes(value: Int32, size: int): (bs: seq<Byte>)
    requires IsSize(size)
    ensures |bs| == size
  {
    var u := Unsigned(value);
    if size == 1 then [Digit(u, 0)]
    else if size == 2 then [Digit(u, 0), Digit(u, 1)]
    else [Digit(u, 0), Digit(u, 1), Digit(u, 2), Digit(u, 3)]
  }

  /** What ReadMem makes of the bytes: a signed char, an unsigned short, or an int. */
  function ValueOf(bs: seq<Byte>): Int32
    requires IsSize(|bs|)
  {
    if |bs| == 1 then (if bs[0] < 128 then bs[0] else bs[0] - 256)
    else if |bs| == 2 then bs[0] + 256 * bs[1]
    else Signed(Pattern(bs[0], bs[1], bs[2], bs[3]))
  }

  /** Storing and loading a value gives it back as far as its size goes: all of an int, and the low
      bytes of anything else, which a one-byte load sign-extends. */
  lemma ValueOfLowBytes(value: Int32, size: int)
    requires IsSize(size)
    ensures var r := ValueOf(LowBytes(value, size));
            && (size == 4 ==> r == value)
            && (size == 2 ==> r == Unsigned(value) % 65536)
            && (size == 1 ==> -128 <= r < 128 && (r - value) % 256 == 0)
  {
    if size == 4 {
      PatternOfDigits(Unsigned(value));
      SignedUnsigned(value);
    } else if size == 2 {
      LowShort(Unsigned(value));
    } else {
      LowByteSigned(value);
    }
  }

  lemma Remainder(u: nat, p: nat, r: nat)
    requires u == 65536 * p + r && r < 65536
    ensures u % 65536 == r
  {
  }

  lemma LowShort(u: UInt32)
    ensures Digit(u, 0) + 256 * Digit(u, 1) == u % 65536
  {
    var q := u / 256;
    Remainder(u, q / 256, u % 256 + 256 * (q % 256));
  }

  lemma LowByteSigned(value: Int32)
    ensures var d := Digit(Unsigned(value), 0); var r := if d < 128 then d else d - 256; (r - value) % 256 == 0
  {
    var u := Unsigned(value);
    assert u % 256 == value % 256;
  }

  /** A shorter store writes the first bytes of a longer one: the little end comes first. */
  lemma LowBytesNest(value: Int32)
    ensures LowBytes(value, 1) == [value % 256]
    ensures LowBytes(value, 2)[..1] == LowBytes(value, 1)
    ensures LowBytes(value, 4)[..2] == LowBytes(value, 2)
    ensures LowBytes(value, 4)[2..] == LowBytes(HighHalf(value), 2)
  {
    LowByteIs(value);
    HighDigits(Unsigned(value));
  }

  /** The upper sixteen bits of an int. */
  function HighHalf(value: Int32): (h: Int32)
    ensures 0 <= h < 65536
  {
    Unsigned(value) / 65536
  }

  lemma LowByteIs(value: Int32)
    ensures Unsigned(value) % 256 == value % 256
  {
  }

  lemma HighDigits(u: UInt32)
    ensures Digit(u / 65536, 0) == Digit(u, 2) && Digit(u / 65536, 1) == Digit(u, 3)
  {
    assert u / 65536 / 256 == u / 0x100_0000;
    assert u / 0x100_0000 < 256;
  }

  /** A longer load is made of the shorter ones: the little end counts least. */
  lemma ValuesNest(bs: seq<Byte>)
    ensures |bs| == 2 ==> ValueOf(bs) == (bs[0] as int) + 256 * (bs[1] as int)
    ensures |bs| == 4 ==> Unsigned(ValueOf(bs)) == ValueOf(bs[..2]) + 65536 * ValueOf(bs[2..])
    ensures |bs| == 1 ==> ValueOf(bs) == if bs[0] < 128 then bs[0] as int else (bs[0] as int) - 256
  {
  }

  /** Which exception an access raises, and when it raises none. */
  lemma CheckMeans(table: seq<Entry>, virtAddr: Int32, size: int, writing: bool)
    requires IsSize(size)
    ensures var u, e := Unsigned(virtAddr), Check(table, virtAddr, size, writing);
            && (u % size != 0 || u >= 512 * |table| <==> e == AddressErrorException)
            && (u % size == 0 && u < 512 * |table| ==>
                  var entry := table[u / 512];
                  && (e == PageFaultException <==> !entry.valid)
                  && (e == ReadOnlyException <==> entry.valid && entry.readOnly && writing)
                  && (e == BusErrorException <==>
                        entry.valid && !(entry.readOnly && writing) && !(0 <= entry.physicalPage < 128))
                  && (e == NoException <==>
                        entry.valid && !(entry.readOnly && writing) && 0 <= entry.physicalPage < 128))
  {
    PageIndex(Unsigned(virtAddr), |table|);
  }

  lemma PageIndex(u: nat, n: nat)
    ensures u / PAGE_SIZE < n <==> u < PAGE_SIZE * n
  {
  }

  // ---------------------------------------------------------------------------
  // The machine

  /** Which exception, if any, an access raises: first alignment, then the table's bounds, then the
      entry's bits, then the frame number. */
  function Check(table: seq<Entry>, virtAddr: Int32, size: int, writing: bool): Exception {
    var u := Unsigned(virtAddr);
    if (size == 4 && u % 4 != 0) || (size == 2 && u % 2 != 0) then AddressErrorException
    else if u / PAGE_SIZE >= |table| then AddressErrorException
    else if !table[u / PAGE_SIZE].valid then PageFaultException
    else if table[u / PAGE_SIZE].readOnly && writing then ReadOnlyException
    else if !(0 <= table[u / PAGE_SIZE].physicalPage < NUM_PHYS_PAGES) then BusErrorException
    else NoException
  }

  /** An access that is let through stays inside one page. */
  lemma StaysInPage(u: nat, size: int)
    requires IsSize(size) && (size == 4 ==> u % 4 == 0) && (size == 2 ==> u % 2 == 0)
    ensures u % PAGE_SIZE + size <= PAGE_SIZE
  {
    var q, r := u / PAGE_SIZE, u % PAGE_SIZE;
    assert u == PAGE_SIZE * q + r;
    if size == 4 {
      assert r == 4 * (u / 4 - 128 * q);
    } else if size == 2 {
      assert r == 2 * (u / 2 - 256 * q);
    }
  }

  /** Two page tables that map alike: only use and dirty bits differ. */
  ghost predicate SameMapping(table: seq<Entry>, table': seq<Entry>) {
    && |table'| == |table| && FramesOf(table') == FramesOf(table)
    && forall i | 0 <= i < |table| :: table'[i].valid == table[i].valid && table'[i].readOnly == table[i].readOnly
  }

  /** The physical address behind a virtual one. */
  ghost function Physical(frames: seq<int>, u: nat): int
    requires u / PAGE_SIZE < |frames|
  {
    PAGE_SIZE * frames[u / PAGE_SIZE] + u % PAGE_SIZE
  }

  /** The access stays within one page, and its frame within memory. */
  ghost predicate Reaches(frames: seq<int>, u: nat, size: nat) {
    && u / PAGE_SIZE < |frames| && u % PAGE_SIZE + size <= PAGE_SIZE
    && 0 <= frames[u / PAGE_SIZE] < NUM_PHYS_PAGES
  }

  ghost function Bytes(mem: seq<Byte>, frames: seq<int>, u: nat, size: nat): (bs: seq<Byte>)
    requires |mem| == MEMORY_SIZE && Reaches(frames, u, size)
    ensures |bs| == size
  {
    mem[Physical(frames, u)..Physical(frames, u) + size]
  }

  class Machine {
    const mainMemory: array<Byte>

    constructor ()
      ensures mainMemory.Length == MEMORY_SIZE && fresh(mainMemory)
      ensures forall i | 0 <= i < MEMORY_SIZE :: mainMemory[i] == 0
    {
      mainMemory := new Byte[MEMORY_SIZE](i => 0);
    }

    /** Sets the use and dirty bits of the entry it goes through, and nothing else. */
    method Translate(pageTable: array<Entry>, virtAddr: Int32, size: int, writing: bool)
      returns (e: Exception, physAddr: int)
      requires IsSize(size)
      modifies pageTable
      ensures e == Check(old(pageTable[..]), virtAddr, size, writing)
      ensures e != NoException ==> pageTable[..] == old(pageTable[..])
      ensures e == NoException ==>
                var page, offset := Unsigned(virtAddr) / PAGE_SIZE, Unsigned(virtAddr) % PAGE_SIZE;
                && page < pageTable.Length && offset + size <= PAGE_SIZE
                && Reaches(FramesOf(pageTable[..]), Unsigned(virtAddr), size)
                && physAddr == Physical(FramesOf(pageTable[..]), Unsigned(virtAddr))
                && SameMapping(old(pageTable[..]), pageTable[..])
                && pageTable[page] == old(pageTable[page]).(use := true, dirty := old(pageTable[page]).dirty || writing)
                && forall i | 0 <= i < pageTable.Length && i != page :: pageTable[i] == old(pageTable[i])
    {
      physAddr := 0;
      var u := Unsigned(virtAddr);
      if (size == 4 && u % 4 != 0) || (size == 2 && u % 2 != 0) {
        return AddressErrorException, 0;
      }
      var vpn, offset := u / PAGE_SIZE, u % PAGE_SIZE;
      if vpn >= pageTable.Length {
        return AddressErrorException, 0;
      } else if !pageTable[vpn].valid {
        return PageFaultException, 0;
      }
      var entry := pageTable[vpn];
      if entry.readOnly && writing {
        return ReadOnlyException, 0;
      }
      var pageFrame := entry.physicalPage;
      if !(0 <= pageFrame < NUM_PHYS_PAGES) {
        return BusErrorException, 0;
      }
      pageTable[vpn] := entry.(use := true, dirty := entry.dirty || writing);
      physAddr := pageFrame * PAGE_SIZE + offset;
      StaysInPage(u, size);
      return NoException, physAddr;
    }

    /** The value of the bytes at the physical address, which are those the process sees at the virtual
        one. */
    method ReadMem(pageTable: array<Entry>, addr: Int32, size: int) returns (e: Exception, value: Int32)
      requires IsSize(size) && mainMemory.Length == MEMORY_SIZE
      modifies pageTable
      ensures e == Check(old(pageTable[..]), addr, size, false)
      ensures SameMapping(old(pageTable[..]), pageTable[..]) && mainMemory[..] == old(mainMemory[..])
      ensures e == NoException ==>
                && Reaches(FramesOf(pageTable[..]), Unsigned(addr), size)
                && value == ValueOf(Bytes(mainMemory[..], FramesOf(pageTable[..]), Unsigned(addr), size))
      ensures e == NoException && InMemory(FramesOf(pageTable[..])) ==>
                var v := Virtual(mainMemory[..], FramesOf(pageTable[..]));
                Unsigned(addr) + size <= |v| && value == ValueOf(v[Unsigned(addr)..Unsigned(addr) + size])
    {
      hide Virtual, Check, ValueOf;
      value := 0;
      var physAddr;
      e, physAddr := Translate(pageTable, addr, size, false);
      if e != NoException {
        return;
      }
      value := ValueOf(mainMemory[physAddr..physAddr + size]);
      ghost var frames := FramesOf(pageTable[..]);
      assert Bytes(mainMemory[..], frames, Unsigned(addr), size) == mainMemory[physAddr..physAddr + size];
      if InMemory(frames) {
        VirtualSlice(mainMemory[..], frames, Unsigned(addr), size);
      }
    }

    /** The process sees its memory overwritten at the address, and every process without that frame
        sees nothing change. */
    method WriteMem(pageTable: array<Entry>, addr: Int32, size: int, value: Int32) returns (e: Exception)
      requires IsSize(size) && mainMemory.Length == MEMORY_SIZE
      requires mainMemory as object != pageTable as object
      modifies pageTable, mainMemory
      ensures e == Check(old(pageTable[..]), addr, size, true)
      ensures SameMapping(old(pageTable[..]), pageTable[..])
      ensures e != NoException ==> mainMemory[..] == old(mainMemory[..])
      ensures e == NoException ==>
                && Reaches(FramesOf(pageTable[..]), Unsigned(addr), size)
                && mainMemory[..] == Splice(old(mainMemory[..]), Physical(FramesOf(pageTable[..]), Unsigned(addr)),
                                            LowBytes(value, size))
      ensures e == NoException && InMemory(FramesOf(pageTable[..])) && Distinct(FramesOf(pageTable[..])) ==>
                var v := Virtual(old(mainMemory[..]), FramesOf(pageTable[..]));
                && Unsigned(addr) + size <= |v|
                && Virtual(mainMemory[..], FramesOf(pageTable[..])) == Splice(v, Unsigned(addr), LowBytes(value, size))
      ensures forall other: seq<int> | InMemory(other) && (forall f | f in FramesOf(pageTable[..]) :: f !in other) ::
                Virtual(mainMemory[..], other) == Virtual(old(mainMemory[..]), other)
    {
      var physAddr;
      hide Virtual, Check, LowBytes;
      e, physAddr := Translate(pageTable, addr, size, true);
      if e != NoException {
        return;
      }
      ghost var mem, frames := mainMemory[..], FramesOf(pageTable[..]);
      ghost var page, offset := Unsigned(addr) / PAGE_SIZE, Unsigned(addr) % PAGE_SIZE;
      var bytes := LowBytes(value, size);
      Store(physAddr, bytes);
      if InMemory(frames) && Distinct(frames) {
        VirtualAfterWrite(mem, frames, page, offset, bytes);
      }
      forall other: seq<int> | InMemory(other) && (forall f | f in frames :: f !in other)
        ensures Virtual(mainMemory[..], other) == Virtual(mem, other)
      {
        assert frames[page] in frames;
        VirtualUntouched(mem, other, frames[page], offset, bytes);
      }
    }

    method Store(physAddr: nat, bytes: seq<Byte>)
      requires physAddr + |bytes| <= mainMemory.Length
      modifies mainMemory
      ensures mainMemory[..] == Splice(old(mainMemory[..]), physAddr, bytes)
    {
      forall k | 0 <= k < |bytes| {
        mainMemory[physAddr + k] := bytes[k];
      }
    }
  }

  lemma VirtualSlice(mem: seq<Byte>, frames: seq<int>, va: nat, size: nat)
    requires |mem| == MEMORY_SIZE && InMemory(frames)
    requires va / PAGE_SIZE < |frames| && va % PAGE_SIZE + size <= PAGE_SIZE
    ensures va + size <= PAGE_SIZE * |frames|
    ensures var at := PAGE_SIZE * frames[va / PAGE_SIZE] + va % PAGE_SIZE;
            Virtual(mem, frames)[va..va + size] == mem[at..at + size]
  {
    var page, offset := va / PAGE_SIZE, va % PAGE_SIZE;
    assert va == PAGE_SIZE * page + offset;
    var at := PAGE_SIZE * frames[page] + offset;
    var lhs, rhs := Virtual(mem, frames)[va..va + size], mem[at..at + size];
    forall k | 0 <= k < size
      ensures lhs[k] == rhs[k]
    {
      VirtualAt(mem, frames, page, offset + k);
    }
  }

  /** Reading back an address just written returns the value as far as its size goes. */
  method WriteThenRead(machine: Machine, pageTable: array<Entry>, addr: Int32, size: int, value: Int32)
    returns (e: Exception, r: Int32)
    requires IsSize(size) && machine.mainMemory.Length == MEMORY_SIZE
    requires machine.mainMemory as object != pageTable as object
    modifies pageTable, machine.mainMemory
    ensures e == Check(old(pageTable[..]), addr, size, true)
    ensures e == NoException ==> r == ValueOf(LowBytes(value, size))
    ensures e == NoException && size == 4 ==> r == value
  {
    hide Check, LowBytes, ValueOf;
    r := 0;
    e := machine.WriteMem(pageTable, addr, size, value);
    if e == NoException {
      ghost var frames := FramesOf(pageTable[..]);
      assert Bytes(machine.mainMemory[..], frames, Unsigned(addr), size) == LowBytes(value, size);
      WritableIsReadable(old(pageTable[..]), pageTable[..], addr, size);
      e, r := machine.ReadMem(pageTable, addr, size);
      ValueOfLowBytes(value, size);
    }
  }

  /** What may be written may be read. */
  lemma WritableIsReadable(table: seq<Entry>, table': seq<Entry>, addr: Int32, size: int)
    requires Check(table, addr, size, true) == NoException && SameMapping(table, table')
    ensures Check(table', addr, size, false) == NoException
  {
    var page := Unsigned(addr) / PAGE_SIZE;
    assert FramesOf(table)[page] == FramesOf(table')[page];
  }
}
