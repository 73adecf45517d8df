/** Sectors, file headers and open files: filesys/synchdisk.cc, filesys/filehdr.cc and
    filesys/openfile.cc.  A disk is an image of sectors read and written whole; a file is
    the byte sequence that its header's table of sectors describes. */
module Files {
  import opened Words
  import opened BitMaps

  const SECTOR_SIZE := 512
  const NUM_SECTORS := 1024
  const NUM_DIRECT := 126
  const MAX_FILE_SIZE := 64512

  type Sector = s: seq<Byte> | |s| == 512 witness seq(512, i => 0)

  function BlankSector(): Sector { seq(512, i => 0) }

  type Image = d: seq<Sector> | |d| == 1024 witness seq<Sector>(1024, i => BlankSector())

  /** `s` with the bytes from `at` on replaced by `data`. */
  function Splice(s: seq<Byte>, at: nat, data: seq<Byte>): (r: seq<Byte>)
    requires at + |data| <= |s|
    ensures |r| == |s|
    ensures forall k | 0 <= k < |s| :: r[k] == if at <= k < at + |data| then data[k - at] else s[k]
  {
    s[..at] + data + s[at + |data|..]
  }

  // ---------------------------------------------------------------------------
  // File headers as values

  datatype Header = Header(numBytes: Int32, numSectors: Int32, dataSectors: seq<Int32>)

  /** The sectors that the header says hold the file. */
  function DataSectors(h: Header): (ds: seq<Int32>)
    requires Shaped(h)
    ensures |ds| == h.numSectors
  {
    h.dataSectors[..h.numSectors]
  }

  /** The length fields agree with each other and fit the table. */
  ghost predicate Shaped(h: Header) {
    && |h.dataSectors| == NUM_DIRECT
    && 0 <= h.numBytes <= MAX_FILE_SIZE
    && h.numSectors == DivRoundUp(h.numBytes, SECTOR_SIZE)
    && h.numSectors <= NUM_DIRECT
  }

  ghost predicate Distinct(ds: seq<int>) {
    forall i, j | 0 <= i < j < |ds| :: ds[i] != ds[j]
  }

  ghost predicate OnDisk(ds: seq<int>) {
    forall i | 0 <= i < |ds| :: 0 <= ds[i] < NUM_SECTORS
  }

  ghost predicate WellFormed(h: Header) {
    && Shaped(h)
    && OnDisk(DataSectors(h))
    && Distinct(DataSectors(h))
  }

  /** The bytes of all sectors of a file, including the slack after its end. */
  ghost function Raw(d: Image, h: Header): (r: seq<Byte>)
    requires WellFormed(h)
    ensures |r| == SECTOR_SIZE * h.numSectors
  {
    seq(SECTOR_SIZE * h.numSectors, i requires 0 <= i < SECTOR_SIZE * h.numSectors =>
      d[DataSectors(h)[i / SECTOR_SIZE]][i % SECTOR_SIZE])
  }

  /** The contents of a file. */
  ghost function Contents(d: Image, h: Header): (r: seq<Byte>)
    requires WellFormed(h)
    ensures |r| == h.numBytes
  {
    Raw(d, h)[..h.numBytes]
  }

  lemma RawSector(d: Image, h: Header, i: nat)
    requires WellFormed(h) && i < h.numSectors
    ensures Raw(d, h)[SECTOR_SIZE * i..SECTOR_SIZE * (i + 1)] == d[DataSectors(h)[i]]
  {
    var r := Raw(d, h);
    forall k | 0 <= k < SECTOR_SIZE
      ensures r[SECTOR_SIZE * i + k] == d[DataSectors(h)[i]][k]
    {
      assert (SECTOR_SIZE * i + k) / SECTOR_SIZE == i && (SECTOR_SIZE * i + k) % SECTOR_SIZE == k;
    }
  }

  /** Writing one sector of a file replaces exactly that stretch of its bytes. */
  lemma RawAfterWrite(d: Image, h: Header, i: nat, s: Sector)
    requires WellFormed(h) && i < h.numSectors
    ensures Raw(d[DataSectors(h)[i] := s], h) == Splice(Raw(d, h), SECTOR_SIZE * i, s)
  {
    var d' := d[DataSectors(h)[i] := s];
    forall k | 0 <= k < SECTOR_SIZE * h.numSectors
      ensures Raw(d', h)[k] == Splice(Raw(d, h), SECTOR_SIZE * i, s)[k]
    {
      if k / SECTOR_SIZE == i {
        assert SECTOR_SIZE * i <= k < SECTOR_SIZE * i + SECTOR_SIZE && k - SECTOR_SIZE * i == k % SECTOR_SIZE;
      } else {
        assert !(SECTOR_SIZE * i <= k < SECTOR_SIZE * i + SECTOR_SIZE);
      }
    }
  }

  /** A file depends on nothing but its own sectors. */
  lemma ContentsFrame(d: Image, d': Image, h: Header)
    requires WellFormed(h)
    requires forall i | 0 <= i < h.numSectors :: d'[DataSectors(h)[i]] == d[DataSectors(h)[i]]
    ensures Raw(d', h) == Raw(d, h) && Contents(d', h) == Contents(d, h)
  {
  }

  // ---------------------------------------------------------------------------
  // The sector image of a header

  function HeaderWords(h: Header): (us: seq<UInt32>)
    requires |h.dataSectors| == NUM_DIRECT
    ensures |us| == 128
  {
    [Unsigned(h.numBytes), Unsigned(h.numSectors)]
    + seq(NUM_DIRECT, i requires 0 <= i < NUM_DIRECT => Unsigned(h.dataSectors[i]))
  }

  function EncodeHeader(h: Header): Sector
    requires |h.dataSectors| == NUM_DIRECT
  {
    ToBytes(HeaderWords(h))
  }

  function HeaderOfWords(us: seq<UInt32>): (h: Header)
    requires |us| == 128
    ensures |h.dataSectors| == NUM_DIRECT
  {
    Header(Signed(us[0]), Signed(us[1]),
           seq(NUM_DIRECT, i requires 0 <= i < NUM_DIRECT => Signed(us[i + 2])))
  }

  function DecodeHeader(s: Sector): (h: Header)
    ensures |h.dataSectors| == NUM_DIRECT
  {
    HeaderOfWords(FromBytes(s))
  }

  /** Where the fields of a header are in its sector: four bytes each, little end first. */
  lemma HeaderLayout(h: Header, i: nat)
    requires |h.dataSectors| == NUM_DIRECT && i < NUM_DIRECT
    ensures var s := EncodeHeader(h);
            && s[0..4] == Image4(Unsigned(h.numBytes)) && s[4..8] == Image4(Unsigned(h.numSectors))
            && s[8 + 4 * i..12 + 4 * i] == Image4(Unsigned(h.dataSectors[i]))
  {
    hide Image4;
    WordImage(HeaderWords(h), 0);
    WordImage(HeaderWords(h), 1);
    WordImage(HeaderWords(h), i + 2);
  }

  /** A header read back from the sector it was written to is the same header. */
  lemma HeaderRoundTrip(h: Header)
    requires |h.dataSectors| == NUM_DIRECT
    ensures DecodeHeader(EncodeHeader(h)) == h
  {
    BytesRoundTrip(HeaderWords(h));
    HeaderOfHeaderWords(h);
  }

  lemma HeaderOfHeaderWords(h: Header)
    requires |h.dataSectors| == NUM_DIRECT
    ensures HeaderOfWords(HeaderWords(h)) == h
  {
    var us := HeaderWords(h);
    var g := HeaderOfWords(us);
    forall i | 0 <= i < NUM_DIRECT
      ensures g.dataSectors[i] == h.dataSectors[i]
    {
      assert us[i + 2] == Unsigned(h.dataSectors[i]);
      SignedUnsigned(h.dataSectors[i]);
    }
    SignedUnsigned(h.numBytes);
    SignedUnsigned(h.numSectors);
  }

  // ---------------------------------------------------------------------------
  // The disk

  class SynchDisk {
    var sectors: Image

    constructor (initial: Image)
      ensures sectors == initial
    {
      sectors := initial;
    }

    method ReadSector(sectorNumber: nat, into: array<Byte>, at: nat)
      requires sectorNumber < NUM_SECTORS && at + SECTOR_SIZE <= into.Length
      modifies into
      ensures into[..] == Splice(old(into[..]), at, sectors[sectorNumber])
    {
      forall k | 0 <= k < SECTOR_SIZE {
        into[at + k] := sectors[sectorNumber][k];
      }
    }

    method WriteSector(sectorNumber: nat, from: array<Byte>, at: nat)
      requires sectorNumber < NUM_SECTORS && at + SECTOR_SIZE <= from.Length
      modifies this
      ensures sectors == old(sectors)[sectorNumber := from[at..at + SECTOR_SIZE]]
    {
      sectors := sectors[sectorNumber := from[at..at + SECTOR_SIZE]];
    }
  }

  // ---------------------------------------------------------------------------
  // File headers in memory

  /** `bits'` is `bits` with exactly the sectors `ds`, all clear before, marked. */
  ghost predicate Taken(bits: seq<bool>, bits': seq<bool>, ds: seq<int>) {
    && |bits'| == |bits|
    && Distinct(ds)
    && (forall i | 0 <= i < |ds| :: 0 <= ds[i] < |bits| && !bits[ds[i]])
    && (forall s | 0 <= s < |bits| :: bits'[s] == (bits[s] || s in ds))
    && CountClear(bits') == CountClear(bits) - |ds|
  }

  lemma TakenOne(bits: seq<bool>, bits': seq<bool>, ds: seq<int>, s: nat)
    requires Taken(bits, bits', ds)
    requires s < |bits| && !bits'[s]
    ensures Taken(bits, bits'[s := true], ds + [s])
  {
    CountAfterMark(bits', s);
  }

  class FileHeader {
    var numBytes: Int32
    var numSectors: Int32
    var dataSectors: seq<Int32>

    ghost function View(): Header
      reads this
    {
      Header(numBytes, numSectors, dataSectors)
    }

    /** A new header holds whatever memory held. */
    constructor ()
      ensures |dataSectors| == NUM_DIRECT
    {
      var memory := new Int32[NUM_DIRECT];
      dataSectors := memory[..];
    }

    /** Succeeds exactly when enough sectors are clear, and then marks as many as the size needs. */
    method Allocate(freeMap: BitMap, fileSize: nat) returns (ok: bool)
      requires freeMap.Valid() && freeMap.numBits == NUM_SECTORS
      requires fileSize <= MAX_FILE_SIZE
      requires |dataSectors| == NUM_DIRECT
      modifies this, freeMap.words
      ensures |dataSectors| == NUM_DIRECT
      ensures ok <==> CountClear(old(freeMap.Bits())) >= DivRoundUp(fileSize, SECTOR_SIZE)
      ensures !ok ==> freeMap.Bits() == old(freeMap.Bits())
      ensures ok ==> WellFormed(View()) && numBytes == fileSize
      ensures ok ==> Taken(old(freeMap.Bits()), freeMap.Bits(), DataSectors(View()))
    {
      numBytes := fileSize;
      numSectors := DivRoundUp(fileSize, SECTOR_SIZE);
      var clear := freeMap.NumClear();
      if clear < numSectors {
        return false;
      }
      TakeSectors(freeMap);
      return true;
    }

    /** Fills the first `numSectors` places of the table from the free map. */
    method TakeSectors(freeMap: BitMap)
      requires freeMap.Valid() && freeMap.numBits == NUM_SECTORS
      requires |dataSectors| == NUM_DIRECT && 0 <= numSectors <= NUM_DIRECT && numSectors <= CountClear(freeMap.Bits())
      modifies this`dataSectors, freeMap.words
      ensures |dataSectors| == NUM_DIRECT
      ensures Taken(old(freeMap.Bits()), freeMap.Bits(), dataSectors[..numSectors])
    {
      ghost var bits := freeMap.Bits();
      var i := 0;
      while i < numSectors
        invariant 0 <= i <= numSectors && |dataSectors| == NUM_DIRECT
        invariant Taken(bits, freeMap.Bits(), dataSectors[..i])
      {
        ghost var before, ds := freeMap.Bits(), dataSectors[..i];
        var s := freeMap.Find();
        TakenOne(bits, before, ds, s);
        dataSectors := dataSectors[i := s];
        assert dataSectors[..i + 1] == ds + [s];
        i := i + 1;
      }
    }

    /** Clears the file's data sectors; the in-code check that each is still marked never fails. */
    method Deallocate(freeMap: BitMap)
      requires freeMap.Valid() && freeMap.numBits == NUM_SECTORS
      requires WellFormed(View())
      requires forall i | 0 <= i < numSectors :: freeMap.Bits()[dataSectors[i]]
      modifies freeMap.words
      ensures forall s | 0 <= s < NUM_SECTORS ::
                freeMap.Bits()[s] == (old(freeMap.Bits())[s] && s !in DataSectors(View()))
    {
      var i := 0;
      while i < numSectors
        invariant 0 <= i <= numSectors
        invariant forall s | 0 <= s < NUM_SECTORS ::
                    freeMap.Bits()[s] == (old(freeMap.Bits())[s] && s !in DataSectors(View())[..i])
      {
        ghost var ds := DataSectors(View());
        assert ds[i] !in ds[..i];
        var marked := freeMap.Test(dataSectors[i]);
        assert marked;
        freeMap.Clear(dataSectors[i]);
        assert ds[..i + 1] == ds[..i] + [ds[i]];
        i := i + 1;
      }
      assert DataSectors(View())[..numSectors] == DataSectors(View());
    }

    method FetchFrom(disk: SynchDisk, sector: nat)
      requires sector < NUM_SECTORS
      modifies this
      ensures View() == DecodeHeader(disk.sectors[sector])
    {
      var h := DecodeHeader(disk.sectors[sector]);
      numBytes, numSectors, dataSectors := h.numBytes, h.numSectors, h.dataSectors;
    }

    method WriteBack(disk: SynchDisk, sector: nat)
      requires sector < NUM_SECTORS && |dataSectors| == NUM_DIRECT
      modifies disk
      ensures disk.sectors == old(disk.sectors)[sector := EncodeHeader(View())]
    {
      disk.sectors := disk.sectors[sector := EncodeHeader(Header(numBytes, numSectors, dataSectors))];
    }

    function ByteToSector(offset: nat): (s: int)
      requires offset / SECTOR_SIZE < |dataSectors|
      reads this
    {
      dataSectors[offset / SECTOR_SIZE]
    }
  }

  // ---------------------------------------------------------------------------
  // Open files

  /** How many bytes a request for `numBytes` at `position` transfers. */
  function Clip(fileLength: int, numBytes: int, position: nat): (n: nat)
    ensures n > 0 ==> position + n <= fileLength && n <= numBytes
    ensures n == 0 <==> numBytes <= 0 || position >= fileLength
    ensures 0 < n < numBytes ==> position + n == fileLength
  {
    if numBytes <= 0 || position >= fileLength then 0
    else if position + numBytes > fileLength then fileLength - position
    else numBytes
  }

  /** The stretch of a file that a read returns. */
  ghost function Slice(file: seq<Byte>, position: nat, n: nat): (r: seq<Byte>)
    requires n > 0 ==> position + n <= |file|
    ensures |r| == n && forall i | 0 <= i < n :: r[i] == file[position + i]
  {
    if n == 0 then [] else file[position..position + n]
  }

  /** The file after `data` overwrites the bytes from `position` on. */
  ghost function Overwrite(file: seq<Byte>, position: nat, data: seq<Byte>): (r: seq<Byte>)
    requires |data| > 0 ==> position + |data| <= |file|
    ensures |r| == |file|
    ensures forall i | 0 <= i < |file| ::
              r[i] == if position <= i < position + |data| then data[i - position] else file[i]
  {
    if data == [] then file else file[..position] + data + file[position + |data|..]
  }

  /** Reading where one has just written gives the bytes written, and reading elsewhere what was there. */
  lemma OverwriteThenSlice(file: seq<Byte>, position: nat, data: seq<Byte>, other: nat, n: nat)
    requires position + |data| <= |file| && other + n <= |file|
    ensures Slice(Overwrite(file, position, data), position, |data|) == data
    ensures other + n <= position || position + |data| <= other ==>
              Slice(Overwrite(file, position, data), other, n) == Slice(file, other, n)
  {
  }

  /** The buffer holds sectors `first` up to `i` of the file. */
  ghost predicate Loaded(raw: seq<Byte>, buf: seq<Byte>, first: nat, i: nat) {
    && first <= i
    && i * SECTOR_SIZE <= |raw| && (i - first) * SECTOR_SIZE <= |buf|
    && buf[..(i - first) * SECTOR_SIZE] == raw[first * SECTOR_SIZE..i * SECTOR_SIZE]
  }

  lemma LoadedMore(raw: seq<Byte>, buf: seq<Byte>, first: nat, i: nat)
    requires Loaded(raw, buf, first, i)
    requires (i + 1) * SECTOR_SIZE <= |raw| && (i + 1 - first) * SECTOR_SIZE <= |buf|
    ensures Loaded(raw, Splice(buf, (i - first) * SECTOR_SIZE, raw[i * SECTOR_SIZE..(i + 1) * SECTOR_SIZE]), first,
                   i + 1)
  {
    var at := (i - first) * SECTOR_SIZE;
    var lo, mid, hi := first * SECTOR_SIZE, i * SECTOR_SIZE, (i + 1) * SECTOR_SIZE;
    var more := Splice(buf, at, raw[mid..hi]);
    assert more[..at + SECTOR_SIZE] == buf[..at] + raw[mid..hi];
    assert raw[lo..hi] == raw[lo..mid] + raw[mid..hi];
  }

  /** Sectors `first` up to `i` of the file hold the first part of `bytes`; nothing else changed. */
  ghost predicate Written(d: Image, d': Image, h: Header, first: nat, i: nat, bytes: seq<Byte>) {
    && WellFormed(h) && first <= i <= h.numSectors
    && (i - first) * SECTOR_SIZE <= |bytes|
    && Raw(d', h) == Splice(Raw(d, h), first * SECTOR_SIZE, bytes[..(i - first) * SECTOR_SIZE])
    && forall s | 0 <= s < NUM_SECTORS && s !in DataSectors(h) :: d'[s] == d[s]
  }

  lemma WrittenMore(d: Image, d': Image, h: Header, first: nat, i: nat, bytes: seq<Byte>)
    requires Written(d, d', h, first, i, bytes)
    requires i < h.numSectors && (i + 1 - first) * SECTOR_SIZE <= |bytes|
    ensures var at := (i - first) * SECTOR_SIZE;
            Written(d, d'[DataSectors(h)[i] := bytes[at..at + SECTOR_SIZE]], h, first, i + 1, bytes)
  {
    var at := (i - first) * SECTOR_SIZE;
    var now := bytes[at..at + SECTOR_SIZE];
    RawAfterWrite(d', h, i, now);
    SpliceMore(Raw(d, h), first * SECTOR_SIZE, bytes[..at], now);
    assert bytes[..at + SECTOR_SIZE] == bytes[..at] + now;
  }

  lemma SpliceMore(s: seq<Byte>, at: nat, a: seq<Byte>, b: seq<Byte>)
    requires at + |a| + |b| <= |s|
    ensures Splice(Splice(s, at, a), at + |a|, b) == Splice(s, at, a + b)
  {
  }

  /** Every byte of the file that lies in the buffer but outside the request is in its place. */
  ghost predicate Spared(buf: seq<Byte>, file: seq<Byte>, first: nat, position: nat, n: nat) {
    forall k | 0 <= k < |buf| ::
      var at := first * SECTOR_SIZE + k;
      at < |file| && !(position <= at < position + n) ==> buf[k] == file[at]
  }

  /** One sector's worth of the file, as far as it goes, read into the buffer at `at`. */
  ghost function WithSector(buf: seq<Byte>, at: nat, file: seq<Byte>, sector: nat): (r: seq<Byte>)
    requires at + SECTOR_SIZE <= |buf|
    ensures |r| == |buf|
    ensures forall k | 0 <= k < |buf| ::
              r[k] == if at <= k < at + SECTOR_SIZE && sector * SECTOR_SIZE + k - at < |file|
                      then file[sector * SECTOR_SIZE + k - at] else buf[k]
  {
    Splice(buf, at, Slice(file, sector * SECTOR_SIZE, Clip(|file|, SECTOR_SIZE, sector * SECTOR_SIZE)))
  }

  lemma PreparedIsSpared(buf: seq<Byte>, file: seq<Byte>, first: nat, last: nat, position: nat, n: nat)
    requires 0 < n && position + n <= |file|
    requires first == position / SECTOR_SIZE && last == (position + n - 1) / SECTOR_SIZE
    requires |buf| == (1 + last - first) * SECTOR_SIZE
    ensures var firstAligned := position == first * SECTOR_SIZE;
            var lastAligned := position + n == (last + 1) * SECTOR_SIZE;
            var buf1 := if !firstAligned then WithSector(buf, 0, file, first) else buf;
            var buf2 := if !lastAligned && (first != last || firstAligned)
                        then WithSector(buf1, (last - first) * SECTOR_SIZE, file, last) else buf1;
            Spared(buf2, file, first, position, n)
  {
    hide WithSector;
    var firstAligned := position == first * SECTOR_SIZE;
    var lastAligned := position + n == (last + 1) * SECTOR_SIZE;
    var buf1 := if !firstAligned then WithSector(buf, 0, file, first) else buf;
    var at := (last - first) * SECTOR_SIZE;
    var again := !lastAligned && (first != last || firstAligned);
    var buf2 := if again then WithSector(buf1, at, file, last) else buf1;
    forall k | 0 <= k < |buf|
      ensures Outside(file, first, position, n, k) ==> buf2[k] == file[first * SECTOR_SIZE + k]
    {
      if Outside(file, first, position, n, k) {
        WhichSector(file, first, last, position, n, k);
      }
    }
  }

  /** Byte `k` of the buffer is a byte of the file that the request leaves alone. */
  ghost predicate Outside(file: seq<Byte>, first: nat, position: nat, n: nat, k: nat) {
    var at := first * SECTOR_SIZE + k;
    at < |file| && !(position <= at < position + n)
  }

  /** Such a byte lies in the first sector before the request, or in the last sector after it. */
  lemma WhichSector(file: seq<Byte>, first: nat, last: nat, position: nat, n: nat, k: nat)
    requires 0 < n && first == position / SECTOR_SIZE && last == (position + n - 1) / SECTOR_SIZE
    requires k < (1 + last - first) * SECTOR_SIZE && Outside(file, first, position, n, k)
    ensures var at := (last - first) * SECTOR_SIZE;
            || (position != first * SECTOR_SIZE && k < SECTOR_SIZE && (first < last ==> k < at))
            || (position + n != (last + 1) * SECTOR_SIZE && k >= at
                && last * SECTOR_SIZE + (k - at) == first * SECTOR_SIZE + k
                && (first == last ==> k < SECTOR_SIZE))
  {
  }

  /** bcopy between two buffers. */
  method CopyBytes(from: array<Byte>, start: nat, into: array<Byte>, at: nat, n: nat)
    requires from != into && start + n <= from.Length && at + n <= into.Length
    modifies into
    ensures into[..] == Splice(old(into[..]), at, from[start..start + n])
  {
    forall k | 0 <= k < n {
      into[at + k] := from[start + k];
    }
  }

  class OpenFile {
    const disk: SynchDisk
    const hdr: FileHeader
    var seekPosition: int

    constructor (disk: SynchDisk, sector: nat)
      requires sector < NUM_SECTORS
      ensures fresh(hdr) && this.disk == disk
      ensures hdr.View() == DecodeHeader(disk.sectors[sector]) && seekPosition == 0
    {
      this.disk := disk;
      hdr := new FileHeader();
      seekPosition := 0;
      new;
      hdr.FetchFrom(disk, sector);
    }

    /** Reads the stretch of the file that the clipped request covers, and nothing else. */
    method ReadAt(into: array<Byte>, at: nat, numBytes: int, position: nat) returns (n: nat)
      requires WellFormed(hdr.View())
      requires numBytes > 0 ==> at + numBytes <= into.Length
      requires numBytes <= 0 ==> at <= into.Length
      modifies into
      ensures n == Clip(hdr.numBytes, numBytes, position)
      ensures at + n <= into.Length
      ensures into[..] == Splice(old(into[..]), at, Slice(Contents(disk.sectors, hdr.View()), position, n))
    {
      n := Clip(hdr.numBytes, numBytes, position);
      if n == 0 {
        return;
      }
      var firstSector := position / SECTOR_SIZE;
      var lastSector := (position + n - 1) / SECTOR_SIZE;
      var buf := new Byte[(1 + lastSector - firstSector) * SECTOR_SIZE];
      ReadSectors(buf, firstSector, lastSector);
      ghost var raw := Raw(disk.sectors, hdr.View());
      var skip := position - firstSector * SECTOR_SIZE;
      SliceOfRaw(raw, buf[..], hdr.numBytes, position, n, firstSector, lastSector);
      CopyBytes(buf, skip, into, at, n);
    }

    /** Fills a buffer with the sectors `firstSector` to `lastSector` of the file. */
    method ReadSectors(buf: array<Byte>, firstSector: nat, lastSector: nat)
      requires WellFormed(hdr.View()) && firstSector <= lastSector < hdr.numSectors
      requires buf.Length == (1 + lastSector - firstSector) * SECTOR_SIZE
      modifies buf
      ensures buf[..] == Raw(disk.sectors, hdr.View())[firstSector * SECTOR_SIZE..(lastSector + 1) * SECTOR_SIZE]
    {
      hide Raw, Distinct;
      ghost var raw := Raw(disk.sectors, hdr.View());
      var i := firstSector;
      while i <= lastSector
        invariant firstSector <= i <= lastSector + 1
        invariant Loaded(raw, buf[..], firstSector, i)
      {
        RawSector(disk.sectors, hdr.View(), i);
        LoadedMore(raw, buf[..], firstSector, i);
        disk.ReadSector(hdr.ByteToSector(i * SECTOR_SIZE), buf, (i - firstSector) * SECTOR_SIZE);
        i := i + 1;
      }
      assert buf[..(i - firstSector) * SECTOR_SIZE] == buf[..];
    }

    /** Overwrites the stretch of the file that the clipped request covers, whatever its alignment,
        and touches no sector of any other file. */
    method WriteAt(from: array<Byte>, numBytes: int, position: nat) returns (n: nat)
      requires WellFormed(hdr.View())
      requires numBytes <= from.Length
      modifies disk
      ensures n == Clip(hdr.numBytes, numBytes, position)
      ensures Contents(disk.sectors, hdr.View()) ==
              Overwrite(Contents(old(disk.sectors), hdr.View()), position, from[..n])
      ensures forall s | 0 <= s < NUM_SECTORS && s !in DataSectors(hdr.View()) ::
                disk.sectors[s] == old(disk.sectors)[s]
      ensures n == 0 ==> disk.sectors == old(disk.sectors)
    {
      hide Raw, Spared, Distinct;
      n := Clip(hdr.numBytes, numBytes, position);
      if n == 0 {
        return;
      }
      var firstSector := position / SECTOR_SIZE;
      var lastSector := (position + n - 1) / SECTOR_SIZE;
      var buf := new Byte[(1 + lastSector - firstSector) * SECTOR_SIZE];
      Prepare(buf, firstSector, lastSector, position, n);
      ghost var raw := Raw(disk.sectors, hdr.View());
      ghost var ready := buf[..];
      var skip := position - firstSector * SECTOR_SIZE;
      CopyBytes(from, 0, buf, skip, n);
      Patched(raw, ready, from[..n], hdr.numBytes, position, firstSector, lastSector);
      WriteSectors(buf, firstSector, lastSector);
    }

    /** Brings the old bytes into the buffer wherever the request leaves part of the first
        or the last sector alone. */
    method Prepare(buf: array<Byte>, firstSector: nat, lastSector: nat, position: nat, n: nat)
      requires WellFormed(hdr.View()) && 0 < n && position + n <= hdr.numBytes
      requires firstSector == position / SECTOR_SIZE && lastSector == (position + n - 1) / SECTOR_SIZE
      requires buf.Length == (1 + lastSector - firstSector) * SECTOR_SIZE
      modifies buf
      ensures Spared(buf[..], Contents(disk.sectors, hdr.View()), firstSector, position, n)
    {
      var firstAligned := position == firstSector * SECTOR_SIZE;
      var lastAligned := position + n == (lastSector + 1) * SECTOR_SIZE;
      PreparedIsSpared(buf[..], Contents(disk.sectors, hdr.View()), firstSector, lastSector, position, n);
      if !firstAligned {
        var _ := ReadAt(buf, 0, SECTOR_SIZE, firstSector * SECTOR_SIZE);
      }
      if !lastAligned && (firstSector != lastSector || firstAligned) {
        var _ := ReadAt(buf, (lastSector - firstSector) * SECTOR_SIZE, SECTOR_SIZE, lastSector * SECTOR_SIZE);
      }
    }

    /** Writes a buffer back over the sectors `firstSector` to `lastSector` of the file. */
    method WriteSectors(buf: array<Byte>, firstSector: nat, lastSector: nat)
      requires WellFormed(hdr.View()) && firstSector <= lastSector < hdr.numSectors
      requires buf.Length == (1 + lastSector - firstSector) * SECTOR_SIZE
      modifies disk
      ensures Raw(disk.sectors, hdr.View()) ==
              Splice(Raw(old(disk.sectors), hdr.View()), firstSector * SECTOR_SIZE, buf[..])
      ensures forall s | 0 <= s < NUM_SECTORS && s !in DataSectors(hdr.View()) ::
                disk.sectors[s] == old(disk.sectors)[s]
    {
      hide Raw, Distinct;
      ghost var h, old_d, bytes := hdr.View(), disk.sectors, buf[..];
      var i := firstSector;
      while i <= lastSector
        invariant firstSector <= i <= lastSector + 1
        invariant Written(old_d, disk.sectors, h, firstSector, i, bytes)
      {
        WrittenMore(old_d, disk.sectors, h, firstSector, i, bytes);
        disk.WriteSector(hdr.ByteToSector(i * SECTOR_SIZE), buf, (i - firstSector) * SECTOR_SIZE);
        i := i + 1;
      }
      assert bytes[..(i - firstSector) * SECTOR_SIZE] == bytes;
    }

    method Seek(position: int)
      modifies this
      ensures seekPosition == position
    {
      seekPosition := position;
    }

    /** Reads from the current position and moves it past what was read. */
    method Read(into: array<Byte>, numBytes: int) returns (n: nat)
      requires WellFormed(hdr.View()) && seekPosition >= 0 && numBytes <= into.Length
      modifies into, this
      ensures n == Clip(hdr.numBytes, numBytes, old(seekPosition)) <= into.Length
      ensures into[..] == Splice(old(into[..]), 0, Slice(Contents(disk.sectors, hdr.View()), old(seekPosition), n))
      ensures seekPosition == old(seekPosition) + n
    {
      n := ReadAt(into, 0, numBytes, seekPosition);
      seekPosition := seekPosition + n;
    }

    /** Writes at the current position and moves it past what was written. */
    method Write(from: array<Byte>, numBytes: int) returns (n: nat)
      requires WellFormed(hdr.View()) && seekPosition >= 0 && numBytes <= from.Length
      modifies disk, this
      ensures n == Clip(hdr.numBytes, numBytes, old(seekPosition))
      ensures Contents(disk.sectors, hdr.View()) ==
              Overwrite(Contents(old(disk.sectors), hdr.View()), old(seekPosition), from[..n])
      ensures forall s | 0 <= s < NUM_SECTORS && s !in DataSectors(hdr.View()) ::
                disk.sectors[s] == old(disk.sectors)[s]
      ensures seekPosition == old(seekPosition) + n
    {
      n := WriteAt(from, numBytes, seekPosition);
      seekPosition := seekPosition + n;
    }
  }

  lemma SliceOfSlice(s: seq<Byte>, from: nat, to: nat, position: nat, n: nat)
    requires from <= position && position + n <= to <= |s|
    ensures s[from..to][position - from..position - from + n] == s[position..position + n]
  {
    var mid := s[from..to];
    var a, b := mid[position - from..position - from + n], s[position..position + n];
    forall j | 0 <= j < n
      ensures a[j] == b[j]
    {
      assert a[j] == mid[position - from + j] == s[position + j];
    }
  }

  lemma SliceOfRaw(raw: seq<Byte>, buf: seq<Byte>, numBytes: nat, position: nat, n: nat, first: nat, last: nat)
    requires 0 < n && position + n <= numBytes <= |raw|
    requires first == position / SECTOR_SIZE && last == (position + n - 1) / SECTOR_SIZE
    requires (last + 1) * SECTOR_SIZE <= |raw|
    requires buf == raw[first * SECTOR_SIZE..(last + 1) * SECTOR_SIZE]
    ensures var skip := position - first * SECTOR_SIZE;
            0 <= skip && skip + n <= |buf| && buf[skip..skip + n] == raw[..numBytes][position..position + n]
  {
    SliceOfSlice(raw, first * SECTOR_SIZE, (last + 1) * SECTOR_SIZE, position, n);
    assert raw[..numBytes][position..position + n] == raw[position..position + n];
  }

  /** The bytes written back make the file the old one with the request's bytes overwritten. */
  lemma Patched(raw: seq<Byte>, ready: seq<Byte>, data: seq<Byte>, numBytes: nat, position: nat, first: nat, last: nat)
    requires 0 < |data| && position + |data| <= numBytes <= |raw|
    requires first == position / SECTOR_SIZE && last == (position + |data| - 1) / SECTOR_SIZE
    requires (last + 1) * SECTOR_SIZE <= |raw| && |ready| == (1 + last - first) * SECTOR_SIZE
    requires Spared(ready, raw[..numBytes], first, position, |data|)
    ensures var skip := position - first * SECTOR_SIZE;
            && 0 <= skip && skip + |data| <= |ready|
            && Splice(raw, first * SECTOR_SIZE, Splice(ready, skip, data))[..numBytes]
               == Overwrite(raw[..numBytes], position, data)
  {
    var skip := position - first * SECTOR_SIZE;
    var lhs := Splice(raw, first * SECTOR_SIZE, Splice(ready, skip, data))[..numBytes];
    var rhs := Overwrite(raw[..numBytes], position, data);
    forall i | 0 <= i < numBytes
      ensures lhs[i] == rhs[i]
    {
      if first * SECTOR_SIZE <= i < (last + 1) * SECTOR_SIZE {
        var k := i - first * SECTOR_SIZE;
        assert first * SECTOR_SIZE + k == i;
      }
    }
  }
}
