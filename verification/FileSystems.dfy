/** The file system of filesys/filesys.cc: formatting, Create and Remove over a bitmap and a
    directory that are themselves files on the disk. */
module FileSystems {
  import opened Words
  import opened BitMaps
  import opened Files
  import opened Directories

  const FREE_MAP_SECTOR := 0
  const DIRECTORY_SECTOR := 1
  const NUM_DIR_ENTRIES := 10
  const FREE_MAP_FILE_SIZE := 128
  const DIRECTORY_FILE_SIZE := 200

  // ---------------------------------------------------------------------------
  // What a disk image says

  /** What the bitmap, the directory and the headers on a disk say.  Entry `i` of `headers` is
      the header of the file in entry `i` of the directory, when that entry is in use. */
  datatype View = View(mapHdr: Header, dirHdr: Header, table: seq<Entry>, headers: seq<Header>, marks: seq<bool>)

  const NO_HEADER := Header(0, 0, [])

  ghost function HeaderAt(d: Image, s: int): Header {
    if 0 <= s < NUM_SECTORS then DecodeHeader(d[s]) else NO_HEADER
  }

  /** The bitmap's and the directory's own headers are in their reserved sectors. */
  ghost predicate HasSystemFiles(d: Image) {
    && WellFormed(HeaderAt(d, FREE_MAP_SECTOR)) && HeaderAt(d, FREE_MAP_SECTOR).numBytes == FREE_MAP_FILE_SIZE
    && WellFormed(HeaderAt(d, DIRECTORY_SECTOR)) && HeaderAt(d, DIRECTORY_SECTOR).numBytes == DIRECTORY_FILE_SIZE
  }

  ghost function Table(d: Image): (t: seq<Entry>)
    requires HasSystemFiles(d)
    ensures |t| == NUM_DIR_ENTRIES
  {
    DecodeTable(Contents(d, HeaderAt(d, DIRECTORY_SECTOR)))
  }

  ghost function Marks(d: Image): (m: seq<bool>)
    requires HasSystemFiles(d)
    ensures |m| == NUM_SECTORS
  {
    BitsOf(BytesToWords(Contents(d, HeaderAt(d, FREE_MAP_SECTOR))), NUM_SECTORS)
  }

  /** The headers of the files listed in `t`. */
  ghost function HeadersOf(d: Image, t: seq<Entry>): (hs: seq<Header>)
    ensures |hs| == |t|
  {
    seq(|t|, i requires 0 <= i < |t| => if t[i].inUse then HeaderAt(d, t[i].sector) else NO_HEADER)
  }

  ghost function ViewOf(d: Image): View
    requires HasSystemFiles(d)
  {
    View(HeaderAt(d, FREE_MAP_SECTOR), HeaderAt(d, DIRECTORY_SECTOR), Table(d), HeadersOf(d, Table(d)), Marks(d))
  }

  // ---------------------------------------------------------------------------
  // Ownership

  /** Who may own a sector: the bitmap's and the directory's headers and data, and the header
      and data of the file in each directory entry. */
  datatype Owner = MapHeader | DirHeader | MapData(k: nat) | DirData(k: nat) | HeaderOf(i: nat) | DataOf(i: nat, k: nat)

  ghost predicate Owns(v: View, o: Owner, s: int) {
    match o
    case MapHeader => s == FREE_MAP_SECTOR
    case DirHeader => s == DIRECTORY_SECTOR
    case MapData(k) => k < |v.mapHdr.dataSectors| && k < v.mapHdr.numSectors && s == v.mapHdr.dataSectors[k]
    case DirData(k) => k < |v.dirHdr.dataSectors| && k < v.dirHdr.numSectors && s == v.dirHdr.dataSectors[k]
    case HeaderOf(i) => i < |v.table| && v.table[i].inUse && s == v.table[i].sector
    case DataOf(i, k) =>
      && i < |v.table| && i < |v.headers| && v.table[i].inUse
      && k < |v.headers[i].dataSectors| && k < v.headers[i].numSectors && s == v.headers[i].dataSectors[k]
  }

  ghost predicate Owned(v: View, s: int) {
    exists o :: Owns(v, o, s)
  }

  /** No sector has two owners. */
  ghost predicate OneOwner(v: View) {
    forall o, o', s :: Owns(v, o, s) && Owns(v, o', s) ==> o == o'
  }

  /** The marked sectors are exactly the owned ones. */
  ghost predicate MarkedIffOwned(v: View) {
    && |v.marks| == NUM_SECTORS
    && (forall o, s :: Owns(v, o, s) ==> 0 <= s < NUM_SECTORS)
    && forall s | 0 <= s < NUM_SECTORS :: v.marks[s] <==> Owned(v, s)
  }

  ghost predicate WellShaped(v: View) {
    && |v.table| == |v.headers| == NUM_DIR_ENTRIES
    && WellFormed(v.mapHdr) && v.mapHdr.numBytes == FREE_MAP_FILE_SIZE
    && WellFormed(v.dirHdr) && v.dirHdr.numBytes == DIRECTORY_FILE_SIZE
    && forall i | 0 <= i < NUM_DIR_ENTRIES ::
         if v.table[i].inUse then WellFormed(v.headers[i]) else v.headers[i] == NO_HEADER
  }

  /** The invariant of the file system. */
  ghost predicate Consistent(v: View) {
    && WellShaped(v)
    && KeysDistinct(v.table)
    && OneOwner(v)
    && MarkedIffOwned(v)
  }

  /** The names the directory holds, each with its header sector and header. */
  ghost function NameMap(v: View): set<(seq<Byte>, int, Header)> {
    set i | 0 <= i < |v.table| && i < |v.headers| && v.table[i].inUse ::
      (Key(v.table[i].name), v.table[i].sector as int, v.headers[i])
  }

  // ---------------------------------------------------------------------------
  // What Create and Remove do to a view

  ghost predicate CanCreate(v: View, name: seq<Byte>, size: nat) {
    !Listed(v.table, name) && HasRoom(v.table) && CountClear(v.marks) >= 1 + DivRoundUp(size, SECTOR_SIZE)
  }

  /** Directory entry `i` and as many clear sectors as header and data need went to the new file. */
  ghost predicate CreatedAt(v: View, v': View, i: nat, name: seq<Byte>, size: nat) {
    && v'.mapHdr == v.mapHdr && v'.dirHdr == v.dirHdr
    && i < |v.table| == |v.headers| == |v'.headers| && |v'.table| == |v.table|
    && !Listed(v.table, name)
    && Added(v.table, v'.table, i, name, v'.table[i].sector)
    && v'.headers == v.headers[i := v'.headers[i]]
    && WellFormed(v'.headers[i]) && v'.headers[i].numBytes == size
    && Taken(v.marks, v'.marks, [v'.table[i].sector] + DataSectors(v'.headers[i]))
  }

  ghost predicate Created(v: View, v': View, name: seq<Byte>, size: nat) {
    exists i :: CreatedAt(v, v', i, name, size)
  }

  /** Directory entry `i` and exactly the sectors of its file are free again. */
  ghost predicate RemovedAt(v: View, v': View, i: nat, name: seq<Byte>) {
    && v'.mapHdr == v.mapHdr && v'.dirHdr == v.dirHdr
    && i < |v.table| == |v.headers| && Matches(v.table, i, name)
    && v'.table == v.table[i := v.table[i].(inUse := false)]
    && v'.headers == v.headers[i := NO_HEADER]
    && WellFormed(v.headers[i])
    && |v'.marks| == |v.marks|
    && forall s | 0 <= s < |v.marks| ::
         v'.marks[s] == (v.marks[s] && s != v.table[i].sector && s !in DataSectors(v.headers[i]))
  }

  ghost predicate Removed(v: View, v': View, name: seq<Byte>) {
    exists i :: RemovedAt(v, v', i, name)
  }

  /** A sector owned by the new view is owned as before, or newly taken for entry `i`. */
  lemma OwnsAfterCreate(v: View, v': View, i: nat, name: seq<Byte>, size: nat, o: Owner, s: int)
    requires WellShaped(v) && CreatedAt(v, v', i, name, size)
    ensures Owns(v', o, s) <==>
            || Owns(v, o, s)
            || (o == HeaderOf(i) && s == v'.table[i].sector)
            || (o.DataOf? && o.i == i && o.k < v'.headers[i].numSectors && s == DataSectors(v'.headers[i])[o.k])
  {
  }

  lemma {:induction false} CreateKeepsOwnership(v: View, v': View, i: nat, name: seq<Byte>, size: nat)
    requires Consistent(v) && CreatedAt(v, v', i, name, size)
    ensures OneOwner(v')
  {
    var taken := [v'.table[i].sector] + DataSectors(v'.headers[i]);
    forall o, o', s | Owns(v', o, s) && Owns(v', o', s)
      ensures o == o'
    {
      OwnsAfterCreate(v, v', i, name, size, o, s);
      OwnsAfterCreate(v, v', i, name, size, o', s);
      TakenIndex(v, v', i, name, size, o, s);
      TakenIndex(v, v', i, name, size, o', s);
    }
  }

  /** Where a newly taken sector stands in the list of taken sectors. */
  ghost function Place(o: Owner): nat {
    if o.DataOf? then o.k + 1 else 0
  }

  lemma TakenIndex(v: View, v': View, i: nat, name: seq<Byte>, size: nat, o: Owner, s: int)
    requires Consistent(v) && CreatedAt(v, v', i, name, size)
    requires Owns(v', o, s)
    ensures var taken := [v'.table[i].sector] + DataSectors(v'.headers[i]);
            if Owns(v, o, s) then 0 <= s < NUM_SECTORS && v.marks[s] && s !in taken
            else Place(o) < |taken| && taken[Place(o)] == s
  {
    OwnsAfterCreate(v, v', i, name, size, o, s);
    if Owns(v, o, s) {
      assert Owned(v, s);
    }
  }

  lemma CreateKeepsMarks(v: View, v': View, i: nat, name: seq<Byte>, size: nat)
    requires Consistent(v) && CreatedAt(v, v', i, name, size)
    ensures MarkedIffOwned(v')
  {
    hide KeysDistinct, OneOwner, Listed;
    var taken := [v'.table[i].sector] + DataSectors(v'.headers[i]);
    forall o, s | Owns(v', o, s)
      ensures 0 <= s < NUM_SECTORS
    {
      TakenIndex(v, v', i, name, size, o, s);
    }
    forall s | 0 <= s < NUM_SECTORS
      ensures v'.marks[s] <==> Owned(v', s)
    {
      if v.marks[s] {
        var o :| Owns(v, o, s);
        OwnsAfterCreate(v, v', i, name, size, o, s);
      } else if s in taken {
        var k :| 0 <= k < |taken| && taken[k] == s;
        assert Owns(v', if k == 0 then HeaderOf(i) else DataOf(i, k - 1), s);
      } else if Owned(v', s) {
        var o :| Owns(v', o, s);
        TakenIndex(v, v', i, name, size, o, s);
      }
    }
  }

  /** Create keeps the invariant. */
  lemma CreateKeepsConsistent(v: View, v': View, name: seq<Byte>, size: nat)
    requires Consistent(v) && Created(v, v', name, size)
    ensures Consistent(v')
  {
    var i :| CreatedAt(v, v', i, name, size);
    CreateKeepsOwnership(v, v', i, name, size);
    CreateKeepsMarks(v, v', i, name, size);
    forall a, b | 0 <= a < b < |v'.table| && v'.table[a].inUse && v'.table[b].inUse
      ensures Key(v'.table[a].name) != Key(v'.table[b].name)
    {
      if a == i { assert !Matches(v.table, b, name); }
      if b == i { assert !Matches(v.table, a, name); }
    }
  }

  lemma OwnsAfterRemove(v: View, v': View, i: nat, name: seq<Byte>, o: Owner, s: int)
    requires WellShaped(v) && RemovedAt(v, v', i, name)
    ensures Owns(v', o, s) <==>
            Owns(v, o, s) && o != HeaderOf(i) && !(o.DataOf? && o.i == i)
  {
  }

  /** Remove keeps the invariant. */
  lemma RemoveKeepsConsistent(v: View, v': View, name: seq<Byte>)
    requires Consistent(v) && Removed(v, v', name)
    ensures Consistent(v')
  {
    var i :| RemovedAt(v, v', i, name);
    forall o, o', s | Owns(v', o, s) && Owns(v', o', s)
      ensures o == o'
    {
      OwnsAfterRemove(v, v', i, name, o, s);
      OwnsAfterRemove(v, v', i, name, o', s);
    }
    forall o, s | Owns(v', o, s)
      ensures 0 <= s < NUM_SECTORS
    {
      OwnsAfterRemove(v, v', i, name, o, s);
    }
    forall s | 0 <= s < NUM_SECTORS
      ensures v'.marks[s] <==> Owned(v', s)
    {
      RemoveKeepsMark(v, v', i, name, s);
    }
  }

  lemma RemoveKeepsMark(v: View, v': View, i: nat, name: seq<Byte>, s: nat)
    requires Consistent(v) && RemovedAt(v, v', i, name) && s < NUM_SECTORS
    ensures v'.marks[s] <==> Owned(v', s)
  {
    var ds := DataSectors(v.headers[i]);
    if s == v.table[i].sector {
      assert Owns(v, HeaderOf(i), s);
    } else if s in ds {
      var k :| 0 <= k < |ds| && ds[k] == s;
      assert Owns(v, DataOf(i, k), s);
    } else if v.marks[s] {
      var o :| Owns(v, o, s);
      OwnsAfterRemove(v, v', i, name, o, s);
    }
    if Owned(v', s) {
      var o :| Owns(v', o, s);
      OwnsAfterRemove(v, v', i, name, o, s);
      assert Owned(v, s);
    }
  }

  /** A successful change to the directory. */
  datatype Change = DidCreate(name: seq<Byte>, size: nat) | DidRemove(name: seq<Byte>)

  ghost predicate Changes(v: View, c: Change, v': View) {
    match c
    case DidCreate(name, size) => Created(v, v', name, size)
    case DidRemove(name) => Removed(v, v', name)
  }

  /** Every view reached by any sequence of changes is consistent. */
  lemma {:induction false} RunKeepsConsistent(vs: seq<View>, cs: seq<Change>)
    requires |vs| == |cs| + 1 && Consistent(vs[0])
    requires forall k | 0 <= k < |cs| :: Changes(vs[k], cs[k], vs[k + 1])
    ensures forall k | 0 <= k < |vs| :: Consistent(vs[k])
  {
    if cs != [] {
      var n := |cs| - 1;
      RunKeepsConsistent(vs[..n + 1], cs[..n]);
      assert Consistent(vs[..n + 1][n]);
      assert Changes(vs[n], cs[n], vs[n + 1]);
      match cs[n]
      case DidCreate(name, size) => CreateKeepsConsistent(vs[n], vs[n + 1], name, size);
      case DidRemove(name) => RemoveKeepsConsistent(vs[n], vs[n + 1], name);
      assert forall k | 0 <= k < |cs| :: vs[k] == vs[..n + 1][k];
    }
  }

  /** Create lowers the clear count by one header and as many data sectors as the size needs. */
  lemma CreateCount(v: View, v': View, name: seq<Byte>, size: nat)
    requires Created(v, v', name, size)
    ensures CountClear(v'.marks) == CountClear(v.marks) - (1 + DivRoundUp(size, SECTOR_SIZE))
  {
    var i :| CreatedAt(v, v', i, name, size);
  }

  lemma RemoveFindsCreated(v: View, v1: View, v2: View, i: nat, j: nat, name: seq<Byte>, size: nat)
    requires CreatedAt(v, v1, i, name, size) && RemovedAt(v1, v2, j, name)
    ensures j == i
  {
    if j != i {
      assert v1.table[j] == v.table[j];
      assert Matches(v.table, j, name);
      assert false;
    }
  }

  lemma MarksRestored(v: View, v1: View, v2: View, i: nat, name: seq<Byte>, size: nat)
    requires CreatedAt(v, v1, i, name, size) && RemovedAt(v1, v2, i, name)
    ensures v2.marks == v.marks
  {
    var taken := [v1.table[i].sector] + DataSectors(v1.headers[i]);
    forall s | 0 <= s < |v.marks|
      ensures v2.marks[s] == v.marks[s]
    {
      if s in taken {
        var k :| 0 <= k < |taken| && taken[k] == s;
      }
    }
  }

  /** Creating a file and removing it again restores the free map and the names. */
  lemma CreateThenRemove(v: View, v1: View, v2: View, name: seq<Byte>, size: nat)
    requires Consistent(v) && Created(v, v1, name, size) && Removed(v1, v2, name)
    ensures v2.marks == v.marks && v2.headers == v.headers && NameMap(v2) == NameMap(v)
  {
    var i :| CreatedAt(v, v1, i, name, size);
    var j :| RemovedAt(v1, v2, j, name);
    RemoveFindsCreated(v, v1, v2, i, j, name, size);
    MarksRestored(v, v1, v2, i, name, size);
    NameMapUpToUnused(v, v2);
  }

  lemma NameMapUpToUnused(v: View, v': View)
    requires |v.table| == |v'.table| && v.headers == v'.headers
    requires forall k | 0 <= k < |v.table| :: v.table[k] == v'.table[k] || (!v.table[k].inUse && !v'.table[k].inUse)
    ensures NameMap(v) == NameMap(v')
  {
  }

  // ---------------------------------------------------------------------------
  // From sectors written to the view they give

  /** `d'` differs from `d` at most in the bitmap's and the directory's data and in sector `extra`. */
  ghost predicate SameElsewhere(d: Image, d': Image, v: View, extra: int)
    requires WellShaped(v)
  {
    forall s | 0 <= s < NUM_SECTORS && s !in DataSectors(v.mapHdr) && s !in DataSectors(v.dirHdr) && s != extra ::
      d'[s] == d[s]
  }

  /** A sector with any other owner is not part of the bitmap's or the directory's data. */
  lemma NotSystemData(v: View, o: Owner, s: int)
    requires Consistent(v) && Owns(v, o, s) && !o.MapData? && !o.DirData?
    ensures s !in DataSectors(v.mapHdr) && s !in DataSectors(v.dirHdr)
  {
    if s in DataSectors(v.mapHdr) {
      var k :| 0 <= k < v.mapHdr.numSectors && DataSectors(v.mapHdr)[k] == s;
      assert Owns(v, MapData(k), s);
      assert false;
    }
    if s in DataSectors(v.dirHdr) {
      var k :| 0 <= k < v.dirHdr.numSectors && DataSectors(v.dirHdr)[k] == s;
      assert Owns(v, DirData(k), s);
      assert false;
    }
  }

  lemma SectorKept(d: Image, d': Image, v: View, extra: int, o: Owner, s: int)
    requires Consistent(v) && SameElsewhere(d, d', v, extra)
    requires 0 <= extra < NUM_SECTORS ==> !v.marks[extra]
    requires Owns(v, o, s) && !o.MapData? && !o.DirData?
    ensures 0 <= s < NUM_SECTORS && d'[s] == d[s]
  {
    NotSystemData(v, o, s);
    assert Owned(v, s);
  }

  /** The header and the contents of the file in entry `j` are those of `d`. */
  ghost predicate FileKept(d: Image, d': Image, v: View, j: nat)
    requires WellShaped(v) && j < NUM_DIR_ENTRIES && v.table[j].inUse
  {
    HeaderAt(d', v.table[j].sector) == HeaderAt(d, v.table[j].sector)
    && Contents(d', v.headers[j]) == Contents(d, v.headers[j])
  }

  ghost predicate FilesKept(d: Image, d': Image, v: View)
    requires WellShaped(v)
  {
    forall j | 0 <= j < NUM_DIR_ENTRIES && v.table[j].inUse :: FileKept(d, d', v, j)
  }

  lemma KeepFile(d: Image, d': Image, v: View, extra: int, j: nat)
    requires Consistent(v) && SameElsewhere(d, d', v, extra)
    requires 0 <= extra < NUM_SECTORS ==> !v.marks[extra]
    requires j < NUM_DIR_ENTRIES && v.table[j].inUse
    ensures FileKept(d, d', v, j)
  {
    SectorKept(d, d', v, extra, HeaderOf(j), v.table[j].sector);
    var h := v.headers[j];
    forall k | 0 <= k < h.numSectors
      ensures d'[DataSectors(h)[k]] == d[DataSectors(h)[k]]
    {
      SectorKept(d, d', v, extra, DataOf(j, k), DataSectors(h)[k]);
    }
    ContentsFrame(d, d', h);
  }

  /** What is not written stays: the system headers, and header and contents of every listed file. */
  lemma KeepFiles(d: Image, d': Image, v: View, extra: int)
    requires Consistent(v) && SameElsewhere(d, d', v, extra)
    requires 0 <= extra < NUM_SECTORS ==> !v.marks[extra]
    ensures d'[FREE_MAP_SECTOR] == d[FREE_MAP_SECTOR] && d'[DIRECTORY_SECTOR] == d[DIRECTORY_SECTOR]
    ensures FilesKept(d, d', v)
  {
    SectorKept(d, d', v, extra, MapHeader, FREE_MAP_SECTOR);
    SectorKept(d, d', v, extra, DirHeader, DIRECTORY_SECTOR);
    forall j | 0 <= j < NUM_DIR_ENTRIES && v.table[j].inUse
      ensures FileKept(d, d', v, j)
    {
      KeepFile(d, d', v, extra, j);
    }
  }

  /** The table and the bits that a disk shows are those last written to it. */
  lemma ShowsWritten(d: Image, d': Image, t: seq<Entry>, ws: seq<bv32>)
    requires HasSystemFiles(d)
    requires d'[FREE_MAP_SECTOR] == d[FREE_MAP_SECTOR] && d'[DIRECTORY_SECTOR] == d[DIRECTORY_SECTOR]
    requires |t| == NUM_DIR_ENTRIES && |ws| == 32
    requires Contents(d', HeaderAt(d, DIRECTORY_SECTOR)) == EncodeTable(t)
    requires Contents(d', HeaderAt(d, FREE_MAP_SECTOR)) == WordsToBytes(ws)
    ensures HasSystemFiles(d')
    ensures HeaderAt(d', FREE_MAP_SECTOR) == HeaderAt(d, FREE_MAP_SECTOR)
    ensures HeaderAt(d', DIRECTORY_SECTOR) == HeaderAt(d, DIRECTORY_SECTOR)
    ensures Table(d') == t && Marks(d') == BitsOf(ws, NUM_SECTORS)
  {
    TableRoundTrip(t);
    WordsRoundTrip(ws);
  }

  /** The disk now stores the table `t` and the bitmap words `ws`, and no system header moved. */
  ghost predicate Stores(d: Image, d': Image, v: View, t: seq<Entry>, ws: seq<bv32>)
    requires WellShaped(v)
  {
    && |t| == NUM_DIR_ENTRIES && |ws| == 32
    && Contents(d', v.dirHdr) == EncodeTable(t)
    && Contents(d', v.mapHdr) == WordsToBytes(ws)
  }

  /** The view after Create's three writes. */
  lemma ViewAfterCreate(d: Image, d': Image, v: View, t: seq<Entry>, ws: seq<bv32>, i: nat,
                                           h: Header)
    requires HasSystemFiles(d) && v == ViewOf(d) && Consistent(v)
    requires Stores(d, d', v, t, ws)
    requires i < NUM_DIR_ENTRIES && !v.table[i].inUse && t[i].inUse && t == v.table[i := t[i]]
    requires 0 <= t[i].sector < NUM_SECTORS && !v.marks[t[i].sector]
    requires SameElsewhere(d, d', v, t[i].sector)
    requires |h.dataSectors| == NUM_DIRECT
    requires d'[t[i].sector] == EncodeHeader(h)
    ensures HasSystemFiles(d')
    ensures ViewOf(d') == v.(table := t, headers := v.headers[i := h], marks := BitsOf(ws, NUM_SECTORS))
    ensures FilesKept(d, d', v)
  {
    KeepFiles(d, d', v, t[i].sector);
    ShowsWritten(d, d', t, ws);
    HeaderRoundTrip(h);
    HeadersAfterCreate(d, d', v, t, i, h);
  }

  lemma HeadersAfterCreate(d: Image, d': Image, v: View, t: seq<Entry>, i: nat, h: Header)
    requires WellShaped(v) && v.headers == HeadersOf(d, v.table)
    requires FilesKept(d, d', v)
    requires i < NUM_DIR_ENTRIES && !v.table[i].inUse && |t| == NUM_DIR_ENTRIES
    requires t[i].inUse && t == v.table[i := t[i]]
    requires HeaderAt(d', t[i].sector) == h
    ensures HeadersOf(d', t) == v.headers[i := h]
  {
    forall j | 0 <= j < NUM_DIR_ENTRIES
      ensures HeadersOf(d', t)[j] == v.headers[i := h][j]
    {
      if j != i && t[j].inUse { assert FileKept(d, d', v, j); }
    }
  }

  /** The view after Remove's two writes. */
  lemma ViewAfterRemove(d: Image, d': Image, v: View, t: seq<Entry>, ws: seq<bv32>, i: nat)
    requires HasSystemFiles(d) && v == ViewOf(d) && Consistent(v)
    requires Stores(d, d', v, t, ws)
    requires i < NUM_DIR_ENTRIES && t == v.table[i := v.table[i].(inUse := false)]
    requires SameElsewhere(d, d', v, -1)
    ensures HasSystemFiles(d')
    ensures ViewOf(d') == v.(table := t, headers := v.headers[i := NO_HEADER], marks := BitsOf(ws, NUM_SECTORS))
    ensures FilesKept(d, d', v)
  {
    KeepFiles(d, d', v, -1);
    ShowsWritten(d, d', t, ws);
    forall j | 0 <= j < NUM_DIR_ENTRIES
      ensures HeadersOf(d', t)[j] == v.headers[i := NO_HEADER][j]
    {
      if t[j].inUse { assert FileKept(d, d', v, j); }
    }
  }

  /** `d'` differs from `d` at most in the data of the file in entry `i`. */
  ghost predicate SameButFile(d: Image, d': Image, v: View, i: nat)
    requires WellShaped(v)
  {
    && i < NUM_DIR_ENTRIES && v.table[i].inUse
    && forall s | 0 <= s < NUM_SECTORS && s !in DataSectors(v.headers[i]) :: d'[s] == d[s]
  }

  lemma WriteKeepsSystem(d: Image, d': Image, v: View, i: nat)
    requires HasSystemFiles(d) && v == ViewOf(d) && Consistent(v) && SameButFile(d, d', v, i)
    ensures HasSystemFiles(d') && Table(d') == v.table && Marks(d') == v.marks
    ensures HeaderAt(d', FREE_MAP_SECTOR) == v.mapHdr && HeaderAt(d', DIRECTORY_SECTOR) == v.dirHdr
  {
    OtherSectorKept(d, d', v, i, MapHeader, FREE_MAP_SECTOR);
    OtherSectorKept(d, d', v, i, DirHeader, DIRECTORY_SECTOR);
    forall k | 0 <= k < v.mapHdr.numSectors
      ensures d'[DataSectors(v.mapHdr)[k]] == d[DataSectors(v.mapHdr)[k]]
    {
      OtherSectorKept(d, d', v, i, MapData(k), DataSectors(v.mapHdr)[k]);
    }
    ContentsFrame(d, d', v.mapHdr);
    forall k | 0 <= k < v.dirHdr.numSectors
      ensures d'[DataSectors(v.dirHdr)[k]] == d[DataSectors(v.dirHdr)[k]]
    {
      OtherSectorKept(d, d', v, i, DirData(k), DataSectors(v.dirHdr)[k]);
    }
    ContentsFrame(d, d', v.dirHdr);
  }

  lemma WriteKeepsFile(d: Image, d': Image, v: View, i: nat, j: nat)
    requires Consistent(v) && SameButFile(d, d', v, i)
    requires j < NUM_DIR_ENTRIES && v.table[j].inUse
    ensures HeaderAt(d', v.table[j].sector) == HeaderAt(d, v.table[j].sector)
    ensures j != i ==> FileKept(d, d', v, j)
  {
    OtherSectorKept(d, d', v, i, HeaderOf(j), v.table[j].sector);
    if j != i {
      forall k | 0 <= k < v.headers[j].numSectors
        ensures d'[DataSectors(v.headers[j])[k]] == d[DataSectors(v.headers[j])[k]]
      {
        OtherSectorKept(d, d', v, i, DataOf(j, k), DataSectors(v.headers[j])[k]);
      }
      ContentsFrame(d, d', v.headers[j]);
    }
  }

  /** Writing into one file changes neither bitmap, directory nor headers, and no other file. */
  lemma WriteKeepsView(d: Image, d': Image, v: View, i: nat)
    requires HasSystemFiles(d) && v == ViewOf(d) && Consistent(v) && SameButFile(d, d', v, i)
    ensures HasSystemFiles(d') && ViewOf(d') == v
    ensures forall j | 0 <= j < NUM_DIR_ENTRIES && j != i && v.table[j].inUse :: FileKept(d, d', v, j)
  {
    WriteKeepsSystem(d, d', v, i);
    forall j | 0 <= j < NUM_DIR_ENTRIES && v.table[j].inUse
      ensures HeaderAt(d', v.table[j].sector) == HeaderAt(d, v.table[j].sector)
      ensures j != i ==> FileKept(d, d', v, j)
    {
      WriteKeepsFile(d, d', v, i, j);
    }
    assert HeadersOf(d', v.table) == v.headers;
  }

  lemma OtherSectorKept(d: Image, d': Image, v: View, i: nat, o: Owner, s: int)
    requires Consistent(v) && SameButFile(d, d', v, i)
    requires Owns(v, o, s) && !(o.DataOf? && o.i == i)
    ensures 0 <= s < NUM_SECTORS && d'[s] == d[s]
  {
    if s in DataSectors(v.headers[i]) {
      var k :| 0 <= k < v.headers[i].numSectors && DataSectors(v.headers[i])[k] == s;
      assert Owns(v, DataOf(i, k), s);
      assert false;
    }
  }

  // ---------------------------------------------------------------------------
  // Moving the directory and the bitmap between memory and their files

  /** Directory::FetchFrom. */
  method FetchDirectory(directory: Directory, file: OpenFile)
    requires WellFormed(file.hdr.View()) && file.hdr.numBytes == DIRECTORY_FILE_SIZE
    requires directory.table.Length == NUM_DIR_ENTRIES
    modifies directory.table
    ensures directory.table[..] == DecodeTable(Contents(file.disk.sectors, file.hdr.View()))
  {
    var buf := new Byte[DIRECTORY_FILE_SIZE];
    var _ := file.ReadAt(buf, 0, DIRECTORY_FILE_SIZE, 0);
    assert buf[..] == Contents(file.disk.sectors, file.hdr.View());
    var t := DecodeTable(buf[..]);
    forall i | 0 <= i < NUM_DIR_ENTRIES {
      directory.table[i] := t[i];
    }
  }

  /** Directory::WriteBack. */
  method StoreDirectory(directory: Directory, file: OpenFile)
    requires WellFormed(file.hdr.View()) && file.hdr.numBytes == DIRECTORY_FILE_SIZE
    requires directory.table.Length == NUM_DIR_ENTRIES
    modifies file.disk
    ensures Contents(file.disk.sectors, file.hdr.View()) == EncodeTable(directory.table[..])
    ensures forall s | 0 <= s < NUM_SECTORS && s !in DataSectors(file.hdr.View()) ::
              file.disk.sectors[s] == old(file.disk.sectors)[s]
  {
    var bytes := EncodeTable(directory.table[..]);
    StoreBytes(bytes, file);
  }

  /** Writes a whole file. */
  method StoreBytes(bytes: seq<Byte>, file: OpenFile)
    requires WellFormed(file.hdr.View()) && file.hdr.numBytes == |bytes|
    modifies file.disk
    ensures Contents(file.disk.sectors, file.hdr.View()) == bytes
    ensures forall s | 0 <= s < NUM_SECTORS && s !in DataSectors(file.hdr.View()) ::
              file.disk.sectors[s] == old(file.disk.sectors)[s]
  {
    var buf := new Byte[|bytes|](i requires 0 <= i < |bytes| => bytes[i]);
    assert buf[..] == bytes;
    var n := file.WriteAt(buf, |bytes|, 0);
    assert buf[..n] == bytes;
  }

  /** BitMap::FetchFrom. */
  method FetchBitMap(freeMap: BitMap, file: OpenFile)
    requires WellFormed(file.hdr.View()) && file.hdr.numBytes == FREE_MAP_FILE_SIZE
    requires freeMap.Valid() && freeMap.numBits == NUM_SECTORS
    modifies freeMap.words
    ensures freeMap.words[..] == BytesToWords(Contents(file.disk.sectors, file.hdr.View()))
  {
    var buf := new Byte[FREE_MAP_FILE_SIZE];
    var _ := file.ReadAt(buf, 0, FREE_MAP_FILE_SIZE, 0);
    assert buf[..] == Contents(file.disk.sectors, file.hdr.View());
    var ws := BytesToWords(buf[..]);
    forall i | 0 <= i < 32 {
      freeMap.words[i] := ws[i];
    }
  }

  /** BitMap::WriteBack. */
  method StoreBitMap(freeMap: BitMap, file: OpenFile)
    requires WellFormed(file.hdr.View()) && file.hdr.numBytes == FREE_MAP_FILE_SIZE
    requires freeMap.Valid() && freeMap.numBits == NUM_SECTORS
    modifies file.disk
    ensures Contents(file.disk.sectors, file.hdr.View()) == WordsToBytes(freeMap.words[..])
    ensures forall s | 0 <= s < NUM_SECTORS && s !in DataSectors(file.hdr.View()) ::
              file.disk.sectors[s] == old(file.disk.sectors)[s]
  {
    var bytes := WordsToBytes(freeMap.words[..]);
    StoreBytes(bytes, file);
  }

  // ---------------------------------------------------------------------------
  // The file system

  /** The bitmap's and the directory's data do not overlap, nor does any clear sector touch them. */
  lemma SystemDataApart(v: View)
    requires Consistent(v)
    ensures forall k | 0 <= k < v.dirHdr.numSectors :: DataSectors(v.dirHdr)[k] !in DataSectors(v.mapHdr)
    ensures forall k | 0 <= k < v.mapHdr.numSectors :: DataSectors(v.mapHdr)[k] !in DataSectors(v.dirHdr)
    ensures forall s | 0 <= s < NUM_SECTORS && !v.marks[s] ::
              s !in DataSectors(v.mapHdr) && s !in DataSectors(v.dirHdr)
  {
    forall k | 0 <= k < v.dirHdr.numSectors
      ensures DataSectors(v.dirHdr)[k] !in DataSectors(v.mapHdr)
    {
      var s := DataSectors(v.dirHdr)[k];
      assert Owns(v, DirData(k), s);
      if s in DataSectors(v.mapHdr) {
        var m :| 0 <= m < v.mapHdr.numSectors && DataSectors(v.mapHdr)[m] == s;
        assert Owns(v, MapData(m), s);
        assert false;
      }
    }
    forall s | 0 <= s < NUM_SECTORS && !v.marks[s]
      ensures s !in DataSectors(v.mapHdr) && s !in DataSectors(v.dirHdr)
    {
      if s in DataSectors(v.mapHdr) {
        var m :| 0 <= m < v.mapHdr.numSectors && DataSectors(v.mapHdr)[m] == s;
        assert Owns(v, MapData(m), s);
        assert false;
      }
      if s in DataSectors(v.dirHdr) {
        var m :| 0 <= m < v.dirHdr.numSectors && DataSectors(v.dirHdr)[m] == s;
        assert Owns(v, DirData(m), s);
        assert false;
      }
    }
  }

  /** The named file was overwritten with `data`, the clipped request, and every other file kept. */
  ghost predicate Wrote(d: Image, d': Image, v: View, name: seq<Byte>, numBytes: int, position: nat, data: seq<Byte>)
    requires WellShaped(v)
  {
    forall i | 0 <= i < NUM_DIR_ENTRIES && v.table[i].inUse ::
      if Matches(v.table, i, name)
      then |data| == Clip(v.headers[i].numBytes, numBytes, position)
           && Contents(d', v.headers[i]) == Overwrite(Contents(d, v.headers[i]), position, data)
      else Contents(d', v.headers[i]) == Contents(d, v.headers[i])
  }

  lemma WroteNothing(d: Image, v: View, name: seq<Byte>, numBytes: int, position: nat)
    requires WellShaped(v) && !Listed(v.table, name)
    ensures Wrote(d, d, v, name, numBytes, position, [])
  {
  }

  lemma WroteOneFile(d: Image, d': Image, v: View, i: nat, name: seq<Byte>, numBytes: int, position: nat,
                     data: seq<Byte>)
    requires Consistent(v) && i < NUM_DIR_ENTRIES && Matches(v.table, i, name)
    requires |data| == Clip(v.headers[i].numBytes, numBytes, position)
    requires Contents(d', v.headers[i]) == Overwrite(Contents(d, v.headers[i]), position, data)
    requires forall j | 0 <= j < NUM_DIR_ENTRIES && j != i && v.table[j].inUse :: FileKept(d, d', v, j)
    ensures Wrote(d, d', v, name, numBytes, position, data)
  {
    forall j | 0 <= j < NUM_DIR_ENTRIES && Matches(v.table, j, name)
      ensures j == i
    {
      OneEntryPerName(v, name, i, j);
    }
  }

  const STDIN: seq<Byte> := [115, 116, 100, 105, 110]
  const STDOUT: seq<Byte> := [115, 116, 100, 111, 117, 116]

  /** An empty directory and a bitmap marking just the two reserved sectors and the system data. */
  ghost predicate Blank(v: View) {
    && WellShaped(v)
    && (forall i | 0 <= i < NUM_DIR_ENTRIES :: !v.table[i].inUse)
    && |v.marks| == NUM_SECTORS
    && Distinct([FREE_MAP_SECTOR, DIRECTORY_SECTOR] + DataSectors(v.mapHdr) + DataSectors(v.dirHdr))
    && (forall s | 0 <= s < NUM_SECTORS ::
          v.marks[s] <==> s in [FREE_MAP_SECTOR, DIRECTORY_SECTOR] + DataSectors(v.mapHdr) + DataSectors(v.dirHdr))
    && CountClear(v.marks) == NUM_SECTORS - 4
  }

  /** Where a system sector stands in the list of system sectors. */
  ghost function SystemPlace(v: View, o: Owner): int {
    match o
    case MapHeader => 0
    case DirHeader => 1
    case MapData(k) => 2 + k
    case DirData(k) => 2 + v.mapHdr.numSectors + k
    case _ => -1
  }

  lemma BlankPlace(v: View, o: Owner, s: int)
    requires Blank(v) && Owns(v, o, s)
    ensures var all := [FREE_MAP_SECTOR, DIRECTORY_SECTOR] + DataSectors(v.mapHdr) + DataSectors(v.dirHdr);
            0 <= SystemPlace(v, o) < |all| && all[SystemPlace(v, o)] == s && 0 <= s < NUM_SECTORS
  {
  }

  /** A freshly formatted disk is consistent. */
  lemma BlankIsConsistent(v: View)
    requires Blank(v)
    ensures Consistent(v)
  {
    var all := [FREE_MAP_SECTOR, DIRECTORY_SECTOR] + DataSectors(v.mapHdr) + DataSectors(v.dirHdr);
    forall o, o', s | Owns(v, o, s) && Owns(v, o', s)
      ensures o == o'
    {
      BlankPlace(v, o, s);
      BlankPlace(v, o', s);
    }
    forall o, s | Owns(v, o, s)
      ensures 0 <= s < NUM_SECTORS
    {
      BlankPlace(v, o, s);
    }
    forall s | 0 <= s < NUM_SECTORS
      ensures v.marks[s] <==> Owned(v, s)
    {
      if s in all {
        BlankOwner(v, s);
      }
      if Owned(v, s) {
        var o :| Owns(v, o, s);
        BlankPlace(v, o, s);
      }
    }
  }

  lemma BlankOwner(v: View, s: int)
    requires Blank(v)
    requires s in [FREE_MAP_SECTOR, DIRECTORY_SECTOR] + DataSectors(v.mapHdr) + DataSectors(v.dirHdr)
    ensures Owned(v, s)
  {
    if s == FREE_MAP_SECTOR {
      assert Owns(v, MapHeader, s);
    } else if s == DIRECTORY_SECTOR {
      assert Owns(v, DirHeader, s);
    } else if s in DataSectors(v.mapHdr) {
      var k :| 0 <= k < v.mapHdr.numSectors && DataSectors(v.mapHdr)[k] == s;
      assert Owns(v, MapData(k), s);
    } else {
      var k :| 0 <= k < v.dirHdr.numSectors && DataSectors(v.dirHdr)[k] == s;
      assert Owns(v, DirData(k), s);
    }
  }

  lemma NothingListed(v: View, name: seq<Byte>)
    requires Blank(v)
    ensures CanCreate(v, name, 0)
  {
    assert !v.table[0].inUse;
  }

  /** After Create a name is listed exactly when it was before or has the new file's key. */
  lemma CreateLists(v: View, v': View, name: seq<Byte>, other: seq<Byte>)
    requires Created(v, v', name, 0)
    ensures Listed(v'.table, other) <==> Listed(v.table, other) || Key(other) == Key(name)
  {
    var i :| CreatedAt(v, v', i, name, 0);
    if Listed(v.table, other) {
      var j :| 0 <= j < |v.table| && Matches(v.table, j, other);
      assert Matches(v'.table, j, other);
    }
    if Key(other) == Key(name) {
      assert Matches(v'.table, i, other);
    }
    if Listed(v'.table, other) {
      var j :| 0 <= j < |v'.table| && Matches(v'.table, j, other);
      assert j != i ==> Matches(v.table, j, other);
    }
  }

  /** A blank volume with just the two console files, each of size zero. */
  ghost predicate HasConsoleOnly(v: View) {
    exists v0, v1 :: IsConsoleOf(v0, v1, v)
  }

  ghost predicate IsConsoleOf(v0: View, v1: View, v: View) {
    Blank(v0) && Consistent(v1) && Created(v0, v1, STDIN, 0) && Created(v1, v, STDOUT, 0)
  }

  lemma SecondFits(v: View, v': View, first: seq<Byte>, second: seq<Byte>)
    requires Blank(v) && Created(v, v', first, 0)
    requires first == STDIN && second == STDOUT
    ensures CanCreate(v', second, 0)
  {
    var i :| CreatedAt(v, v', i, first, 0);
    CreateLists(v, v', first, second);
    KeyShape(first, 0);
    KeyShape(second, 0);
    assert |Key(first)| == 5 && |Key(second)| == 6;
    var j := if i == 0 then 1 else 0;
    assert !v'.table[j].inUse;
  }

  /** Marks what a new file system needs and writes headers, bitmap and directory. */
  method FormatDisk(disk: SynchDisk) returns (freeMapFile: OpenFile, directoryFile: OpenFile)
    modifies disk
    ensures fresh(freeMapFile) && fresh(directoryFile) && fresh(freeMapFile.hdr) && fresh(directoryFile.hdr)
    ensures freeMapFile.disk == disk && directoryFile.disk == disk
    ensures HasSystemFiles(disk.sectors)
    ensures freeMapFile.hdr.View() == HeaderAt(disk.sectors, FREE_MAP_SECTOR)
    ensures directoryFile.hdr.View() == HeaderAt(disk.sectors, DIRECTORY_SECTOR)
    ensures Blank(ViewOf(disk.sectors)) && Consistent(ViewOf(disk.sectors))
  {
    var freeMap := new BitMap(NUM_SECTORS);
    var directory := new Directory(NUM_DIR_ENTRIES);
    var mapHdr := new FileHeader();
    var dirHdr := new FileHeader();
    ghost var clear := freeMap.Bits();
    AllocateSystem(freeMap, mapHdr, dirHdr);
    CountOfClear(clear);
    ghost var bits := freeMap.Bits();
    ghost var mh, dh := mapHdr.View(), dirHdr.View();
    freeMapFile, directoryFile := OpenSystemFiles(disk, mapHdr, dirHdr);
    ghost var d := disk.sectors;
    FirstFlush(directory, freeMap, freeMapFile, directoryFile);
    FormattedIsBlank(d, disk.sectors, mh, dh, directory.table[..], freeMap.words[..], clear, bits);
    BlankIsConsistent(ViewOf(disk.sectors));
  }

  /** Writes the two system headers into their reserved sectors and opens the files they describe. */
  method OpenSystemFiles(disk: SynchDisk, mapHdr: FileHeader, dirHdr: FileHeader)
    returns (freeMapFile: OpenFile, directoryFile: OpenFile)
    requires |mapHdr.dataSectors| == |dirHdr.dataSectors| == NUM_DIRECT
    modifies disk
    ensures fresh(freeMapFile) && fresh(directoryFile) && fresh(freeMapFile.hdr) && fresh(directoryFile.hdr)
    ensures freeMapFile.disk == disk && directoryFile.disk == disk
    ensures freeMapFile.hdr.View() == HeaderAt(disk.sectors, FREE_MAP_SECTOR) == mapHdr.View()
    ensures directoryFile.hdr.View() == HeaderAt(disk.sectors, DIRECTORY_SECTOR) == dirHdr.View()
  {
    HeaderRoundTrip(mapHdr.View());
    HeaderRoundTrip(dirHdr.View());
    mapHdr.WriteBack(disk, FREE_MAP_SECTOR);
    dirHdr.WriteBack(disk, DIRECTORY_SECTOR);
    freeMapFile := new OpenFile(disk, FREE_MAP_SECTOR);
    directoryFile := new OpenFile(disk, DIRECTORY_SECTOR);
  }

  lemma FormattedIsBlank(d: Image, d': Image, mh: Header, dh: Header, t: seq<Entry>, ws: seq<bv32>,
                         clear: seq<bool>, bits: seq<bool>)
    requires WellFormed(mh) && mh.numBytes == FREE_MAP_FILE_SIZE
    requires WellFormed(dh) && dh.numBytes == DIRECTORY_FILE_SIZE
    requires HeaderAt(d, FREE_MAP_SECTOR) == mh && HeaderAt(d, DIRECTORY_SECTOR) == dh
    requires d'[FREE_MAP_SECTOR] == d[FREE_MAP_SECTOR] && d'[DIRECTORY_SECTOR] == d[DIRECTORY_SECTOR]
    requires |t| == NUM_DIR_ENTRIES && forall i | 0 <= i < |t| :: !t[i].inUse
    requires |ws| == 32 && BitsOf(ws, NUM_SECTORS) == bits
    requires Contents(d', dh) == EncodeTable(t) && Contents(d', mh) == WordsToBytes(ws)
    requires |clear| == NUM_SECTORS && CountClear(clear) == NUM_SECTORS
    requires forall s | 0 <= s < NUM_SECTORS :: !clear[s]
    requires Taken(clear, bits, [FREE_MAP_SECTOR, DIRECTORY_SECTOR] + DataSectors(mh) + DataSectors(dh))
    ensures HasSystemFiles(d') && Blank(ViewOf(d'))
    ensures HeaderAt(d', FREE_MAP_SECTOR) == mh && HeaderAt(d', DIRECTORY_SECTOR) == dh
  {
    ShowsWritten(d, d', t, ws);
    assert forall i | 0 <= i < |t| :: HeadersOf(d', t)[i] == NO_HEADER;
  }

  lemma TakenTwice(a: seq<bool>, b: seq<bool>, c: seq<bool>, x: seq<int>, y: seq<int>)
    requires Taken(a, b, x) && Taken(b, c, y)
    ensures Taken(a, c, x + y)
  {
    forall i, j | 0 <= i < j < |x + y|
      ensures (x + y)[i] != (x + y)[j]
    {
      if i < |x| <= j {
        assert x[i] in x && !b[y[j - |x|]];
      }
    }
    forall s | 0 <= s < |a|
      ensures c[s] == (a[s] || s in x + y)
    {
      assert s in x + y <==> s in x || s in y;
    }
  }

  /** Marks the reserved sectors and allocates the data of the bitmap and of the directory. */
  method AllocateSystem(freeMap: BitMap, mapHdr: FileHeader, dirHdr: FileHeader)
    requires freeMap.Valid() && freeMap.numBits == NUM_SECTORS
    requires forall s | 0 <= s < NUM_SECTORS :: !freeMap.Bits()[s]
    requires mapHdr != dirHdr && |mapHdr.dataSectors| == |dirHdr.dataSectors| == NUM_DIRECT
    modifies freeMap.words, mapHdr, dirHdr
    ensures WellFormed(mapHdr.View()) && mapHdr.numBytes == FREE_MAP_FILE_SIZE
    ensures WellFormed(dirHdr.View()) && dirHdr.numBytes == DIRECTORY_FILE_SIZE
    ensures Taken(old(freeMap.Bits()), freeMap.Bits(),
                  [FREE_MAP_SECTOR, DIRECTORY_SECTOR] + DataSectors(mapHdr.View()) + DataSectors(dirHdr.View()))
  {
    ghost var b0 := freeMap.Bits();
    CountOfClear(b0);
    MarkReserved(freeMap);
    ghost var b2, two := freeMap.Bits(), [FREE_MAP_SECTOR, DIRECTORY_SECTOR];
    var ok := mapHdr.Allocate(freeMap, FREE_MAP_FILE_SIZE);
    assert ok;
    ghost var b3, ms := freeMap.Bits(), DataSectors(mapHdr.View());
    TakenTwice(b0, b2, b3, two, ms);
    ok := dirHdr.Allocate(freeMap, DIRECTORY_FILE_SIZE);
    assert ok;
    TakenTwice(b0, b3, freeMap.Bits(), two + ms, DataSectors(dirHdr.View()));
  }

  method MarkReserved(freeMap: BitMap)
    requires freeMap.Valid() && freeMap.numBits == NUM_SECTORS
    requires forall s | 0 <= s < NUM_SECTORS :: !freeMap.Bits()[s]
    modifies freeMap.words
    ensures Taken(old(freeMap.Bits()), freeMap.Bits(), [FREE_MAP_SECTOR, DIRECTORY_SECTOR])
  {
    ghost var b0 := freeMap.Bits();
    freeMap.Mark(FREE_MAP_SECTOR);
    TakenOne(b0, b0, [], FREE_MAP_SECTOR);
    assert [] + [FREE_MAP_SECTOR] == [FREE_MAP_SECTOR];
    freeMap.Mark(DIRECTORY_SECTOR);
    TakenOne(b0, b0[FREE_MAP_SECTOR := true], [FREE_MAP_SECTOR], DIRECTORY_SECTOR);
    assert [FREE_MAP_SECTOR] + [DIRECTORY_SECTOR] == [FREE_MAP_SECTOR, DIRECTORY_SECTOR];
  }

  /** Writes the first bitmap and the first directory into their new files. */
  method FirstFlush(directory: Directory, freeMap: BitMap, freeMapFile: OpenFile, directoryFile: OpenFile)
    requires freeMapFile.disk == directoryFile.disk
    requires WellFormed(freeMapFile.hdr.View()) && freeMapFile.hdr.numBytes == FREE_MAP_FILE_SIZE
    requires WellFormed(directoryFile.hdr.View()) && directoryFile.hdr.numBytes == DIRECTORY_FILE_SIZE
    requires directory.table.Length == NUM_DIR_ENTRIES
    requires freeMap.Valid() && freeMap.numBits == NUM_SECTORS
    requires Distinct([FREE_MAP_SECTOR, DIRECTORY_SECTOR] + DataSectors(freeMapFile.hdr.View())
                      + DataSectors(directoryFile.hdr.View()))
    modifies freeMapFile.disk
    ensures Contents(freeMapFile.disk.sectors, freeMapFile.hdr.View()) == WordsToBytes(freeMap.words[..])
    ensures Contents(freeMapFile.disk.sectors, directoryFile.hdr.View()) == EncodeTable(directory.table[..])
    ensures freeMapFile.disk.sectors[FREE_MAP_SECTOR] == old(freeMapFile.disk.sectors)[FREE_MAP_SECTOR]
    ensures freeMapFile.disk.sectors[DIRECTORY_SECTOR] == old(freeMapFile.disk.sectors)[DIRECTORY_SECTOR]
  {
    ghost var mh, dh := freeMapFile.hdr.View(), directoryFile.hdr.View();
    SystemSectorsApart(DataSectors(mh), DataSectors(dh));
    StoreBitMap(freeMap, freeMapFile);
    ghost var d := freeMapFile.disk.sectors;
    StoreDirectory(directory, directoryFile);
    ContentsFrame(d, freeMapFile.disk.sectors, mh);
  }

  lemma SystemSectorsApart(ms: seq<int>, ds: seq<int>)
    requires Distinct([FREE_MAP_SECTOR, DIRECTORY_SECTOR] + ms + ds)
    ensures FREE_MAP_SECTOR !in ms && FREE_MAP_SECTOR !in ds && DIRECTORY_SECTOR !in ms && DIRECTORY_SECTOR !in ds
    ensures forall k | 0 <= k < |ms| :: ms[k] !in ds
  {
    var all := [FREE_MAP_SECTOR, DIRECTORY_SECTOR] + ms + ds;
    assert forall k | 0 <= k < |ms| :: all[2 + k] == ms[k];
    assert forall k | 0 <= k < |ds| :: all[2 + |ms| + k] == ds[k];
    assert all[0] == FREE_MAP_SECTOR && all[1] == DIRECTORY_SECTOR;
  }

  class FileSystem {
    const disk: SynchDisk
    const freeMapFile: OpenFile
    const directoryFile: OpenFile

    ghost predicate Open()
      reads disk, freeMapFile, freeMapFile.hdr, directoryFile, directoryFile.hdr
    {
      && freeMapFile.disk == disk && directoryFile.disk == disk
      && HasSystemFiles(disk.sectors)
      && freeMapFile.hdr.View() == HeaderAt(disk.sectors, FREE_MAP_SECTOR)
      && directoryFile.hdr.View() == HeaderAt(disk.sectors, DIRECTORY_SECTOR)
    }

    ghost predicate Valid()
      reads disk, freeMapFile, freeMapFile.hdr, directoryFile, directoryFile.hdr
    {
      Open() && Consistent(ViewOf(disk.sectors))
    }

    /** The formatting constructor, on a disk holding anything at all. */
    constructor Format(disk: SynchDisk)
      modifies disk
      ensures this.disk == disk && fresh(freeMapFile) && fresh(directoryFile)
      ensures fresh(freeMapFile.hdr) && fresh(directoryFile.hdr)
      ensures Valid()
      ensures HasConsoleOnly(ViewOf(disk.sectors))
    {
      this.disk := disk;
      var mapFile, dirFile := FormatDisk(disk);
      freeMapFile, directoryFile := mapFile, dirFile;
      new;
      ghost var v0 := ViewOf(disk.sectors);
      assert v0.table[0].inUse == false;
      NothingListed(v0, STDIN);
      var ok := Create(STDIN, 0);
      assert ok;
      ghost var v1 := ViewOf(disk.sectors);
      SecondFits(v0, v1, STDIN, STDOUT);
      ok := Create(STDOUT, 0);
      assert ok;
      assert IsConsoleOf(v0, v1, ViewOf(disk.sectors));
    }

    /** The constructor for a disk that is already formatted.  It tries to create the two console
        files again, so a disk that has them is left as it is. */
    constructor Mount(disk: SynchDisk)
      requires HasSystemFiles(disk.sectors) && Consistent(ViewOf(disk.sectors))
      modifies disk
      ensures this.disk == disk && fresh(freeMapFile) && fresh(directoryFile)
      ensures fresh(freeMapFile.hdr) && fresh(directoryFile.hdr)
      ensures Valid()
      ensures Listed(ViewOf(old(disk.sectors)).table, STDIN) && Listed(ViewOf(old(disk.sectors)).table, STDOUT)
              ==> disk.sectors == old(disk.sectors)
    {
      this.disk := disk;
      freeMapFile := new OpenFile(disk, FREE_MAP_SECTOR);
      directoryFile := new OpenFile(disk, DIRECTORY_SECTOR);
      new;
      hide Consistent, Created, Listed, FilesKept;
      var _ := Create(STDIN, 0);
      var _ := Create(STDOUT, 0);
    }

    /** Flushes the directory, then the bitmap. */
    method Flush(directory: Directory, freeMap: BitMap, ghost v: View)
      requires freeMapFile.disk == disk && directoryFile.disk == disk
      requires Consistent(v) && freeMapFile.hdr.View() == v.mapHdr && directoryFile.hdr.View() == v.dirHdr
      requires directory.table.Length == NUM_DIR_ENTRIES
      requires freeMap.Valid() && freeMap.numBits == NUM_SECTORS
      modifies disk
      ensures Stores(old(disk.sectors), disk.sectors, v, directory.table[..], freeMap.words[..])
      ensures SameElsewhere(old(disk.sectors), disk.sectors, v, -1)
    {
      SystemDataApart(v);
      StoreDirectory(directory, directoryFile);
      ghost var d := disk.sectors;
      StoreBitMap(freeMap, freeMapFile);
      ContentsFrame(d, disk.sectors, v.dirHdr);
    }

    /** Flushes the bitmap, then the directory. */
    method FlushBitMapFirst(directory: Directory, freeMap: BitMap, ghost v: View)
      requires freeMapFile.disk == disk && directoryFile.disk == disk
      requires Consistent(v) && freeMapFile.hdr.View() == v.mapHdr && directoryFile.hdr.View() == v.dirHdr
      requires directory.table.Length == NUM_DIR_ENTRIES
      requires freeMap.Valid() && freeMap.numBits == NUM_SECTORS
      modifies disk
      ensures Stores(old(disk.sectors), disk.sectors, v, directory.table[..], freeMap.words[..])
      ensures SameElsewhere(old(disk.sectors), disk.sectors, v, -1)
    {
      SystemDataApart(v);
      StoreBitMap(freeMap, freeMapFile);
      ghost var d := disk.sectors;
      StoreDirectory(directory, directoryFile);
      ContentsFrame(d, disk.sectors, v.mapHdr);
    }

    /** A fresh directory object holding what the directory file holds. */
    method LoadDirectory() returns (directory: Directory)
      requires Open()
      ensures fresh(directory) && fresh(directory.table) && directory.table.Length == NUM_DIR_ENTRIES
      ensures directory.table[..] == Table(disk.sectors)
    {
      directory := new Directory(NUM_DIR_ENTRIES);
      FetchDirectory(directory, directoryFile);
    }

    /** A fresh bitmap object holding what the bitmap file holds. */
    method LoadFreeMap() returns (freeMap: BitMap)
      requires Open()
      ensures fresh(freeMap) && fresh(freeMap.words) && freeMap.Valid() && freeMap.numBits == NUM_SECTORS
      ensures freeMap.Bits() == Marks(disk.sectors)
    {
      freeMap := new BitMap(NUM_SECTORS);
      FetchBitMap(freeMap, freeMapFile);
    }

    /** A fresh header object holding what the given sector holds. */
    method LoadHeader(sector: nat) returns (fileHdr: FileHeader)
      requires sector < NUM_SECTORS
      ensures fresh(fileHdr) && fileHdr.View() == HeaderAt(disk.sectors, sector)
    {
      fileHdr := new FileHeader();
      fileHdr.FetchFrom(disk, sector);
    }

    /** Succeeds exactly when the name is new, an entry is free and enough sectors are clear;
        failure leaves the disk alone, and no listed file is disturbed either way. */
    method Create(name: seq<Byte>, initialSize: nat) returns (success: bool)
      requires Valid() && initialSize <= MAX_FILE_SIZE
      modifies disk
      ensures Valid()
      ensures success <==> CanCreate(ViewOf(old(disk.sectors)), name, initialSize)
      ensures !success ==> disk.sectors == old(disk.sectors)
      ensures success ==> Created(ViewOf(old(disk.sectors)), ViewOf(disk.sectors), name, initialSize)
      ensures success ==> FilesKept(old(disk.sectors), disk.sectors, ViewOf(old(disk.sectors)))
    {
      ghost var v := ViewOf(disk.sectors);
      var directory := LoadDirectory();
      var found := directory.Find(name);
      ListedSectorOnDisk(v, name, found);
      if found != -1 {
        return false;
      }
      var freeMap := LoadFreeMap();
      var ok, sector, hdr, at := Reserve(directory, freeMap, name, initialSize);
      if !ok {
        return false;
      }
      CommitCreate(directory, freeMap, hdr, sector, name, initialSize, v, at);
      return true;
    }

    /** Create's writes: the header into its sector, then directory and bitmap. */
    method CommitCreate(directory: Directory, freeMap: BitMap, hdr: FileHeader, sector: nat,
                        ghost name: seq<Byte>, ghost initialSize: nat, ghost v: View, ghost at: nat)
      requires Valid() && v == ViewOf(disk.sectors)
      requires directory.table.Length == NUM_DIR_ENTRIES && !Listed(v.table, name)
      requires Added(v.table, directory.table[..], at, name, sector)
      requires freeMap.Valid() && freeMap.numBits == NUM_SECTORS
      requires WellFormed(hdr.View()) && hdr.numBytes == initialSize
      requires Taken(v.marks, freeMap.Bits(), [sector] + DataSectors(hdr.View()))
      requires hdr != freeMapFile.hdr && hdr != directoryFile.hdr
      modifies disk
      ensures Valid()
      ensures Created(v, ViewOf(disk.sectors), name, initialSize)
      ensures FilesKept(old(disk.sectors), disk.sectors, v)
    {
      ghost var d := disk.sectors;
      assert ([sector] + DataSectors(hdr.View()))[0] == sector;
      SystemDataApart(v);
      hdr.WriteBack(disk, sector);
      ghost var d1 := disk.sectors;
      Flush(directory, freeMap, v);
      assert SameElsewhere(d, disk.sectors, v, sector);
      assert disk.sectors[sector] == d1[sector];
      ViewAfterCreate(d, disk.sectors, v, directory.table[..], freeMap.words[..], at, hdr.View());
      assert CreatedAt(v, ViewOf(disk.sectors), at, name, initialSize);
      CreateKeepsConsistent(v, ViewOf(disk.sectors), name, initialSize);
    }

    /** Succeeds exactly when the name is listed; then its entry and exactly its sectors are free. */
    method Remove(name: seq<Byte>) returns (success: bool)
      requires Valid()
      modifies disk
      ensures Valid()
      ensures success <==> Listed(ViewOf(old(disk.sectors)).table, name)
      ensures !success ==> disk.sectors == old(disk.sectors)
      ensures success ==> Removed(ViewOf(old(disk.sectors)), ViewOf(disk.sectors), name)
      ensures success ==> FilesKept(old(disk.sectors), disk.sectors, ViewOf(old(disk.sectors)))
    {
      hide Consistent, Removed, FilesKept, Matches;
      ghost var v := ViewOf(disk.sectors);
      var directory := LoadDirectory();
      var sector := directory.Find(name);
      ListedSectorOnDisk(v, name, sector);
      if sector == -1 {
        return false;
      }
      ghost var i :| 0 <= i < NUM_DIR_ENTRIES && Matches(v.table, i, name) && v.table[i].sector == sector;
      RemoveListed(directory, sector, name, v, i);
      return true;
    }

    /** Gives up the entry, the header sector and the data sectors of the listed file. */
    method RemoveListed(directory: Directory, sector: nat, name: seq<Byte>, ghost v: View, ghost i: nat)
      requires Valid() && v == ViewOf(disk.sectors) && directory.table[..] == v.table
      requires i < NUM_DIR_ENTRIES && Matches(v.table, i, name) && v.table[i].sector == sector < NUM_SECTORS
      modifies disk, directory.table
      ensures Valid() && Removed(v, ViewOf(disk.sectors), name) && FilesKept(old(disk.sectors), disk.sectors, v)
    {
      hide OneOwner, MarkedIffOwned, KeysDistinct, Removed, FilesKept;
      var fileHdr := LoadHeader(sector);
      var freeMap := LoadFreeMap();
      Release(directory, freeMap, fileHdr, sector, name, v, i);
      CommitRemove(directory, freeMap, name, v, i);
    }

    /** Remove's writes: bitmap, then directory. */
    method CommitRemove(directory: Directory, freeMap: BitMap, ghost name: seq<Byte>, ghost v: View, ghost i: nat)
      requires Valid() && v == ViewOf(disk.sectors)
      requires directory.table.Length == NUM_DIR_ENTRIES
      requires i < NUM_DIR_ENTRIES && Matches(v.table, i, name)
      requires directory.table[..] == v.table[i := v.table[i].(inUse := false)]
      requires freeMap.Valid() && freeMap.numBits == NUM_SECTORS
      requires forall s | 0 <= s < NUM_SECTORS ::
                 freeMap.Bits()[s] == (v.marks[s] && s != v.table[i].sector && s !in DataSectors(v.headers[i]))
      modifies disk
      ensures Valid()
      ensures Removed(v, ViewOf(disk.sectors), name)
      ensures FilesKept(old(disk.sectors), disk.sectors, v)
    {
      hide OneOwner, MarkedIffOwned, Contents, EncodeTable, WordsToBytes, KeysDistinct;
      ghost var d := disk.sectors;
      FlushBitMapFirst(directory, freeMap, v);
      ViewAfterRemove(d, disk.sectors, v, directory.table[..], freeMap.words[..], i);
      RemovedIsConsistent(v, ViewOf(disk.sectors), i, name);
    }

    /** Opens the file by its header sector, as FileSystem::Open does, and writes into it. */
    method WriteFile(name: seq<Byte>, from: array<Byte>, numBytes: int, position: nat) returns (found: bool, n: nat)
      requires Valid() && numBytes <= from.Length
      modifies disk
      ensures n <= from.Length
      ensures Valid() && ViewOf(disk.sectors) == ViewOf(old(disk.sectors))
      ensures found <==> Listed(ViewOf(old(disk.sectors)).table, name)
      ensures !found ==> disk.sectors == old(disk.sectors)
      ensures Wrote(old(disk.sectors), disk.sectors, ViewOf(old(disk.sectors)), name, numBytes, position, from[..n])
    {
      hide OneOwner, MarkedIffOwned, KeysDistinct, Wrote;
      ghost var d := disk.sectors;
      ghost var v := ViewOf(d);
      var directory := LoadDirectory();
      var sector := directory.Find(name);
      ListedSectorOnDisk(v, name, sector);
      if sector == -1 {
        WroteNothing(d, v, name, numBytes, position);
        return false, 0;
      }
      ghost var i :| 0 <= i < NUM_DIR_ENTRIES && Matches(v.table, i, name) && v.table[i].sector == sector;
      found := true;
      n := WriteListed(sector, name, from, numBytes, position, v, i);
    }

    method WriteListed(sector: nat, ghost name: seq<Byte>, from: array<Byte>, numBytes: int, position: nat,
                       ghost v: View, ghost i: nat)
      returns (n: nat)
      requires Valid() && v == ViewOf(disk.sectors) && numBytes <= from.Length
      requires i < NUM_DIR_ENTRIES && Matches(v.table, i, name) && v.table[i].sector == sector < NUM_SECTORS
      modifies disk
      ensures n <= from.Length && Valid() && ViewOf(disk.sectors) == v
      ensures Wrote(old(disk.sectors), disk.sectors, v, name, numBytes, position, from[..n])
    {
      hide OneOwner, MarkedIffOwned, KeysDistinct, Wrote;
      ghost var d := disk.sectors;
      var file := new OpenFile(disk, sector);
      n := file.WriteAt(from, numBytes, position);
      WriteKeepsView(d, disk.sectors, v, i);
      WroteOneFile(d, disk.sectors, v, i, name, numBytes, position, from[..n]);
    }

    /** Opens the file by its header sector, as FileSystem::Open does, and reads from it. */
    method ReadFile(name: seq<Byte>, numBytes: int, position: nat) returns (found: bool, data: seq<Byte>)
      requires Valid()
      ensures found <==> Listed(ViewOf(disk.sectors).table, name)
      ensures var v := ViewOf(disk.sectors);
              forall i | 0 <= i < NUM_DIR_ENTRIES && Matches(v.table, i, name) ::
                data == Slice(Contents(disk.sectors, v.headers[i]), position,
                              Clip(v.headers[i].numBytes, numBytes, position))
    {
      hide OneOwner, MarkedIffOwned;
      ghost var v := ViewOf(disk.sectors);
      var directory := LoadDirectory();
      var sector := directory.Find(name);
      ListedSectorOnDisk(v, name, sector);
      if sector == -1 {
        return false, [];
      }
      ghost var i :| 0 <= i < NUM_DIR_ENTRIES && Matches(v.table, i, name) && v.table[i].sector == sector;
      data := ReadListed(sector, numBytes, position, v, i);
      forall j | 0 <= j < NUM_DIR_ENTRIES && Matches(v.table, j, name)
        ensures j == i
      {
        OneEntryPerName(v, name, i, j);
      }
      return true, data;
    }

    method ReadListed(sector: nat, numBytes: int, position: nat, ghost v: View, ghost i: nat) returns (data: seq<Byte>)
      requires Valid() && v == ViewOf(disk.sectors)
      requires i < NUM_DIR_ENTRIES && v.table[i].inUse && v.table[i].sector == sector < NUM_SECTORS
      ensures data == Slice(Contents(disk.sectors, v.headers[i]), position,
                            Clip(v.headers[i].numBytes, numBytes, position))
    {
      hide OneOwner, MarkedIffOwned, KeysDistinct;
      var file := new OpenFile(disk, sector);
      assert file.hdr.View() == v.headers[i];
      var into := new Byte[if numBytes > 0 then numBytes else 0];
      var n := file.ReadAt(into, 0, numBytes, position);
      data := into[..n];
    }
  }

  /** Create's claims, all in memory: a header sector, a directory entry, then the data sectors.
      What a failed attempt has claimed is simply dropped. */
  method Reserve(directory: Directory, freeMap: BitMap, name: seq<Byte>, initialSize: nat)
    returns (ok: bool, sector: int, hdr: FileHeader, ghost at: nat)
    requires initialSize <= MAX_FILE_SIZE && !Listed(directory.table[..], name)
    requires freeMap.Valid() && freeMap.numBits == NUM_SECTORS
    requires directory.table as object != freeMap.words as object
    modifies directory.table, freeMap.words
    ensures fresh(hdr)
    ensures ok <==> HasRoom(old(directory.table[..]))
                    && CountClear(old(freeMap.Bits())) >= 1 + DivRoundUp(initialSize, SECTOR_SIZE)
    ensures ok ==> 0 <= sector < NUM_SECTORS && Added(old(directory.table[..]), directory.table[..], at, name, sector)
    ensures ok ==> WellFormed(hdr.View()) && hdr.numBytes == initialSize
    ensures ok ==> Taken(old(freeMap.Bits()), freeMap.Bits(), [sector] + DataSectors(hdr.View()))
  {
    ghost var bits := freeMap.Bits();
    hdr := new FileHeader();
    at := 0;
    sector := freeMap.Find();
    if sector == -1 {
      return false, sector, hdr, 0;
    }
    ghost var marked := freeMap.Bits();
    ok, at := directory.Add(name, sector);
    if !ok {
      return;
    }
    ok := hdr.Allocate(freeMap, initialSize);
    if ok {
      TakenBoth(bits, marked, freeMap.Bits(), sector, DataSectors(hdr.View()));
    }
  }

  /** Remove's changes in memory: data sectors, header sector and directory entry are given up. */
  method Release(directory: Directory, freeMap: BitMap, fileHdr: FileHeader, sector: nat, name: seq<Byte>,
                 ghost v: View, ghost i: nat)
    requires Consistent(v) && directory.table[..] == v.table
    requires freeMap.Valid() && freeMap.numBits == NUM_SECTORS && freeMap.Bits() == v.marks
    requires directory.table as object != freeMap.words as object
    requires i < NUM_DIR_ENTRIES && Matches(v.table, i, name) && v.table[i].sector == sector
    requires fileHdr.View() == v.headers[i]
    modifies directory.table, freeMap.words
    ensures directory.table[..] == v.table[i := v.table[i].(inUse := false)]
    ensures forall s | 0 <= s < NUM_SECTORS ::
              freeMap.Bits()[s] == (v.marks[s] && s != sector && s !in DataSectors(v.headers[i]))
  {
    FileSectorsMarked(v, i);
    fileHdr.Deallocate(freeMap);
    freeMap.Clear(sector);
    var _, at := directory.Remove(name);
    OneEntryPerName(v, name, i, at);
  }

  lemma RemovedIsConsistent(v: View, v': View, i: nat, name: seq<Byte>)
    requires Consistent(v) && RemovedAt(v, v', i, name)
    ensures Removed(v, v', name) && Consistent(v')
  {
    RemoveKeepsConsistent(v, v', name);
  }

  lemma ListedSectorOnDisk(v: View, name: seq<Byte>, found: int)
    requires Consistent(v)
    requires !Listed(v.table, name) ==> found == -1
    requires Listed(v.table, name) ==>
               exists i | 0 <= i < |v.table| :: Matches(v.table, i, name) && found == v.table[i].sector
    ensures found == -1 <==> !Listed(v.table, name)
    ensures found != -1 ==> 0 <= found < NUM_SECTORS
  {
    if Listed(v.table, name) {
      var i :| 0 <= i < |v.table| && Matches(v.table, i, name) && found == v.table[i].sector;
      assert Owns(v, HeaderOf(i), found);
    }
  }

  lemma OneEntryPerName(v: View, name: seq<Byte>, i: nat, j: nat)
    requires Consistent(v) && i < |v.table| && j < |v.table|
    requires Matches(v.table, i, name) && Matches(v.table, j, name)
    ensures i == j
  {
  }

  lemma FileSectorsMarked(v: View, i: nat)
    requires Consistent(v) && i < NUM_DIR_ENTRIES && v.table[i].inUse
    ensures forall k | 0 <= k < v.headers[i].numSectors :: v.marks[DataSectors(v.headers[i])[k]]
    ensures 0 <= v.table[i].sector < NUM_SECTORS
    ensures v.table[i].sector !in DataSectors(v.headers[i])
  {
    var s := v.table[i].sector;
    assert Owns(v, HeaderOf(i), s);
    forall k | 0 <= k < v.headers[i].numSectors
      ensures v.marks[DataSectors(v.headers[i])[k]] && DataSectors(v.headers[i])[k] != s
    {
      assert Owns(v, DataOf(i, k), DataSectors(v.headers[i])[k]);
    }
  }

  lemma TakenBoth(bits: seq<bool>, marked: seq<bool>, bits': seq<bool>, sector: nat, ds: seq<int>)
    requires sector < |bits| && !bits[sector] && marked == bits[sector := true]
    requires Taken(marked, bits', ds)
    ensures Taken(bits, bits', [sector] + ds)
  {
    CountAfterMark(bits, sector);
  }
}
