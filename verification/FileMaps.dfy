/** What the file system is to its users: a map from names to byte sequences and a number of clear
    sectors.  Every run of filesys/filesys.cc is a run of that simple machine. */
module FileMaps {
  import opened Words
  import opened BitMaps
  import opened Files
  import opened Directories
  import opened FileSystems
  import NameTables

  type Name = seq<Byte>
  type Slot = NameTables.Slot<Name, seq<Byte>>

  datatype Volume = Volume(files: map<Name, seq<Byte>>, clear: nat)

  /** One slot per directory entry: the key of the file's name and its contents. */
  ghost function SlotsOf(d: Image, v: View): (t: seq<Slot>)
    requires WellShaped(v)
    ensures |t| == NUM_DIR_ENTRIES
  {
    seq(NUM_DIR_ENTRIES, i requires 0 <= i < NUM_DIR_ENTRIES =>
      if v.table[i].inUse then NameTables.Named(Key(v.table[i].name), Contents(d, v.headers[i])) else NameTables.Empty)
  }

  ghost function VolumeOf(d: Image, v: View): Volume
    requires WellShaped(v)
  {
    Volume(NameTables.MapOf(SlotsOf(d, v)), CountClear(v.marks))
  }

  /** What the file system holds now. */
  ghost function Current(fs: FileSystem): Volume
    requires fs.Valid()
    reads fs.disk, fs.freeMapFile, fs.freeMapFile.hdr, fs.directoryFile, fs.directoryFile.hdr
  {
    VolumeOf(fs.disk.sectors, ViewOf(fs.disk.sectors))
  }

  // ---------------------------------------------------------------------------
  // The simple machine

  datatype Request = Create(name: Name, size: nat) | Remove(name: Name)
                   | Read(name: Name, numBytes: int, position: nat) | Write(name: Name, data: seq<Byte>, position: nat)

  datatype Answer = Success | Failure | Bytes(data: seq<Byte>) | Count(n: nat)

  /** How many sectors a file of the given size occupies, its header included. */
  function Need(size: nat): nat { 1 + DivRoundUp(size, SECTOR_SIZE) }

  /** What each request does to the map and the clear count, and what it answers.  A new file has the
      size asked for and contents that nothing promises. */
  ghost predicate Serves(a: Volume, r: Request, answer: Answer, a': Volume) {
    var key := Key(r.name);
    match r
    case Create(_, size) =>
      if key !in a.files && |a.files| < NUM_DIR_ENTRIES && a.clear >= Need(size)
      then answer == Success && key in a'.files && |a'.files[key]| == size
           && a'.files == a.files[key := a'.files[key]] && a'.clear == a.clear - Need(size)
      else answer == Failure && a' == a
    case Remove(_) =>
      if key in a.files
      then answer == Success && a' == Volume(a.files - {key}, a.clear + Need(|a.files[key]|))
      else answer == Failure && a' == a
    case Read(_, numBytes, position) =>
      && a' == a
      && answer == if key in a.files
                   then Bytes(Slice(a.files[key], position, Clip(|a.files[key]|, numBytes, position))) else Failure
    case Write(_, data, position) =>
      if key in a.files
      then var n := Clip(|a.files[key]|, |data|, position);
           answer == Count(n) && a' == a.(files := a.files[key := Overwrite(a.files[key], position, data[..n])])
      else answer == Failure && a' == a
  }

  /** A run: each request is served in turn. */
  ghost predicate IsRun(trace: seq<Volume>, requests: seq<Request>, answers: seq<Answer>) {
    && |answers| == |requests| && |trace| == |requests| + 1
    && forall k | 0 <= k < |requests| :: Serves(trace[k], requests[k], answers[k], trace[k + 1])
  }

  /** What was written is what is read, as far as the file goes. */
  lemma WriteThenRead(a: Volume, name: Name, data: seq<Byte>, position: nat, n: nat, a1: Volume, answer: Answer,
                      a2: Volume)
    requires Serves(a, Write(name, data, position), Count(n), a1) && Serves(a1, Read(name, n, position), answer, a2)
    ensures n <= |data| && answer == Bytes(data[..n])
  {
    var file := a.files[Key(name)];
    if n > 0 { OverwriteThenSlice(file, position, data[..n], 0, 0); }
  }

  /** A new file can be read, all of it; a removed one cannot. */
  lemma CreateRemoveThenRead(a: Volume, name: Name, size: nat, a1: Volume, answer: Answer)
    ensures Serves(a, Create(name, size), Success, a1) && Serves(a1, Read(name, size, 0), answer, a1) ==>
              answer.Bytes? && |answer.data| == size
    ensures Serves(a, Remove(name), Success, a1) && Serves(a1, Read(name, size, 0), answer, a1) ==> answer == Failure
  {
  }

  /** No request touches a file of another name. */
  lemma OthersUntouched(a: Volume, r: Request, answer: Answer, a': Volume, other: Name)
    requires Serves(a, r, answer, a') && other != Key(r.name)
    ensures other in a.files <==> other in a'.files
    ensures other in a.files ==> a'.files[other] == a.files[other]
  {
  }

  // ---------------------------------------------------------------------------
  // Conservation

  /** The sectors that all files together occupy. */
  ghost function Occupied(files: map<Name, seq<Byte>>): nat
    decreases |files|
  {
    if files == map[] then 0
    else
      var k :| k in files;
      Need(|files[k]|) + Occupied(files - {k})
  }

  lemma {:induction false} OccupiedWithout(files: map<Name, seq<Byte>>, key: Name)
    requires key in files
    ensures Occupied(files) == Need(|files[key]|) + Occupied(files - {key})
    decreases |files|
  {
    var k :| k in files && Occupied(files) == Need(|files[k]|) + Occupied(files - {k});
    if k != key {
      OccupiedWithout(files - {k}, key);
      OccupiedWithout(files - {key}, k);
      assert files - {k} - {key} == files - {key} - {k};
    }
  }

  /** No request creates or loses sectors. */
  lemma ServesConserves(a: Volume, r: Request, answer: Answer, a': Volume)
    requires Serves(a, r, answer, a')
    ensures a'.clear + Occupied(a'.files) == a.clear + Occupied(a.files)
  {
    var key := Key(r.name);
    if key in a.files { OccupiedWithout(a.files, key); }
    if key in a'.files { OccupiedWithout(a'.files, key); }
    if r.Create? && answer == Success {
      assert a'.files - {key} == a.files;
    }
    if r.Write? && key in a.files {
      assert a'.files - {key} == a.files - {key};
    }
  }

  /** Over any run, clear and occupied sectors add up to the same number. */
  lemma {:induction false} RunConserves(trace: seq<Volume>, requests: seq<Request>, answers: seq<Answer>)
    requires IsRun(trace, requests, answers)
    ensures trace[|requests|].clear + Occupied(trace[|requests|].files) == trace[0].clear + Occupied(trace[0].files)
  {
    if requests != [] {
      var n := |requests| - 1;
      RunConserves(trace[..n + 1], requests[..n], answers[..n]);
      ServesConserves(trace[n], requests[n], answers[n], trace[n + 1]);
    }
  }

  // ---------------------------------------------------------------------------
  // The file system refines it

  lemma SlotsDistinct(d: Image, v: View)
    requires Consistent(v)
    ensures NameTables.NamesDistinct(SlotsOf(d, v))
  {
    hide Contents;
  }

  /** The map holds exactly the listed names, each with the contents of its file. */
  lemma Lists(d: Image, v: View, name: Name)
    requires Consistent(v)
    ensures Key(name) in VolumeOf(d, v).files <==> Listed(v.table, name)
    ensures forall i | 0 <= i < NUM_DIR_ENTRIES && Matches(v.table, i, name) ::
              VolumeOf(d, v).files[Key(name)] == Contents(d, v.headers[i])
  {
    hide Contents, OneOwner, MarkedIffOwned;
    SlotsDistinct(d, v);
    var t := SlotsOf(d, v);
    NameTables.MapReadsSlots(t);
    forall i | 0 <= i < NUM_DIR_ENTRIES && Matches(v.table, i, name)
      ensures Key(name) in VolumeOf(d, v).files && VolumeOf(d, v).files[Key(name)] == Contents(d, v.headers[i])
    {
      assert t[i].Named? && t[i].name == Key(name);
    }
    if Key(name) in VolumeOf(d, v).files {
      var i :| 0 <= i < |t| && t[i].Named? && t[i].name == Key(name);
      assert Matches(v.table, i, name);
    }
  }

  lemma RoomMeans(d: Image, v: View)
    requires Consistent(v)
    ensures HasRoom(v.table) <==> |VolumeOf(d, v).files| < NUM_DIR_ENTRIES
  {
    hide Contents, OneOwner, MarkedIffOwned;
    SlotsDistinct(d, v);
    var t := SlotsOf(d, v);
    NameTables.MapCounts(t);
    var bits := NameTables.InUse(t);
    if HasRoom(v.table) {
      var i :| 0 <= i < |v.table| && !v.table[i].inUse;
      CountPositive(bits, i);
    } else {
      CountOfMarked(bits);
    }
  }

  /** A successful Create, seen from outside. */
  lemma CreateServes(d: Image, d': Image, v: View, v': View, name: Name, size: nat)
    requires Consistent(v) && Consistent(v') && CanCreate(v, name, size)
    requires Created(v, v', name, size) && FilesKept(d, d', v)
    ensures Serves(VolumeOf(d, v), Create(name, size), Success, VolumeOf(d', v'))
  {
    Lists(d, v, name);
    RoomMeans(d, v);
    CreateCount(v, v', name, size);
    var i: nat :| CreatedAt(v, v', i, name, size);
    var t := SlotsOf(d, v);
    var file := Contents(d', v'.headers[i]);
    CreatedSlots(d, d', v, v', i, name, size);
    SlotsDistinct(d, v);
    NameTables.MapAfterCreate(t, i, Key(name), file);
  }

  lemma CreatedSlots(d: Image, d': Image, v: View, v': View, i: nat, name: Name, size: nat)
    requires WellShaped(v) && WellShaped(v') && CreatedAt(v, v', i, name, size) && FilesKept(d, d', v)
    ensures SlotsOf(d', v') == SlotsOf(d, v)[i := NameTables.Named(Key(name), Contents(d', v'.headers[i]))]
    ensures SlotsOf(d, v)[i].Empty?
  {
    hide Contents, Taken;
    forall j | 0 <= j < NUM_DIR_ENTRIES && j != i
      ensures SlotsOf(d', v')[j] == SlotsOf(d, v)[j]
    {
      if v.table[j].inUse { assert FileKept(d, d', v, j); }
    }
  }

  lemma FailedCreateServes(d: Image, v: View, name: Name, size: nat)
    requires Consistent(v) && !CanCreate(v, name, size)
    ensures Serves(VolumeOf(d, v), Create(name, size), Failure, VolumeOf(d, v))
  {
    Lists(d, v, name);
    RoomMeans(d, v);
  }

  /** Releasing distinct marked sectors raises the clear count by their number. */
  lemma {:induction false} CountReleased(bits: seq<bool>, bits': seq<bool>, ds: seq<int>)
    requires |bits'| == |bits| && Distinct(ds)
    requires forall i | 0 <= i < |ds| :: 0 <= ds[i] < |bits| && bits[ds[i]]
    requires forall s | 0 <= s < |bits| :: bits'[s] == (bits[s] && s !in ds)
    ensures CountClear(bits') == CountClear(bits) + |ds|
    decreases |ds|
  {
    if ds == [] {
      assert bits' == bits;
    } else {
      var n := |ds| - 1;
      var s := ds[n];
      assert ds == ds[..n] + [s];
      CountReleased(bits, bits'[s := true], ds[..n]);
      CountAfterMark(bits', s);
    }
  }

  lemma RemoveCount(v: View, v': View, i: nat, name: Name)
    requires Consistent(v) && RemovedAt(v, v', i, name)
    ensures CountClear(v'.marks) == CountClear(v.marks) + Need(v.headers[i].numBytes)
  {
    FileSectorsMarked(v, i);
    var s, ds := v.table[i].sector, DataSectors(v.headers[i]);
    assert v.marks[s] by { assert Owns(v, HeaderOf(i), s); }
    CountReleased(v.marks, v'.marks, [s] + ds);
  }

  /** A successful Remove, seen from outside. */
  lemma RemoveServes(d: Image, d': Image, v: View, v': View, name: Name)
    requires Consistent(v) && Consistent(v') && Removed(v, v', name) && FilesKept(d, d', v)
    ensures Serves(VolumeOf(d, v), Remove(name), Success, VolumeOf(d', v'))
  {
    Lists(d, v, name);
    var i :| RemovedAt(v, v', i, name);
    RemoveCount(v, v', i, name);
    RemovedSlots(d, d', v, v', i, name);
    SlotsDistinct(d, v);
    NameTables.MapAfterRemove(SlotsOf(d, v), i);
  }

  lemma RemovedSlots(d: Image, d': Image, v: View, v': View, i: nat, name: Name)
    requires WellShaped(v) && WellShaped(v') && RemovedAt(v, v', i, name) && FilesKept(d, d', v)
    ensures SlotsOf(d', v') == SlotsOf(d, v)[i := NameTables.Empty]
    ensures SlotsOf(d, v)[i] == NameTables.Named(Key(name), Contents(d, v.headers[i]))
  {
    hide Contents;
    forall j | 0 <= j < NUM_DIR_ENTRIES && j != i
      ensures SlotsOf(d', v')[j] == SlotsOf(d, v)[j]
    {
      if v.table[j].inUse { assert FileKept(d, d', v, j); }
    }
  }

  /** A write to a listed file, seen from outside. */
  lemma WriteServes(d: Image, d': Image, v: View, name: Name, data: seq<Byte>, position: nat, n: nat)
    requires Consistent(v) && Listed(v.table, name) && n <= |data|
    requires Wrote(d, d', v, name, |data|, position, data[..n])
    ensures Serves(VolumeOf(d, v), Write(name, data, position), Count(n), VolumeOf(d', v))
  {
    Lists(d, v, name);
    var i :| 0 <= i < |v.table| && Matches(v.table, i, name);
    WrittenSlots(d, d', v, i, name, |data|, position, data[..n]);
    SlotsDistinct(d, v);
    NameTables.MapAfterUpdate(SlotsOf(d, v), i, Contents(d', v.headers[i]));
  }

  lemma WrittenSlots(d: Image, d': Image, v: View, i: nat, name: Name, numBytes: int, position: nat, data: seq<Byte>)
    requires Consistent(v) && i < NUM_DIR_ENTRIES && Matches(v.table, i, name)
    requires Wrote(d, d', v, name, numBytes, position, data)
    ensures SlotsOf(d, v)[i] == NameTables.Named(Key(name), Contents(d, v.headers[i]))
    ensures SlotsOf(d', v) == SlotsOf(d, v)[i := NameTables.Named(Key(name), Contents(d', v.headers[i]))]
  {
    hide Contents, Overwrite, OneOwner, MarkedIffOwned;
    forall j | 0 <= j < NUM_DIR_ENTRIES && j != i
      ensures SlotsOf(d', v)[j] == SlotsOf(d, v)[j]
    {
      if v.table[j].inUse { assert !Matches(v.table, j, name); }
    }
  }

  /** Serves one request. */
  method Serve(fs: FileSystem, r: Request) returns (answer: Answer)
    requires fs.Valid() && (r.Create? ==> r.size <= MAX_FILE_SIZE)
    modifies fs.disk
    ensures fs.Valid()
    ensures Serves(old(Current(fs)), r, answer, Current(fs))
  {
    hide Serves, CanCreate, Created, Removed, FilesKept, Wrote, Consistent;
    ghost var d := fs.disk.sectors;
    ghost var v := ViewOf(d);
    match r
    case Create(name, size) =>
      var ok := fs.Create(name, size);
      if ok {
        CreateServes(d, fs.disk.sectors, v, ViewOf(fs.disk.sectors), name, size);
      } else {
        FailedCreateServes(d, v, name, size);
      }
      answer := if ok then Success else Failure;
    case Remove(name) =>
      var ok := fs.Remove(name);
      if ok {
        RemoveServes(d, fs.disk.sectors, v, ViewOf(fs.disk.sectors), name);
      } else {
        MissingServes(d, v, r);
      }
      answer := if ok then Success else Failure;
    case Read(name, numBytes, position) =>
      answer := ServeRead(fs, name, numBytes, position);
    case Write(name, data, position) =>
      answer := ServeWrite(fs, name, data, position);
  }

  lemma MissingServes(d: Image, v: View, r: Request)
    requires Consistent(v) && !Listed(v.table, r.name) && !r.Create?
    ensures Serves(VolumeOf(d, v), r, Failure, VolumeOf(d, v))
  {
    Lists(d, v, r.name);
  }

  lemma ReadServes(d: Image, v: View, name: Name, numBytes: int, position: nat, data: seq<Byte>)
    requires Consistent(v) && Listed(v.table, name)
    requires forall i | 0 <= i < NUM_DIR_ENTRIES && Matches(v.table, i, name) ::
               data == Slice(Contents(d, v.headers[i]), position, Clip(v.headers[i].numBytes, numBytes, position))
    ensures Serves(VolumeOf(d, v), Read(name, numBytes, position), Bytes(data), VolumeOf(d, v))
  {
    Lists(d, v, name);
  }

  method ServeRead(fs: FileSystem, name: Name, numBytes: int, position: nat) returns (answer: Answer)
    requires fs.Valid()
    ensures Serves(Current(fs), Read(name, numBytes, position), answer, Current(fs))
  {
    hide Serves, OneOwner, MarkedIffOwned;
    ghost var d := fs.disk.sectors;
    var found, data := fs.ReadFile(name, numBytes, position);
    if found {
      ReadServes(d, ViewOf(d), name, numBytes, position, data);
      return Bytes(data);
    }
    MissingServes(d, ViewOf(d), Read(name, numBytes, position));
    return Failure;
  }

  method ServeWrite(fs: FileSystem, name: Name, data: seq<Byte>, position: nat) returns (answer: Answer)
    requires fs.Valid()
    modifies fs.disk
    ensures fs.Valid()
    ensures Serves(old(Current(fs)), Write(name, data, position), answer, Current(fs))
  {
    hide Serves, Consistent, Wrote;
    ghost var d := fs.disk.sectors;
    var from := new Byte[|data|](i requires 0 <= i < |data| => data[i]);
    assert from[..] == data;
    var found, n := fs.WriteFile(name, from, |data|, position);
    assert from[..n] == data[..n];
    if found {
      WriteServes(d, fs.disk.sectors, ViewOf(d), name, data, position, n);
      return Count(n);
    }
    MissingServes(d, ViewOf(d), Write(name, data, position));
    return Failure;
  }

  /** Any sequence of requests to the file system is a run of the simple machine, and afterwards the
      disk is consistent and no sector has been created or lost. */
  method Run(fs: FileSystem, requests: seq<Request>) returns (answers: seq<Answer>, ghost trace: seq<Volume>)
    requires fs.Valid()
    requires forall r | r in requests && r.Create? :: r.size <= MAX_FILE_SIZE
    modifies fs.disk
    ensures fs.Valid() && IsRun(trace, requests, answers)
    ensures trace[0] == old(Current(fs))
    ensures trace[|requests|] == Current(fs)
    ensures trace[|requests|].clear + Occupied(trace[|requests|].files) == trace[0].clear + Occupied(trace[0].files)
  {
    hide Serves, IsRun, Occupied, Current, FileSystem.Valid;
    answers, trace := [], [Current(fs)];
    NoRun(trace);
    for k := 0 to |requests|
      invariant |trace| == k + 1 && |answers| == k
      invariant fs.Valid() && IsRun(trace, requests[..k], answers)
      invariant trace[0] == old(Current(fs))
      invariant trace[k] == Current(fs)
    {
      var answer := Serve(fs, requests[k]);
      RunMore(trace, requests[..k], answers, requests[k], answer, Current(fs));
      answers := answers + [answer];
      trace := trace + [Current(fs)];
      assert requests[..k + 1] == requests[..k] + [requests[k]];
    }
    assert requests[..|requests|] == requests;
    RunConserves(trace, requests, answers);
  }

  /** A new volume holds two empty files, and six of its sectors are taken. */
  lemma FormattedVolume(d: Image, v: View)
    requires Consistent(v) && HasConsoleOnly(v)
    ensures VolumeOf(d, v) == Volume(map[Key(STDIN) := [], Key(STDOUT) := []], NUM_SECTORS - 6)
    ensures VolumeOf(d, v).clear + Occupied(VolumeOf(d, v).files) == NUM_SECTORS - 4
  {
    var v0, v1 :| IsConsoleOf(v0, v1, v);
    BlankIsConsistent(v0);
    BlankVolume(d, v0);
    NothingListed(v0, STDIN);
    SecondFits(v0, v1, STDIN, STDOUT);
    CreateServes(d, d, v0, v1, STDIN, 0);
    ServesConserves(VolumeOf(d, v0), Create(STDIN, 0), Success, VolumeOf(d, v1));
    CreateServes(d, d, v1, v, STDOUT, 0);
    ServesConserves(VolumeOf(d, v1), Create(STDOUT, 0), Success, VolumeOf(d, v));
  }

  lemma BlankVolume(d: Image, v: View)
    requires Blank(v)
    ensures VolumeOf(d, v) == Volume(map[], NUM_SECTORS - 4)
  {
    var t := SlotsOf(d, v);
    assert forall i | 0 <= i < |t| :: t[i].Empty?;
    NameTables.MapIs(t, map[]);
  }

  /** From a disk holding anything at all: after formatting and any requests, the clear sectors and
      those of the files are together all but the four of the file system itself. */
  method FormatThenRun(disk: SynchDisk, requests: seq<Request>)
    returns (fs: FileSystem, answers: seq<Answer>, ghost trace: seq<Volume>)
    requires forall r | r in requests && r.Create? :: r.size <= MAX_FILE_SIZE
    modifies disk
    ensures fs.disk == disk && fs.Valid() && IsRun(trace, requests, answers)
    ensures trace[0] == Volume(map[Key(STDIN) := [], Key(STDOUT) := []], NUM_SECTORS - 6)
    ensures trace[|requests|] == Current(fs) && Current(fs).clear + Occupied(Current(fs).files) == NUM_SECTORS - 4
  {
    hide Serves, Consistent, Occupied, VolumeOf, HasConsoleOnly;
    fs := new FileSystem.Format(disk);
    FormattedVolume(disk.sectors, ViewOf(disk.sectors));
    answers, trace := Run(fs, requests);
  }

  lemma NoRun(trace: seq<Volume>)
    requires |trace| == 1
    ensures IsRun(trace, [], [])
  {
  }

  lemma RunMore(trace: seq<Volume>, requests: seq<Request>, answers: seq<Answer>, r: Request, answer: Answer, a: Volume)
    requires IsRun(trace, requests, answers) && Serves(trace[|requests|], r, answer, a)
    ensures IsRun(trace + [a], requests + [r], answers + [answer])
  {
    hide Serves;
  }
}
