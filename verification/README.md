# Nachos, proved

A Dafny model of the parts of Nachos 3.4 (teaching kernel and machine simulator, extended with
processes, named semaphores and a page loader) that carry invariants, with proofs about all inputs,
all runs and all interleavings.  `dafny verify dfyconfig.toml` checks everything.

- **File system** (`Words`, `BitMaps`, `Files`, `Directories`, `FileSystems`, `FileMaps`).  A disk is
  1024 sectors of 512 bytes; bitmap, directory and headers are read back from those sectors.  The
  ownership invariant (marked sectors are exactly the owned ones, each with one owner) holds after
  formatting and after every operation.  ReadAt and WriteAt refine a plain byte sequence.  On top of
  that, every run of requests is a run of a map from names to byte sequences with a count of clear
  sectors, and clear plus occupied sectors stay 1020.
- **Thread kernel** (`Kernel`, `Turns`, `Deletions`, `Lists`, `Scheduling`).  P, V, Fork, Yield, Sleep and
  Finish as atomic steps; no wake-up is lost, every live thread is in exactly one place, and the ready
  list is served in turn.  The in-place code over linked lists takes exactly those steps.
- **Interrupt simulator** (`Interrupts`, `Simulator`).  The drain loop ends and fires exactly what is due;
  nothing scheduled is lost, fires early or fires twice, whatever handlers schedule; and the clock is the
  sum of its three counters.  The in-place code over the linked list does exactly that.
- **User memory** (`Translation`, `AddressSpaces`, `Isolation`).  Page tables stay disjoint, loaded
  programs see their image, and any interleaving of launches, loads and stores behaves as independent
  memories.
- **Arithmetic** (`Multiply`, `DiskTiming`, `Decimal`).  The 64-bit product, the disk head and track
  buffer, and the decimal printer and reader.
- **Processes and named semaphores** (`Processes`, `NameTables`, `SemTables`).
- **Two-tap programs** (`Taps`, `TapProtocol`).

Where the code does not do what it or its documentation suggests, the code is modelled and the exact
condition is proved:

- A track-buffer hit is granted up to the next sector boundary, so the sector may still be passing
  when the request is issued (`DiskTiming.HitBeforeThePassEnds`); `DiskTiming.Disk.HitIsExact` and
  `DiskTiming.Disk.HitHasPassedExactly` say exactly when.
- Printing the most negative int prints codes below the digit zero, and reading that back gives zero;
  it is the only exception (`Decimal.RoundTripExactly`).
- The taps program looks for the end of the shared file without holding a semaphore.  If the first
  volume is written before, the round goes wrong; `TapProtocol.RoundRestores` is an equivalence.
- The frame bitmap has 256 bits and memory 128 frames.  At start-up 129 pages are
  granted (`AddressSpaces.FramesBeyondMemory`).  `AddressSpaces.FramesInMemoryExactly` gives the exact
  condition under which only real frames are handed out; past it the source writes beyond memory,
  so `AddressSpaces.AddrSpace.constructor` asks for it.
- A finished thread is only noted for deletion when the thread that takes over is new; if another
  thread finishes before a thread that has run before is dispatched, the note is overwritten and the
  thread is never deleted (`Deletions.FinishedCanLeak`).  `Deletions.DeletedExactly` and
  `Deletions.LeakedExactly` are equivalences over whole runs.
- A one-byte load sign-extends, although two-byte loads do not (`Translation.ValueOfLowBytes`).
- `filesys/filehdr.h` speaks of files just under 4K bytes; with 512-byte sectors the limit is 64512.

## Model

| member | source | states |
|---|---|---|
| Words.SetBit | src/nachos-3.4/code/userprog/bitmap.cc:47-51 | setting bit `k` with a mask changes bit `k` of the word and no other bit, for every word and position |
| Words.ResetBit | src/nachos-3.4/code/userprog/bitmap.cc:61-65 | masking bit `k` out changes that bit and no other |
| Words.BitIsDigit | src/nachos-3.4/code/userprog/bitmap.cc:47-83 | bit k of a word is digit k of its value in binary |
| Words.WordImage | src/nachos-3.4/code/userprog/bitmap.cc:149-165 | each word occupies four bytes of the image, lowest byte first |
| Words.WordsRoundTrip | src/nachos-3.4/code/userprog/bitmap.cc:149-165 | the word array written out as bytes and read back is the same array |
| BitMaps.FirstClearIsLowest | src/nachos-3.4/code/userprog/bitmap.cc:95-103 | the linear search yields the lowest clear bit, or -1 only when every bit is set |
| BitMaps.CountMeetsFind | src/nachos-3.4/code/userprog/bitmap.cc:95-119 | NumClear is zero exactly when Find fails |
| BitMaps.CountAfterMark | src/nachos-3.4/code/userprog/bitmap.cc:112-119 | marking a clear bit lowers the clear count by exactly one |
| BitMaps.BitMap.constructor | src/nachos-3.4/code/userprog/bitmap.cc:20-27 | a new map has the bits asked for, all clear |
| BitMaps.BitMap.Mark | src/nachos-3.4/code/userprog/bitmap.cc:47-51 | the bits afterwards are the old bits with that one set |
| BitMaps.BitMap.Clear | src/nachos-3.4/code/userprog/bitmap.cc:61-65 | the bits afterwards are the old bits with that one clear |
| BitMaps.BitMap.Test | src/nachos-3.4/code/userprog/bitmap.cc:75-83 | returns that bit of the abstract bit sequence |
| BitMaps.BitMap.Find | src/nachos-3.4/code/userprog/bitmap.cc:95-103 | returns the lowest clear bit and marks it, or -1 and changes nothing when there is none |
| BitMaps.BitMap.NumClear | src/nachos-3.4/code/userprog/bitmap.cc:112-119 | returns the number of clear bits |
| Files.RawAfterWrite | src/nachos-3.4/code/filesys/openfile.cc:186-189 | writing one sector of a file replaces exactly that stretch of its bytes |
| Files.ContentsFrame | src/nachos-3.4/code/filesys/filehdr.cc:107-110 | a file depends on nothing but its own data sectors |
| Files.HeaderLayout | src/nachos-3.4/code/filesys/filehdr.cc:78-94 | where each field of a header is in its sector, lowest byte first |
| Files.HeaderRoundTrip | src/nachos-3.4/code/filesys/filehdr.cc:78-94 | a header fetched from the sector it was written to is the same header |
| Files.SynchDisk.ReadSector | src/nachos-3.4/code/filesys/synchdisk.cc:73-79 | copies the whole sector into place and nothing else |
| Files.SynchDisk.WriteSector | src/nachos-3.4/code/filesys/synchdisk.cc:91-97 | replaces that sector and no other |
| Files.FileHeader.Allocate | src/nachos-3.4/code/filesys/filehdr.cc:42-52 | succeeds exactly when enough sectors are clear; then the data sectors are distinct, were clear, and are the only new marks; on failure the map is unchanged |
| Files.FileHeader.Deallocate | src/nachos-3.4/code/filesys/filehdr.cc:62-68 | clears exactly the file's data sectors; the "ought to be marked" assertion never fails |
| Files.FileHeader.FetchFrom | src/nachos-3.4/code/filesys/filehdr.cc:78-81 | the header object holds what the sector encodes |
| Files.FileHeader.WriteBack | src/nachos-3.4/code/filesys/filehdr.cc:91-94 | the sector encodes the header object; no other sector changes |
| Files.Clip | src/nachos-3.4/code/filesys/openfile.cc:160-163 | how far a request is cut: nothing beyond the end of the file or for a non-positive count, otherwise up to the end |
| Files.OverwriteThenSlice | src/nachos-3.4/code/filesys/openfile.cc:123-192 | reading where one has just written gives the bytes written, and elsewhere what was there |
| Files.OpenFile.constructor | src/nachos-3.4/code/filesys/openfile.cc:36-41 | opening reads the header from its sector and starts at position zero |
| Files.OpenFile.ReadAt | src/nachos-3.4/code/filesys/openfile.cc:123-150 | returns exactly the clipped slice of the file for every position, length and alignment, and touches nothing else of the buffer |
| Files.OpenFile.WriteAt | src/nachos-3.4/code/filesys/openfile.cc:153-192 | the file becomes the old one with the clipped stretch overwritten, for every position, length and alignment; no sector outside the file changes |
| Files.PreparedIsSpared | src/nachos-3.4/code/filesys/openfile.cc:171-181 | after the reads of partial first and last sectors, every byte of the buffer outside the request is the file's byte |
| Files.Patched | src/nachos-3.4/code/filesys/openfile.cc:183-189 | writing the patched buffer back gives exactly the overwritten file |
| Files.OpenFile.Seek | src/nachos-3.4/code/filesys/openfile.cc:62-65 | sets the position |
| Files.OpenFile.Read | src/nachos-3.4/code/filesys/openfile.cc:81-86 | reads the slice at the position and advances by what was read |
| Files.OpenFile.Write | src/nachos-3.4/code/filesys/openfile.cc:89-94 | overwrites at the position and advances by what was written |
| Directories.SameIffKeysEqual | src/nachos-3.4/code/filesys/directory.cc:91-97 | comparing up to nine characters means equal keys: the name up to its terminator, cut to nine characters |
| Directories.KeyOfCopied | src/nachos-3.4/code/filesys/directory.cc:138-139 | a name copied into an entry keeps its key |
| Directories.EntryLayout | src/nachos-3.4/code/filesys/directory.h:32-39 | where each field of an entry is in its image |
| Directories.TableRoundTrip | src/nachos-3.4/code/filesys/directory.cc:64-80 | a directory fetched from the file it was written to is the same directory |
| Directories.Directory.constructor | src/nachos-3.4/code/filesys/directory.cc:38-44 | a new directory has no entry in use |
| Directories.Directory.FindIndex | src/nachos-3.4/code/filesys/directory.cc:91-97 | returns the first entry under the name, and -1 exactly when there is none |
| Directories.Directory.Find | src/nachos-3.4/code/filesys/directory.cc:109-116 | returns the header sector stored under the name, or -1 when there is none |
| Directories.Directory.Add | src/nachos-3.4/code/filesys/directory.cc:130-143 | succeeds exactly when the name is new and an entry is free; the first free entry takes it and no other entry changes; failure changes nothing |
| Directories.Directory.Remove | src/nachos-3.4/code/filesys/directory.cc:154-162 | succeeds exactly when the name is listed; exactly that entry is freed |
| FileSystems.CreateKeepsConsistent | src/nachos-3.4/code/filesys/filesys.cc:189-232 | creating keeps the ownership invariant: the marked sectors are exactly the owned ones and no sector has two owners |
| FileSystems.RemoveKeepsConsistent | src/nachos-3.4/code/filesys/filesys.cc:303-334 | removing keeps the ownership invariant, so nothing leaks |
| FileSystems.RunKeepsConsistent | src/nachos-3.4/code/filesys/filesys.cc:189-334 | every state along any sequence of successful creates and removes satisfies the ownership invariant |
| FileSystems.CreateCount | src/nachos-3.4/code/filesys/filesys.cc:206-216 | a create lowers the clear count by one plus the data sectors the size needs |
| FileSystems.CreateThenRemove | src/nachos-3.4/code/filesys/filesys.cc:189-334 | a create followed by a remove of the same name restores the free map, the headers and the name map |
| FileSystems.ViewAfterCreate | src/nachos-3.4/code/filesys/filesys.cc:220-225 | what the disk says after the header, directory and bitmap writes of Create, read back from its sectors; every listed file keeps header and contents |
| FileSystems.ViewAfterRemove | src/nachos-3.4/code/filesys/filesys.cc:328-329 | what the disk says after the bitmap and directory writes of Remove |
| FileSystems.WriteKeepsView | src/nachos-3.4/code/filesys/openfile.cc:153-192 | a write to one file changes neither bitmap, directory, headers nor any other file |
| FileSystems.BlankIsConsistent | src/nachos-3.4/code/filesys/filesys.cc:92-121 | a freshly formatted volume satisfies the ownership invariant |
| FileSystems.FetchDirectory | src/nachos-3.4/code/filesys/directory.cc:64-67 | the table holds what the directory file encodes |
| FileSystems.StoreDirectory | src/nachos-3.4/code/filesys/directory.cc:77-80 | the directory file encodes the table; sectors outside that file are unchanged |
| FileSystems.FetchBitMap | src/nachos-3.4/code/userprog/bitmap.cc:149-152 | the words hold what the bitmap file encodes |
| FileSystems.StoreBitMap | src/nachos-3.4/code/userprog/bitmap.cc:162-165 | the bitmap file encodes the words; sectors outside that file are unchanged |
| FileSystems.FormatDisk | src/nachos-3.4/code/filesys/filesys.cc:83-121 | on a disk holding anything at all: both system files are in place, the directory is empty, exactly their four sectors are marked, and both allocation assertions hold |
| FileSystems.FileSystem.Format | src/nachos-3.4/code/filesys/filesys.cc:80-158 | the formatting constructor ends with a consistent volume holding just the two empty console files |
| FileSystems.FileSystem.Mount | src/nachos-3.4/code/filesys/filesys.cc:141-158 | the other constructor keeps consistency and leaves a disk that already lists the console files unchanged |
| FileSystems.FileSystem.Create | src/nachos-3.4/code/filesys/filesys.cc:189-232 | succeeds exactly when the name is absent, an entry is free and enough sectors are clear; failure leaves the disk unchanged; success keeps every listed file and the invariant |
| FileSystems.FileSystem.Remove | src/nachos-3.4/code/filesys/filesys.cc:303-334 | succeeds exactly when the name is listed; then its entry and exactly its sectors are free; every other file is kept |
| FileSystems.FileSystem.WriteFile | src/nachos-3.4/code/filesys/filesys.cc:275-290 | opening by name and writing overwrites that file alone, with the clipped request; the invariant and the whole view are kept |
| FileSystems.FileSystem.ReadFile | src/nachos-3.4/code/filesys/filesys.cc:275-290 | opening by name and reading returns the clipped slice of that file |
| FileSystems.Reserve | src/nachos-3.4/code/filesys/filesys.cc:206-218 | the in-memory claims of Create, in source order, succeed exactly when there is room; the sectors taken are distinct and were clear |
| FileSystems.Release | src/nachos-3.4/code/filesys/filesys.cc:318-326 | the in-memory releases of Remove free exactly the header and data sectors and the entry |
| FileMaps.ServesConserves | src/nachos-3.4/code/filesys/filesys.cc:189-334 | no request changes the sum of clear and occupied sectors |
| FileMaps.RunConserves | src/nachos-3.4/code/filesys/filesys.cc:189-334 | that sum is the same after any sequence of requests |
| FileMaps.WriteThenRead | src/nachos-3.4/code/filesys/openfile.cc:123-192 | through the names: what was written is what is read |
| FileMaps.CreateRemoveThenRead | src/nachos-3.4/code/filesys/filesys.cc:189-334 | a new file can be read, all of it; a removed one cannot |
| FileMaps.OthersUntouched | src/nachos-3.4/code/filesys/filesys.cc:189-334 | no request touches a file of another name |
| FileMaps.Lists | src/nachos-3.4/code/filesys/directory.cc:109-116 | the abstract map holds exactly the listed names, each with its file's contents |
| FileMaps.RoomMeans | src/nachos-3.4/code/filesys/directory.cc:130-143 | an entry is free exactly when fewer than ten files exist |
| FileMaps.CreateServes | src/nachos-3.4/code/filesys/filesys.cc:189-232 | a successful create adds the name with a file of that size and lowers the clear count accordingly |
| FileMaps.RemoveServes | src/nachos-3.4/code/filesys/filesys.cc:303-334 | a remove deletes exactly that name and returns its sectors to the clear count |
| FileMaps.WriteServes | src/nachos-3.4/code/filesys/openfile.cc:153-192 | a write is an overwrite of that name's value in the map |
| FileMaps.ReadServes | src/nachos-3.4/code/filesys/openfile.cc:123-150 | a read answers with the clipped slice of that name's value |
| FileMaps.Serve | src/nachos-3.4/code/filesys/filesys.cc:189-334 | every request, successful or not, is one step of a map from names to bytes with a clear-sector count |
| FileMaps.Run | src/nachos-3.4/code/filesys/filesys.cc:189-334 | any sequence of create, remove, read and write requests, with its answers, is a run of that map; consistency and the sector sum are kept |
| FileMaps.FormattedVolume | src/nachos-3.4/code/filesys/filesys.cc:80-158 | a new volume is the map with two empty files and 1018 clear sectors |
| FileMaps.FormatThenRun | src/nachos-3.4/code/filesys/filesys.cc:80-334 | from any disk: after formatting and any requests, clear sectors and those of the files add up to 1020 |
| Lists.SlotSplits | src/nachos-3.4/code/threads/list.cc:187-200 | everything before the insertion slot is at most the key and the element at it is larger |
| Lists.InsertedIsSorted | src/nachos-3.4/code/threads/list.cc:179-202 | insertion keeps a sorted list sorted, adds exactly the new item, and places it after every equal key |
| Lists.List.constructor | src/nachos-3.4/code/threads/list.cc:43-46 | a new list is empty |
| Lists.List.IsEmpty | src/nachos-3.4/code/threads/list.cc:155-161 | true exactly when the list has no items |
| Lists.List.Append | src/nachos-3.4/code/threads/list.cc:77-88 | `first`, `last` and the `next` pointers thread the old items and then the new one |
| Lists.List.Prepend | src/nachos-3.4/code/threads/list.cc:103-114 | the new item and then the old ones are threaded |
| Lists.List.SortedInsert | src/nachos-3.4/code/threads/list.cc:179-202 | the pointers thread the old list with the item inserted at its slot |
| Lists.List.SortedRemove | src/nachos-3.4/code/threads/list.cc:218-237 | takes off the front item with its key, or nothing from an empty list |
| Lists.Enqueue | src/nachos-3.4/code/threads/list.cc:77-88 | appending to one of several lists that share nothing changes that list alone and keeps them apart |
| Lists.Dequeue | src/nachos-3.4/code/threads/list.cc:125-128 | taking the front off one of several lists that share nothing changes that list alone |
| Interrupts.FiredInOrder | src/nachos-3.4/code/machine/interrupt.cc:291-336 | no interrupt fires before its time and the log of firings never goes back in time |
| Interrupts.ScheduleKeepsHistory | src/nachos-3.4/code/machine/interrupt.cc:265-275 | scheduling a later interrupt keeps the history invariant |
| Interrupts.FireKeepsHistory | src/nachos-3.4/code/machine/interrupt.cc:327-335 | firing the due head keeps the history invariant and lowers the number of due interrupts by one |
| Interrupts.PutBackKeepsHistory | src/nachos-3.4/code/machine/interrupt.cc:309-319 | taking the head off and putting it back keeps the history invariant and the number due |
| Interrupts.FiredOnce | src/nachos-3.4/code/machine/interrupt.cc:265-336 | every interrupt ever scheduled is pending or fired, never both, and none fired twice |
| Interrupts.DrainedMeansLater | src/nachos-3.4/code/machine/interrupt.cc:165-171 | outside idle mode a drained list holds only interrupts strictly in the future |
| Interrupts.CheckedUsesOne | src/nachos-3.4/code/machine/interrupt.cc:291-336 | a check that fires leaves one fewer due, because handlers schedule strictly ahead: the measure of the drain loop |
| Interrupts.GoodRun | src/nachos-3.4/code/machine/interrupt.cc:115-336 | every run from a good state keeps the history in order, loses nothing from the records of scheduled and fired interrupts, and keeps the clock the sum of its counters |
| Interrupts.RunFiresOnce | src/nachos-3.4/code/machine/interrupt.cc:115-336 | over any run and any handler behaviour each interrupt ever scheduled, before or during it, is pending or fired once, never early, in nondecreasing order of time |
| Interrupts.DrainFiresDue | src/nachos-3.4/code/machine/interrupt.cc:165-171 | the drain loop fires exactly the due interrupts, in list order and at the present time, and leaves nothing due save an idle machine's lone timer |
| Interrupts.TickFiresExactly | src/nachos-3.4/code/machine/interrupt.cc:151-179 | after a tick outside idle mode an interrupt on record has fired exactly when its time has come |
| Interrupts.RunFiresOnTime | src/nachos-3.4/code/machine/interrupt.cc:151-179 | so it is at every user instruction with interrupts on, after any run |
| Interrupts.TickCharges | src/nachos-3.4/code/machine/interrupt.cc:156-162 | a tick charges ten units to system time in system mode and one to user time otherwise, and no idle time |
| Interrupts.HandlerAsks | src/nachos-3.4/code/machine/interrupt.cc:193-197 | a yield is asked for exactly when some handler action asked |
| Interrupts.LevelOnTicks | src/nachos-3.4/code/machine/interrupt.cc:115-127 | turning interrupts on from off outside idle mode lets one tick of the mode pass, and an interrupt on record has then fired exactly when its time has come |
| Interrupts.LevelElseIsQuiet | src/nachos-3.4/code/machine/interrupt.cc:115-127 | any other change of level changes the level and nothing else |
| Interrupts.RunLevels | src/nachos-3.4/code/machine/interrupt.cc:115-127 | both hold at any point of any run |
| Interrupts.IdleMeans | src/nachos-3.4/code/machine/interrupt.cc:211-234 | halts exactly when nothing or only a timer is pending, and then nothing fires; otherwise the head fires, at its own time if that lies ahead, and nothing due remains but possibly a lone timer; the time that passes is idle time |
| Interrupts.RunRecords | src/nachos-3.4/code/machine/interrupt.cc:265-275 | a device's request stays on record, with the time it asked for, for the rest of the run |
| Interrupts.RunCounts | src/nachos-3.4/code/machine/interrupt.cc:265-275 | the record grows by exactly one for each device step before a halt and by what the handlers that ran asked for |
| Simulator.Interrupt.constructor | src/nachos-3.4/code/machine/interrupt.cc:60-67 | the simulator starts with nothing pending, interrupts off and an empty history |
| Simulator.Interrupt.Schedule | src/nachos-3.4/code/machine/interrupt.cc:265-275 | the code, over its linked list, files the interrupt where the value-level simulator does, and changes nothing else |
| Simulator.Interrupt.RunHandler | src/nachos-3.4/code/machine/interrupt.cc:331 | a handler's actions change the fields and the list as the value level says |
| Simulator.Interrupt.CheckIfDue | src/nachos-3.4/code/machine/interrupt.cc:291-336 | fields, clock, list and result are exactly those of the value-level check |
| Simulator.Interrupt.Drain | src/nachos-3.4/code/machine/interrupt.cc:165-171 | the loop ends in exactly the state of the value-level drain |
| Simulator.Interrupt.OneTick | src/nachos-3.4/code/machine/interrupt.cc:151-179 | the state is exactly that of the value-level tick |
| Simulator.Interrupt.Idle | src/nachos-3.4/code/machine/interrupt.cc:211-234 | state and halt are exactly those of the value level |
| Simulator.Interrupt.SetLevel | src/nachos-3.4/code/machine/interrupt.cc:115-127 | the state is exactly that of the value level: one tick when turned on from off; a handler may turn interrupts off |
| Simulator.Interrupt.Take | src/nachos-3.4/code/machine/interrupt.cc:115-336 | whatever the machine asks for, the code takes exactly the step of the value level |
| Simulator.Run | src/nachos-3.4/code/machine/interrupt.cc:115-336 | any sequence of requests to the code is the value-level run of those steps; nothing on record is lost, each interrupt is pending in the list or fired, and the record grows as the steps and handlers say |
| Kernel.NoLostWakeup | src/nachos-3.4/code/threads/synch.cc:65-98 | in every reachable state a semaphore with waiters has no more value than threads it woke that have yet to re-test; value is initial plus Vs minus Ps and not negative |
| Kernel.ExactlyOnePlace | src/nachos-3.4/code/threads/scheduler.cc:54-135 | in every reachable state each live thread is in exactly one place, once, with the status of that place |
| Deletions.FinishStep | src/nachos-3.4/code/threads/thread.cc:149-159 | a finishing thread is deleted at once exactly when the processor goes back to a thread that has run before; with a new thread, or none, taking over it is only noted |
| Deletions.NotedStep | src/nachos-3.4/code/threads/scheduler.cc:116-127 | the next step of a noted thread: another Finish forgets it, a switch back deletes it, anything else leaves it noted |
| Deletions.FateOfFinished | src/nachos-3.4/code/threads/scheduler.cc:116-127 | along any run that starts with its Finish a thread is deleted, forgotten or still noted, and which one is decided by whether a switch back came before another Finish |
| Deletions.DeletedExactly | src/nachos-3.4/code/threads/scheduler.cc:116-127 | from start-up and along every run: a finished thread has been deleted exactly when a thread that had run before was dispatched before any other thread finished |
| Deletions.LeakedExactly | src/nachos-3.4/code/threads/thread.cc:149-159 | a finished thread leaks, in every continuation, exactly when another thread finishes before such a dispatch |
| Deletions.ForgottenForGood | src/nachos-3.4/code/threads/thread.cc:156 | a finished thread that is no longer noted is never deleted, whatever happens |
| Deletions.FinishedCanLeak | src/nachos-3.4/code/threads/thread.cc:149-159 | two forks and two Finishes leave the first thread undeleted in every continuation |
| Deletions.DeletedIsDead | src/nachos-3.4/code/threads/thread.cc:64-70 | whatever thread a step deletes is not the one now running and is nowhere, so the check in the destructor never fails |
| Turns.ForkMeans | src/nachos-3.4/code/threads/thread.cc:93-104 | a forked thread is ready, behind all others; no other field changes |
| Turns.YieldMeans | src/nachos-3.4/code/threads/thread.cc:180-195 | with others ready the first of them runs and the caller goes behind the rest, with one dispatch more; alone, the caller goes on |
| Turns.PassMeans | src/nachos-3.4/code/threads/synch.cc:69-73 | with a positive value the caller goes on and there is one unit less; at zero it goes to the end of the queue and the first ready thread runs, or the machine idles |
| Turns.SignalMeans | src/nachos-3.4/code/threads/synch.cc:88-98 | the value goes up by one, and the first waiter, if any, goes from the queue to the end of the ready list |
| Turns.FinishMeans | src/nachos-3.4/code/threads/thread.cc:149-159 | the caller is finished for good and the first ready thread runs, or the machine idles |
| Turns.ResumeMeans | src/nachos-3.4/code/threads/thread.cc:227-230 | an idle machine gives the processor to the first thread that became ready |
| Turns.WhatMayHappen | src/nachos-3.4/code/threads/synch.cc:65-98 | a running thread may do anything, save that one woken inside P must first re-test; anyone may signal |
| Turns.RingTurns | src/nachos-3.4/code/threads/thread.cc:180-195 | when every thread that gets the processor yields, the running thread and those behind it turn like a ring, one place a Yield |
| Turns.YieldersTakeTurns | src/nachos-3.4/code/threads/thread.cc:180-195 | so the thread at position i runs after i + 1 Yields, and one round brings back the first thread and the same list |
| Turns.YieldsGoOn | src/nachos-3.4/code/threads/thread.cc:180-195 | whoever runs can yield again and again as long as no woken thread has yet to re-test |
| Turns.ValueCounts | src/nachos-3.4/code/threads/synch.cc:65-98 | along every run a semaphore's value is its initial value plus the Vs in the list of steps minus the passes of P that did not leave their caller on the queue |
| Turns.WokenInTurn | src/nachos-3.4/code/threads/synch.cc:93-96 | along any run a waiter at position i of a queue moves up by the number of Vs, and the V number i + 1 makes it ready |
| Kernel.DispatchedInTurn | src/nachos-3.4/code/threads/scheduler.cc:54-74 | along any run a thread at position k of the ready list is dispatched by exactly the dispatch number k + 1 |
| Kernel.PlacedStep | src/nachos-3.4/code/threads/thread.cc:93-231 | every step keeps every live thread in exactly one place |
| Kernel.SemsGoodStep | src/nachos-3.4/code/threads/synch.cc:65-98 | every step keeps the count and no-lost-wake-up invariant of every semaphore |
| Kernel.RunKeepsGood | src/nachos-3.4/code/threads/synch.cc:65-98 | any run from a good state ends in a good state |
| Kernel.RunIsGood | src/nachos-3.4/code/threads/synch.cc:65-98 | both invariants hold after any sequence of steps |
| Scheduling.RunKernel | src/nachos-3.4/code/threads/thread.cc:93-231 | any run of the in-place code over linked lists ends in the state the step model gives, with all invariants |
| Scheduling.Kernel.Take | src/nachos-3.4/code/threads/synch.cc:65-98 | the in-place code takes exactly the step of the model |
| Scheduling.Kernel.ReadyToRun | src/nachos-3.4/code/threads/scheduler.cc:54-60 | marks the thread ready and appends it |
| Scheduling.Kernel.FindNextToRun | src/nachos-3.4/code/threads/scheduler.cc:71-74 | takes the front of the ready list, or nothing |
| Scheduling.Kernel.Run | src/nachos-3.4/code/threads/scheduler.cc:91-135 | the thread runs; a waiting deletion happens exactly when the thread has run before |
| Scheduling.Kernel.ForkThread | src/nachos-3.4/code/threads/thread.cc:93-104 | the new thread goes to the back of the ready list |
| Scheduling.Kernel.YieldCpu | src/nachos-3.4/code/threads/thread.cc:180-195 | with a ready thread, it runs and the caller goes to the back; otherwise nothing changes |
| Scheduling.Kernel.Sleep | src/nachos-3.4/code/threads/thread.cc:217-231 | the caller blocks and the next ready thread runs, or the machine idles |
| Scheduling.Kernel.WakeFromIdle | src/nachos-3.4/code/threads/thread.cc:227-230 | once a thread is ready the idle loop hands it the processor |
| Scheduling.Kernel.FinishThread | src/nachos-3.4/code/threads/thread.cc:149-159 | the caller is noted for deletion and sleeps for good |
| Scheduling.Kernel.TryP | src/nachos-3.4/code/threads/synch.cc:69-73 | one pass of the loop: consume a unit of value, or queue up and sleep |
| Scheduling.Kernel.SignalV | src/nachos-3.4/code/threads/synch.cc:88-98 | the first waiter becomes ready and the value goes up by one |
| Translation.VirtualAfterWrite | src/nachos-3.4/code/machine/translate.cc:138-169 | writing in one frame of a process is writing at the matching virtual address |
| Translation.VirtualUntouched | src/nachos-3.4/code/machine/translate.cc:138-169 | writing in a frame a process does not have changes nothing it sees |
| Translation.ValueOfLowBytes | src/nachos-3.4/code/machine/translate.cc:101-118 | what a load makes of a stored value: all of an int, the low 16 bits unsigned, the low 8 bits sign-extended |
| Translation.LowBytesNest | src/nachos-3.4/code/machine/translate.cc:148-164 | a shorter store writes the first bytes of a longer one, the lowest byte first |
| Translation.ValuesNest | src/nachos-3.4/code/machine/translate.cc:101-118 | a longer load is made of the shorter ones, the lower bytes counting less |
| Translation.CheckMeans | src/nachos-3.4/code/machine/translate.cc:187-255 | each exception is raised exactly under its own condition, and none exactly when the access is aligned, mapped, allowed and in memory |
| Translation.StaysInPage | src/nachos-3.4/code/machine/translate.cc:187-255 | an aligned access never crosses a page |
| Translation.Machine.Translate | src/nachos-3.4/code/machine/translate.cc:187-255 | raises exactly the exception the checks give, in their order; otherwise the physical address is in the frame of the page, and only use and dirty bits of that entry change |
| Translation.Machine.ReadMem | src/nachos-3.4/code/machine/translate.cc:88-122 | returns the value of the bytes at the physical address, which for a table within memory are those the process sees; for every table, frames outside memory included |
| Translation.Machine.WriteMem | src/nachos-3.4/code/machine/translate.cc:138-169 | exactly the bytes at the physical address change; a process with distinct frames in memory sees its memory overwritten there, one with other frames sees no change; a refused write changes no memory |
| Translation.WriteThenRead | src/nachos-3.4/code/machine/translate.cc:88-169 | reading back the address just written returns the stored bytes |
| AddressSpaces.FramesAreTaken | src/nachos-3.4/code/userprog/addrspace.cc:96-110 | with enough clear bits the frames handed out are distinct, were clear, and are the only new marks |
| AddressSpaces.FramesInMemoryExactly | src/nachos-3.4/code/threads/system.cc:159 | the 256-bit frame map hands out only real frames exactly when the request fits the clear bits of the first 128 |
| AddressSpaces.FramesBeyondMemory | src/nachos-3.4/code/threads/system.cc:159 | at start-up a process of 129 pages is accepted and handed a frame that does not exist |
| AddressSpaces.CreationKeepsApart | src/nachos-3.4/code/userprog/addrspace.cc:83-110 | creating one more address space keeps all page tables injective and pairwise disjoint |
| AddressSpaces.CreationsKeepApart | src/nachos-3.4/code/userprog/addrspace.cc:83-110 | so does any sequence of creations |
| AddressSpaces.OthersSeeNothing | src/nachos-3.4/code/machine/translate.cc:138-169 | a write within one process's page is seen by it at that address and by no other process |
| AddressSpaces.Sizes | src/nachos-3.4/code/userprog/addrspace.cc:112-129 | how the computed page counts and partial sizes fit together, for all segment sizes, empty code and data that just fills the last code page included |
| AddressSpaces.NumPagesIsExact | src/nachos-3.4/code/userprog/addrspace.cc:83-85 | the pages hold code, data, uninitialised data and a stack of 1024 bytes, and one page fewer would not |
| AddressSpaces.ImageMeans | src/nachos-3.4/code/userprog/addrspace.cc:130-158 | the image is the code bytes of the file, then its data bytes, then zeros |
| AddressSpaces.AllocatePages | src/nachos-3.4/code/userprog/addrspace.cc:96-110 | one frame per page, in search order, zero throughout; no other memory changes; every entry valid, writable and clean |
| AddressSpaces.LoadCode | src/nachos-3.4/code/userprog/addrspace.cc:130-138 | after the loop the space holds the code and zeros beyond |
| AddressSpaces.LoadFirstData | src/nachos-3.4/code/userprog/addrspace.cc:139-149 | the data that shares the last code page is in place |
| AddressSpaces.LoadData | src/nachos-3.4/code/userprog/addrspace.cc:150-158 | the rest of the data is in place |
| AddressSpaces.LoadImage | src/nachos-3.4/code/userprog/addrspace.cc:112-160 | every virtual address reads as the code byte, then the data byte, then zero |
| AddressSpaces.AddrSpace.constructor | src/nachos-3.4/code/userprog/addrspace.cc:63-160 | fails with nothing changed exactly when too few bits are clear; otherwise the process sees its image everywhere and no process with other frames sees a change |
| Isolation.PlainCheck | src/nachos-3.4/code/machine/translate.cc:187-255 | for a loaded process an access is refused exactly when it is misaligned or leaves its own memory |
| Isolation.WordIsTwoHalves | src/nachos-3.4/code/machine/translate.cc:101-118 | a word load equals the half-word loads at the same and the next place, the lower one counting less |
| Isolation.HalfIsTwoBytes | src/nachos-3.4/code/machine/translate.cc:101-118 | a half-word load equals the byte loads at the same and the next place, without their signs |
| Isolation.StoreMeans | src/nachos-3.4/code/machine/translate.cc:138-169 | a store changes exactly the bytes it covers, lowest byte first, and a load of that size gives the value back as far as its size goes |
| Isolation.Perform | src/nachos-3.4/code/machine/translate.cc:88-169 | one load or store does to the memories of all processes what it does to the memory of its own, and answers accordingly |
| Isolation.EachAsAlone | src/nachos-3.4/code/machine/translate.cc:88-169 | from the moment a process exists, what it sees of a run of all, launches included, is exactly what it would see running alone |
| Isolation.Computer.constructor | src/nachos-3.4/code/userprog/addrspace.cc:63-262 | a machine starts without processes |
| Isolation.Computer.LaunchProgram | src/nachos-3.4/code/userprog/addrspace.cc:63-262 | a launch is refused, changing nothing, exactly when too few bits are clear; otherwise it adds a memory holding the program's image and leaves every other memory as it is |
| Isolation.Computer.Access | src/nachos-3.4/code/machine/translate.cc:88-169 | a load or store concerns the memory of its process alone |
| Isolation.RunEvents | src/nachos-3.4/code/userprog/addrspace.cc:63-262 | any interleaving of launches, granted or refused, and of loads and stores gives exactly the replies of independent memories that start with the programs' images |
| Isolation.Boot | src/nachos-3.4/code/threads/system.cc:159 | at start-up there is no process, 256 bits are clear, and 128 of them stand for real frames |
| Multiply.TracksShift | src/nachos-3.4/code/machine/mipssim.cc:663-678 | the arithmetically shifted operand still shows the next bit of the multiplier, also for a negative one |
| Multiply.MultiplyBits | src/nachos-3.4/code/machine/mipssim.cc:657-678 | the loop, early exit included, leaves the exact 64-bit product of the unsigned operands |
| Multiply.NegateDouble | src/nachos-3.4/code/machine/mipssim.cc:680-688 | complementing both words and carrying gives the 64-bit negation |
| Multiply.Mult | src/nachos-3.4/code/machine/mipssim.cc:636-692 | hi and lo hold the exact product of any two 32-bit operands, signed or unsigned, most negative operand included |
| DiskTiming.NextPass | src/nachos-3.4/code/machine/disk.cc:203-209 | from a sector boundary, ModuloDiff sectors later is the next pass of the target, and none is earlier |
| DiskTiming.Disk.TimeToSeek | src/nachos-3.4/code/machine/disk.cc:180-194 | no seek exactly on the current track; seek plus rotation ends on the first boundary after the seek |
| DiskTiming.Disk.MissIsExact | src/nachos-3.4/code/machine/disk.cc:233-253 | without the buffer a request completes right after the first complete pass of its sector that starts once the seek is over |
| DiskTiming.Disk.HitIsExact | src/nachos-3.4/code/machine/disk.cc:240-247 | a request is answered from the track buffer exactly when it is a read of the current track whose sector passes completely between the settling of the head and the next boundary |
| DiskTiming.Disk.HitIsCovered | src/nachos-3.4/code/machine/disk.cc:240-247 | on a hit the sector is all in the buffer by the time the request completes |
| DiskTiming.HitBeforeThePassEnds | src/nachos-3.4/code/machine/disk.cc:240-247 | at any time before one sector has passed, a read of sector 0 is a hit although the sector is still passing |
| DiskTiming.Disk.HitHasPassedExactly | src/nachos-3.4/code/machine/disk.cc:240-247 | the sector of a hit has passed completely at the request exactly when the buffer test also holds for the time of the request |
| DiskTiming.Disk.UpdateLast | src/nachos-3.4/code/machine/disk.cc:262-271 | the buffer start moves to the boundary after the seek on a new track and stays otherwise |
| DiskTiming.Disk.HitTakesOneSector | src/nachos-3.4/code/machine/disk.cc:244-245 | a hit takes the time to transfer one sector |
| DiskTiming.SeekPerTrack | src/nachos-3.4/code/machine/disk.cc:180-184 | the seek is the same both ways and takes 500 ticks more for each track farther away |
| DiskTiming.Disk.Serve | src/nachos-3.4/code/machine/disk.cc:116-153 | a request completes on time, given where the head was and since when; afterwards the head is on its track, settled anew exactly after a seek, and the disk free at the completion |
| DiskTiming.Disk.ServeAll | src/nachos-3.4/code/machine/disk.cc:116-153 | over any request sequence each request is served on time from where the one before it left the head, starting from where the head was |
| DiskTiming.ServesExactly | src/nachos-3.4/code/machine/disk.cc:233-253 | there is exactly one time at which a request is on time |
| DiskTiming.TimesAreFixed | src/nachos-3.4/code/machine/disk.cc:116-153 | the requests and where the head starts fix every completion time of the sequence |
| Decimal.PrintInt | src/nachos-3.4/code/userprog/exception.cc:174-194 | the loops produce the digits of any int, within the eleven-character buffer |
| Decimal.ReadInt | src/nachos-3.4/code/userprog/exception.cc:116-165 | the loops read what the parser function says of any input, waiting for more exactly when it does |
| Decimal.DigitsWrite | src/nachos-3.4/code/userprog/exception.cc:185-191 | the digits of a non-negative number write that number, without a leading zero |
| Decimal.ValueIsPositional | src/nachos-3.4/code/userprog/exception.cc:155-158 | the first digit counts ten times as much for every digit behind it |
| Decimal.ReadingMeans | src/nachos-3.4/code/userprog/exception.cc:126-164 | a digit counts, a minus negates, any other first character is dropped, and more than the largest int reads as zero |
| Decimal.RoundTrip | src/nachos-3.4/code/userprog/exception.cc:116-194 | reading the printed text followed by any non-digit gives the number back, for every int but the most negative |
| Decimal.MostNegativeReadsZero | src/nachos-3.4/code/userprog/exception.cc:116-194 | what is printed for the most negative int reads as zero |
| Decimal.RoundTripExactly | src/nachos-3.4/code/userprog/exception.cc:116-194 | printing and reading back is the identity exactly off the most negative int |
| Processes.GetFreeSlot | src/nachos-3.4/code/threads/ptable.cc:109-116 | returns the first empty slot, or -1 when all are in use |
| Processes.GoodStep | src/nachos-3.4/code/threads/ptable.cc:30-107 | every step of every process keeps the handshake invariant |
| Processes.JoinReturnsExitCode | src/nachos-3.4/code/threads/ptable.cc:70-107 | in every interleaving a Join that passes its checks returns exactly the code the child passed to Exit |
| Processes.ExitWaitsForRead | src/nachos-3.4/code/threads/pcb.cc:56-99 | no child gets past ExitWait before its code has been read, and read right |
| Processes.HandshakeProgress | src/nachos-3.4/code/threads/pcb.cc:56-75 | an announced child lets the first Join pass, and a released child can leave |
| Processes.SlotsInOrder | src/nachos-3.4/code/threads/ptable.cc:30-69 | slots are handed out one after the other, none twice, until the table is full |
| Processes.NextStatement | src/nachos-3.4/code/threads/ptable.cc:30-107 | no process is kept from its next statement but by the two semaphores |
| Processes.ParentsAreExecs | src/nachos-3.4/code/threads/ptable.cc:57-63 | after any run the parent of a slot is the process whose Exec, in the list of steps, got it |
| Processes.JoinWaitsExactly | src/nachos-3.4/code/threads/ptable.cc:91-99 | a Join of a process that is not gone waits exactly when, in the list of steps, some Exec by the caller got that slot; any other returns -1 at once |
| Processes.RefusedAreNoChildren | src/nachos-3.4/code/threads/ptable.cc:93-96 | every Join that did not take the normal path was refused when no Exec by its caller had got the slot |
| Processes.PTable.constructor | src/nachos-3.4/code/threads/ptable.cc:6-20 | slot zero holds the first process and the others are empty |
| Processes.PTable.ExecUpdate | src/nachos-3.4/code/threads/ptable.cc:30-69 | takes the Exec step of the model and returns the slot, or -1 |
| Processes.PTable.CallExit | src/nachos-3.4/code/threads/ptable.cc:70-81 | takes the step of calling Exit, for a process other than the first |
| Processes.PTable.StoreExitCode | src/nachos-3.4/code/threads/ptable.cc:83 | takes the step that stores the exit code |
| Processes.PTable.AnnounceExit | src/nachos-3.4/code/threads/ptable.cc:86 | takes the step that lets the parent pass JoinWait |
| Processes.PTable.PassExitWait | src/nachos-3.4/code/threads/ptable.cc:87 | takes the step past ExitWait |
| Processes.PTable.CheckJoin | src/nachos-3.4/code/threads/ptable.cc:93-96 | refuses exactly what is not an existing child of the caller |
| Processes.PTable.PassJoinWait | src/nachos-3.4/code/threads/ptable.cc:99 | takes the step past JoinWait |
| Processes.PTable.ReadExitCode | src/nachos-3.4/code/threads/ptable.cc:102 | takes the step that reads the code |
| Processes.PTable.FinishJoin | src/nachos-3.4/code/threads/ptable.cc:105-106 | takes the step that releases the child, and returns the code read |
| Processes.PTable.Take | src/nachos-3.4/code/threads/ptable.cc:30-107 | whatever statement a process comes to, the code takes exactly the step of the model |
| Processes.RunTable | src/nachos-3.4/code/threads/ptable.cc:30-107 | any interleaving run by the in-place code is a run of the model, so every Join past its checks returned what the child passed to Exit and no child is gone whose code was not read |
| NameTables.MapReadsSlots | src/nachos-3.4/code/threads/stable.cc:53-85 | with distinct names the map says exactly what the slots say |
| NameTables.MapCounts | src/nachos-3.4/code/threads/stable.cc:87-90 | names and clear bits add up to the number of slots |
| NameTables.MapAfterCreate | src/nachos-3.4/code/threads/stable.cc:49 | filling an empty slot with a new name adds that name to the map |
| SemTables.STable.constructor | src/nachos-3.4/code/threads/stable.cc:4-11 | a new table is the empty map |
| SemTables.STable.Lookup | src/nachos-3.4/code/threads/stable.cc:53-66 | finds the slot of the name, and fails exactly when the map lacks it |
| SemTables.STable.Create | src/nachos-3.4/code/threads/stable.cc:28-51 | fails exactly on a taken name or a full table, changing nothing; otherwise adds the name with its value; bits and slots stay in step |
| SemTables.STable.Wait | src/nachos-3.4/code/threads/stable.cc:53-68 | one pass of P by the caller: it consumes a unit, or joins the queue exactly when the value is zero; an unknown name changes nothing |
| SemTables.STable.Retest | src/nachos-3.4/code/threads/synch.cc:69-73 | a later pass of P by a woken thread: it gives up its claim, and consumes a unit or queues up again |
| SemTables.STable.Signal | src/nachos-3.4/code/threads/stable.cc:70-85 | V under the name: the value goes up and the first waiter is returned to be made ready; an unknown name changes nothing |
| SemTables.NamedStep | src/nachos-3.4/code/threads/stable.cc:28-85 | a request changes the value under its own name by one for a signal or a wait that goes through, and nothing under any other name |
| SemTables.NamedValueCounts | src/nachos-3.4/code/threads/stable.cc:28-85 | after any run the value under a name is what it was created with plus its signals minus its waits that went through, counted in the list of requests |
| SemTables.AppliedIsSound | src/nachos-3.4/code/threads/stable.cc:28-85 | every request keeps every semaphore in the table sound: counts right, no wake-up lost, nobody waiting twice or waiting and woken |
| SemTables.RunIsSound | src/nachos-3.4/code/threads/stable.cc:28-85 | so does any run of creations, waits, re-tests and signals by name |
| SemTables.RunOps | src/nachos-3.4/code/threads/stable.cc:28-85 | any such run of the table leaves exactly the map that the requests make of the empty one, every semaphore in it sound |
| Taps.PouredIsGreedy | src/nachos-3.4/code/test/voinuoc.c:55-93 | one step on the residuals does what choosing the less loaded tap does to the total loads |
| Taps.Pour | src/nachos-3.4/code/test/voinuoc.c:55-93 | the branches compute that step |
| Taps.Schedule | src/nachos-3.4/code/test/voinuoc.c:31-95 | the loop gives exactly the taps of the scheduler that keeps total loads, up to the first zero; one residual is zero and their difference is that of the loads |
| Taps.GreedyIsBalanced | src/nachos-3.4/code/test/voinuoc.c:31-95 | the loads never differ by more than the largest volume |
| Taps.WithinThreeHalves | src/nachos-3.4/code/test/voinuoc.c:31-95 | the finishing time is at most 3/2 of that of any assignment |
| Taps.ThreeHalvesIsReached | src/nachos-3.4/code/test/voinuoc.c:31-95 | the factor is attained |
| TapProtocol.ReadToken | src/nachos-3.4/code/test/voinuoc.c:36-50 | the reading loop takes exactly one volume and the blank after it |
| TapProtocol.GoodStep | src/nachos-3.4/code/test/sinhvien.c:48-97 | every step of every program keeps the protocol invariant |
| TapProtocol.SectionsNeverOverlap | src/nachos-3.4/code/test/sinhvien.c:74-94 | in no interleaving are producer and taps both between their Wait and their Signal |
| TapProtocol.RoundRestores | src/nachos-3.4/code/test/main.c:79-133 | a finished round restores main=1, sinhvien=0, voinuoc=1 exactly when the taps found the end of the file before the first write; then the file holds every volume with its tap |
| TapProtocol.TranscriptReads | src/nachos-3.4/code/test/voinuoc.c:55-93 | every volume can be read back from the transcript, and the digit behind it names the tap that the scheduler gave it |
| TapProtocol.FileTellsTaps | src/nachos-3.4/code/test/voinuoc.c:55-93 | after a finished round that was not late, a reader of the file finds every volume with the digit of its tap |
| TapProtocol.NeverStuck | src/nachos-3.4/code/test/voinuoc.c:33-105 | before the round ends some program can move, unless the taps were late |
| TapProtocol.LateIsPossible | src/nachos-3.4/code/test/voinuoc.c:20-29 | nothing stops the taps from being late |
| TapProtocol.LateRoundFails | src/nachos-3.4/code/test/voinuoc.c:33-105 | late taps pour nothing, and with two or more volumes the round never ends |
| TapProtocol.StepsRunOut | src/nachos-3.4/code/test/voinuoc.c:33-105 | every step of every program uses up some of a number of steps left |
| TapProtocol.RunIsBounded | src/nachos-3.4/code/test/main.c:79-133 | no interleaving of a round is longer than seven steps a volume and eleven more |
| TapProtocol.MaximalRun | src/nachos-3.4/code/test/main.c:79-133 | when nothing more can happen the round has ended exactly when the taps were not late or there was one volume; and if not late, semaphores and file are right |
| TapProtocol.RoundsAddLines | src/nachos-3.4/code/test/main.c:60-134 | every round finds its semaphores in what the round before left, and adds exactly its line to the file |

## Left out

- Files.FileHeader.Allocate: sizes above the 126-sector limit are required away; past it the source writes beyond its table.
- FileSystems.FileSystem.Create: sizes above the 126-sector limit are required away, because Allocate does not check the bound and would write past its table; negative sizes likewise.
- Files.OpenFile.ReadAt: negative positions are required away; the source then indexes before its buffer.
- Files.OpenFile.WriteAt: negative positions are required away; the source then indexes before its buffer.
- FileSystems.Reserve: sizes above the 126-sector limit are required away, as for Allocate.
- FileMaps.Serve: create requests above the 126-sector limit are required away, as for Allocate.
- FileMaps.Run: create requests above the 126-sector limit are required away, as for Allocate.
- FileMaps.FormatThenRun: create requests above the 126-sector limit are required away, as for Allocate.
- Files.Clip: position + numBytes is a mathematical sum; the source's 32-bit sum wraps for a buffer of nearly 2 gigabytes.
- FileSystems.FileSystem.WriteFile: the table of open files is not modelled, as for ReadFile.
- FileSystems.FileSystem.ReadFile: FileSystem::Open and its table of open files are not modelled; reading and writing open the header sector found in the directory directly.
- FileMaps.CreateServes: says nothing about the bytes of a new file, because Create leaves what the sectors held.
- AddressSpaces.AddrSpace.constructor: the code segment starts at virtual address 0 with the data right after it, the header is already decoded (magic number and byte order left out), and the sum of the sizes does not wrap around 32 bits.  Requests that fit the 256-bit frame map but not the 128 real frames are required away, because the source then writes past the end of memory.
- AddressSpaces.AllocatePages: requests beyond the real frames are required away, as for the constructor.
- Isolation.RunEvents: the use and dirty bits that accesses set are not part of what it states.
- Isolation.Computer.LaunchProgram: physical frames are never freed, as in the source, so reuse is not claimed; launches that fit the frame map but not the real frames are required away.
- SemTables.STable.Create: names of 50 characters and more are required away, because they overflow the name buffer.
- Simulator.Interrupt.OneTick: the thread switch of a requested yield is not part of the tick; what other threads do before the caller resumes appears as further steps of `Simulator.Run`, changes of mode included.
- Simulator.Run: handlers are arbitrary finite scripts of Schedule and YieldOnReturn calls; totalTicks does not wrap around 32 bits.
- Scheduling.RunKernel: threads have identities that are never reused, and stacks, registers and SWITCH are "the current thread changes".
- Processes.JoinReturnsExitCode: a Join on a child already past ExitWait is not modelled, because the destruction of its control block ends in Thread::Finish, which does not return; slot reuse, `numwait` and the table's own bitmap are left out with it.
- TapProtocol.RoundRestores: volumes are positive and of at most nine digits, as the producer's buffer demands; failing system calls are left out.
- Directories.TableRoundTrip: the padding bytes of a directory entry are written as zeros, where the source writes whatever memory held.
- Translation.Machine.Translate: the TLB mode is not modelled; no kernel code manages it.  The host is little-endian and its char is signed.
- DiskTiming.Disk.Serve: one request at a time, each issued after the one before completed, as the driver's assertion demands.
- Lock, Condition, SynchList, the locking of SynchDisk and the post office: Lock and Condition are empty stubs.
- OneInstruction and the rest of the instruction set; only multiplication is modelled.
- Console, network, host calls, the assembly context switch, debug printing, and the object-file tools.
