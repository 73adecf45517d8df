/** The timing model of machine/disk.cc: seek time, rotational delay and the track buffer. */
module DiskTiming {

  const SECTORS_PER_TRACK := 32
  const NUM_SECTORS := 1024
  const ROTATION_TIME := 500
  const SEEK_TIME := 500

  type SectorNumber = s: int | 0 <= s < 1024

  // ---------------------------------------------------------------------------
  // The rotating disk

  /** Sector `s` starts to pass under the head at time `t` and has passed at `t + ROTATION_TIME`. */
  ghost predicate Passes(s: SectorNumber, t: int) {
    0 <= t && t % ROTATION_TIME == 0 && (t / ROTATION_TIME) % SECTORS_PER_TRACK == s % SECTORS_PER_TRACK
  }

  /** The first sector boundary at or after `t`. */
  function RoundUp(t: nat): (r: nat)
    ensures t <= r < t + ROTATION_TIME && r % ROTATION_TIME == 0
  {
    var over := t % ROTATION_TIME;
    if over > 0 then t + (ROTATION_TIME - over) else t
  }

  lemma ModuloDiffLands(to: nat, from: nat)
    ensures var a, b := to % SECTORS_PER_TRACK, from % SECTORS_PER_TRACK;
            var d := if a >= b then a - b else a - b + SECTORS_PER_TRACK;
            && ((a - b) + SECTORS_PER_TRACK) % SECTORS_PER_TRACK == d
            && (from + d) % SECTORS_PER_TRACK == a
  {
    var a, b, q := to % SECTORS_PER_TRACK, from % SECTORS_PER_TRACK, from / SECTORS_PER_TRACK;
    assert from == SECTORS_PER_TRACK * q + b;
    if a >= b {
      Lands(from + (a - b), q, a);
    } else {
      Lands(from + (a - b + SECTORS_PER_TRACK), q + 1, a);
    }
  }

  lemma Lands(x: nat, q: nat, a: nat)
    requires x == SECTORS_PER_TRACK * q + a && a < SECTORS_PER_TRACK
    ensures x % SECTORS_PER_TRACK == a
  {
  }

  function ModuloDiff(to: nat, from: nat): (d: nat)
    ensures d < SECTORS_PER_TRACK
    ensures (from + d) % SECTORS_PER_TRACK == to % SECTORS_PER_TRACK
  {
    ModuloDiffLands(to, from);
    ((to % SECTORS_PER_TRACK - from % SECTORS_PER_TRACK) + SECTORS_PER_TRACK) % SECTORS_PER_TRACK
  }

  /** From a boundary, the next pass of a sector starts after exactly `ModuloDiff` sectors. */
  lemma NextPass(s: SectorNumber, from: nat)
    requires from % ROTATION_TIME == 0
    ensures var t := from + ModuloDiff(s, from / ROTATION_TIME) * ROTATION_TIME;
            Passes(s, t) && forall t' | Passes(s, t') && t' >= from :: t <= t'
  {
    var f := from / ROTATION_TIME;
    var d := ModuloDiff(s, f);
    assert from == f * ROTATION_TIME;
    assert (from + d * ROTATION_TIME) / ROTATION_TIME == f + d;
    forall t' | Passes(s, t') && t' >= from
      ensures from + d * ROTATION_TIME <= t'
    {
      NoEarlierPass(s, f, t' / ROTATION_TIME);
    }
  }

  lemma NoEarlierPass(s: nat, f: nat, k: nat)
    requires f <= k && k % SECTORS_PER_TRACK == s % SECTORS_PER_TRACK
    ensures f + ModuloDiff(s, f) <= k
  {
  }

  // ---------------------------------------------------------------------------
  // The disk head

  function Distance(a: int, b: int): nat { if a < b then b - a else a - b }

  class Disk {
    var lastSector: SectorNumber
    var bufferInit: nat
    /** When the head came to rest on the track it is on. */
    ghost var settled: nat
    /** When the latest request completes: the earliest time the next one may be issued. */
    var busyUntil: nat

    ghost predicate Valid()
      reads this
    {
      bufferInit == RoundUp(settled) && bufferInit <= busyUntil
    }

    constructor ()
      ensures Valid() && lastSector == 0 && bufferInit == 0 && settled == 0 && busyUntil == 0
    {
      lastSector, bufferInit, settled, busyUntil := 0, 0, 0, 0;
    }

    /** How long the seek takes, and how long after it the next sector boundary comes. */
    function TimeToSeek(newSector: SectorNumber, now: nat): (r: (nat, nat))
      reads this
      ensures r.0 == SeekFrom(lastSector, newSector)
      ensures r.0 == 0 <==> newSector / SECTORS_PER_TRACK == lastSector / SECTORS_PER_TRACK
      ensures now + r.0 + r.1 == RoundUp(now + r.0)
    {
      var newTrack := newSector / SECTORS_PER_TRACK;
      var oldTrack := lastSector / SECTORS_PER_TRACK;
      var seek := Distance(newTrack, oldTrack) * SEEK_TIME;
      var over := (now + seek) % ROTATION_TIME;
      (seek, if over > 0 then ROTATION_TIME - over else 0)
    }

    /** May the request be answered from the track buffer? */
    predicate InBuffer(newSector: SectorNumber, writing: bool, now: nat)
      reads this
    {
      var (seek, rotation) := TimeToSeek(newSector, now);
      var timeAfter := now + seek + rotation;
      && !writing && seek == 0
      && (timeAfter - bufferInit) / ROTATION_TIME > ModuloDiff(newSector, bufferInit / ROTATION_TIME)
    }

    function ComputeLatency(newSector: SectorNumber, writing: bool, now: nat): (latency: nat)
      reads this
      ensures latency >= ROTATION_TIME
    {
      var (seek, rotation) := TimeToSeek(newSector, now);
      var timeAfter := now + seek + rotation;
      if InBuffer(newSector, writing, now) then ROTATION_TIME
      else seek + (rotation + ModuloDiff(newSector, timeAfter / ROTATION_TIME) * ROTATION_TIME) + ROTATION_TIME
    }

    /** Without the buffer, the request completes on a sector boundary, right after the first
        complete pass of the sector that starts once the seek is over. */
    lemma MissIsExact(newSector: SectorNumber, writing: bool, now: nat)
      requires !InBuffer(newSector, writing, now)
      ensures var start := now + ComputeLatency(newSector, writing, now) - ROTATION_TIME;
              && start >= now + TimeToSeek(newSector, now).0
              && Passes(newSector, start)
              && forall t | Passes(newSector, t) && t >= now + TimeToSeek(newSector, now).0 :: start <= t
    {
      var (seek, rotation) := TimeToSeek(newSector, now);
      var timeAfter := now + seek + rotation;
      NextPass(newSector, timeAfter);
      forall t | Passes(newSector, t) && t >= now + seek
        ensures t >= timeAfter
      {
        BoundaryNotBefore(now + seek, t);
      }
    }

    /** A read is answered from the buffer exactly when it is on the current track and a complete
        pass of the sector, begun no earlier than the head settled, ends by the next boundary. */
    lemma HitIsExact(newSector: SectorNumber, writing: bool, now: nat)
      requires Valid() && now >= busyUntil
      ensures InBuffer(newSector, writing, now) <==>
              && !writing && newSector / SECTORS_PER_TRACK == lastSector / SECTORS_PER_TRACK
              && PassedBetween(newSector, settled, RoundUp(now))
    {
      var (seek, rotation) := TimeToSeek(newSector, now);
      if !writing && seek == 0 {
        var after := RoundUp(now);
        var d := ModuloDiff(newSector, bufferInit / ROTATION_TIME);
        var t0 := bufferInit + d * ROTATION_TIME;
        NextPass(newSector, bufferInit);
        WholeSectors(bufferInit, after, d);
        if t0 + ROTATION_TIME <= after {
          assert Passes(newSector, t0) && t0 >= settled;
        }
        forall t | Passes(newSector, t) && t >= settled
          ensures t0 <= t
        {
          BoundaryNotBefore(settled, t);
        }
      }
    }

    /** A hit takes the time to transfer one sector. */
    lemma HitTakesOneSector(newSector: SectorNumber, writing: bool, now: nat)
      requires InBuffer(newSector, writing, now)
      ensures ComputeLatency(newSector, writing, now) == 500
    {
    }

    /** On a hit the sector has passed, or is passing right now, since the head settled; it is all
        in the buffer by the time the request completes. */
    lemma HitIsCovered(newSector: SectorNumber, writing: bool, now: nat)
      requires Valid() && now >= busyUntil && InBuffer(newSector, writing, now)
      ensures exists t :: Passes(newSector, t) && settled <= t < now
                          && t + ROTATION_TIME <= now + ComputeLatency(newSector, writing, now)
    {
      HitIsExact(newSector, writing, now);
      var t :| Passes(newSector, t) && t >= settled && t + ROTATION_TIME <= RoundUp(now);
    }

    /** The sector of a hit has passed completely by the time of the request exactly when the buffer
        test also holds with the time of the request in place of the next sector boundary. */
    lemma HitHasPassedExactly(newSector: SectorNumber, writing: bool, now: nat)
      requires Valid() && now >= busyUntil && InBuffer(newSector, writing, now)
      ensures PassedBetween(newSector, settled, now) <==>
              (now - bufferInit) / ROTATION_TIME > ModuloDiff(newSector, bufferInit / ROTATION_TIME)
    {
      var d := ModuloDiff(newSector, bufferInit / ROTATION_TIME);
      var t0 := bufferInit + d * ROTATION_TIME;
      NextPass(newSector, bufferInit);
      WholeSectors(bufferInit, now, d);
      if t0 + ROTATION_TIME <= now {
        assert Passes(newSector, t0) && t0 >= settled;
      }
      forall t | Passes(newSector, t) && t >= settled
        ensures t0 <= t
      {
        BoundaryNotBefore(settled, t);
      }
    }

    method UpdateLast(newSector: SectorNumber, now: nat)
      modifies this`lastSector, this`bufferInit, this`settled
      ensures lastSector == newSector
      ensures var (seek, rotation) := old(TimeToSeek(newSector, now));
              if seek != 0 then settled == now + seek && bufferInit == RoundUp(settled)
              else settled == old(settled) && bufferInit == old(bufferInit)
    {
      var (seek, rotation) := TimeToSeek(newSector, now);
      if seek != 0 {
        bufferInit := now + seek + rotation;
        settled := now + seek;
      }
      lastSector := newSector;
    }

    /** Where the head is, since when it has been on that track, and when the disk is free. */
    ghost function Here(): Head
      reads this
    {
      Head(lastSector, settled, busyUntil)
    }

    /** ReadRequest and WriteRequest: one at a time, each completing when ComputeLatency says. */
    method Serve(newSector: SectorNumber, writing: bool, now: nat) returns (done: nat)
      requires Valid() && now >= busyUntil
      modifies this
      ensures Valid()
      ensures Serves(old(Here()), Request(newSector, writing, now - old(busyUntil)), done, Here())
    {
      HitIsExact(newSector, writing, now);
      if !InBuffer(newSector, writing, now) {
        MissIsExact(newSector, writing, now);
      }
      var ticks := ComputeLatency(newSector, writing, now);
      UpdateLast(newSector, now);
      done := now + ticks;
      busyUntil := done;
    }

    /** Any sequence of requests, each issued some time after the one before it completed: every one of them
        is served on time, from where the one before it left the head. */
    method ServeAll(requests: seq<Request>) returns (done: seq<nat>, ghost heads: seq<Head>)
      requires Valid()
      modifies this
      ensures Valid() && ServesAll(requests, done, heads)
      ensures heads[0] == old(Here()) && heads[|requests|] == Here()
    {
      hide Serves;
      done, heads := [], [Here()];
      for i := 0 to |requests|
        invariant Valid() && ServesAll(requests[..i], done, heads)
        invariant heads[0] == old(Here()) && heads[i] == Here()
      {
        var d := Serve(requests[i].sector, requests[i].writing, busyUntil + requests[i].wait);
        ServesMore(requests[..i], done, heads, requests[i], d, Here());
        done, heads := done + [d], heads + [Here()];
        assert requests[..i + 1] == requests[..i] + [requests[i]];
      }
      assert requests[..|requests|] == requests;
    }
  }

  // ---------------------------------------------------------------------------
  // Sequences of requests

  /** A request for a sector, issued `wait` ticks after the disk became free. */
  datatype Request = Request(sector: SectorNumber, writing: bool, wait: nat)

  /** Where the head is, since when it has been on that track, and when the disk is free. */
  datatype Head = Head(sector: SectorNumber, settled: nat, free: nat)

  /** How long the head takes from one sector's track to another's. */
  function SeekFrom(from: SectorNumber, to: SectorNumber): nat {
    Distance(to / SECTORS_PER_TRACK, from / SECTORS_PER_TRACK) * SEEK_TIME
  }

  /** The seek is the same both ways and takes 500 ticks more for each track farther away. */
  lemma SeekPerTrack(from: SectorNumber, to: SectorNumber, beyond: SectorNumber)
    ensures SeekFrom(from, to) == SeekFrom(to, from)
    ensures to / 32 == from / 32 ==> SeekFrom(from, to) == 0
    ensures to / 32 >= from / 32 && beyond / 32 == to / 32 + 1 ==> SeekFrom(from, beyond) == SeekFrom(from, to) + 500
    ensures to / 32 <= from / 32 && beyond / 32 == to / 32 - 1 ==> SeekFrom(from, beyond) == SeekFrom(from, to) + 500
  {
  }

  /** A request completes on time, and leaves the head on its track, settled anew only after a seek. */
  ghost predicate Serves(h: Head, r: Request, done: nat, h': Head) {
    var at, seek := h.free + r.wait, SeekFrom(h.sector, r.sector);
    && Timely(r.sector, r.writing, at, seek, h.settled, done)
    && h' == Head(r.sector, if seek != 0 then at + seek else h.settled, done)
  }

  ghost predicate ServesAll(requests: seq<Request>, done: seq<nat>, heads: seq<Head>) {
    && |done| == |requests| && |heads| == |requests| + 1
    && forall i | 0 <= i < |requests| :: Serves(heads[i], requests[i], done[i], heads[i + 1])
  }

  lemma ServesMore(requests: seq<Request>, done: seq<nat>, heads: seq<Head>, r: Request, d: nat, h: Head)
    requires ServesAll(requests, done, heads) && Serves(heads[|requests|], r, d, h)
    ensures ServesAll(requests + [r], done + [d], heads + [h])
  {
    hide Serves;
  }

  /** There is one time at which a request is on time. */
  lemma ServesExactly(h: Head, r: Request, d1: nat, h1: Head, d2: nat, h2: Head)
    requires Serves(h, r, d1, h1) && Serves(h, r, d2, h2)
    ensures d1 == d2 && h1 == h2
  {
    hide Passes, PassedBetween;
  }

  /** So the requests and where the head starts fix every completion time. */
  lemma {:induction false} TimesAreFixed(requests: seq<Request>, d1: seq<nat>, heads1: seq<Head>, d2: seq<nat>,
                                         heads2: seq<Head>)
    requires ServesAll(requests, d1, heads1) && ServesAll(requests, d2, heads2) && heads1[0] == heads2[0]
    ensures d1 == d2 && heads1 == heads2
  {
    hide Serves;
    if requests != [] {
      var n := |requests| - 1;
      TimesAreFixed(requests[..n], d1[..n], heads1[..n + 1], d2[..n], heads2[..n + 1]);
      assert heads1[n] == heads1[..n + 1][n] == heads2[..n + 1][n] == heads2[n];
      ServesExactly(heads1[n], requests[n], d1[n], heads1[n + 1], d2[n], heads2[n + 1]);
      assert d1 == d1[..n] + [d1[n]] && d2 == d2[..n] + [d2[n]];
      assert heads1 == heads1[..n + 1] + [heads1[n + 1]] && heads2 == heads2[..n + 1] + [heads2[n + 1]];
    }
  }

  /** A request completes either one sector time after it was issued, a read of the current track
      whose sector passes completely between the head's settling and the next boundary; or right
      after the first complete pass of its sector that starts once the seek is over. */
  ghost predicate Timely(sector: SectorNumber, writing: bool, at: nat, seek: nat, settled: nat, done: nat) {
    if !writing && seek == 0 && PassedBetween(sector, settled, RoundUp(at))
    then done == at + ROTATION_TIME
    else done - ROTATION_TIME >= at + seek && Passes(sector, done - ROTATION_TIME)
         && forall t | Passes(sector, t) && t >= at + seek :: done - ROTATION_TIME <= t
  }

  ghost predicate PassedBetween(sector: SectorNumber, from: int, to: int) {
    exists t :: Passes(sector, t) && t >= from && t + ROTATION_TIME <= to
  }

  lemma BoundaryNotBefore(from: nat, t: nat)
    requires t >= from && t % ROTATION_TIME == 0
    ensures t >= RoundUp(from)
  {
  }

  lemma WholeSectors(from: nat, to: nat, d: nat)
    requires from <= to
    ensures (to - from) / ROTATION_TIME > d <==> from + d * ROTATION_TIME + ROTATION_TIME <= to
  {
  }

  /** "Has passed completely" is not true at the moment of the request: at any time before one sector has
      passed, a read of sector 0 is a hit although that sector is still passing. */
  lemma HitBeforeThePassEnds(disk: Disk, now: nat)
    requires disk.Valid() && disk.lastSector == 0 && disk.settled == 0 && disk.busyUntil == 0
    requires 0 < now < ROTATION_TIME
    ensures disk.InBuffer(0, false, now)
    ensures !PassedBetween(0, disk.settled, now)
  {
    assert disk.bufferInit == 0;
  }
}
