/** The directory of filesys/directory.cc: a fixed table of (in use, header sector, name)
    entries, searched linearly and stored as the contents of a file. */
module Directories {
  import opened Words

  const FILE_NAME_MAX_LEN := 9
  const ENTRY_SIZE := 20

  // ---------------------------------------------------------------------------
  // C strings, compared and copied up to nine characters

  /** Character `i` of a C string: the terminator follows the last character. */
  function CharAt(s: seq<Byte>, i: nat): Byte {
    if i < |s| then s[i] else 0
  }

  /** `strncmp(a, b, 9) == 0`, from character `i` on. */
  predicate SameUpTo9(a: seq<Byte>, b: seq<Byte>, i: nat := 0)
    requires i <= FILE_NAME_MAX_LEN
    decreases FILE_NAME_MAX_LEN - i
  {
    i == FILE_NAME_MAX_LEN
    || (CharAt(a, i) == CharAt(b, i) && (CharAt(a, i) == 0 || SameUpTo9(a, b, i + 1)))
  }

  /** The part of a name that the directory can tell apart: what precedes the terminator,
      and at most nine characters of that. */
  function Key(s: seq<Byte>, i: nat := 0): (k: seq<Byte>)
    requires i <= FILE_NAME_MAX_LEN
    decreases FILE_NAME_MAX_LEN - i
  {
    if i == FILE_NAME_MAX_LEN || CharAt(s, i) == 0 then [] else [CharAt(s, i)] + Key(s, i + 1)
  }

  /** `strncmp` compares keys. */
  lemma {:induction false} SameIffKeysEqual(a: seq<Byte>, b: seq<Byte>, i: nat)
    requires i <= FILE_NAME_MAX_LEN
    ensures SameUpTo9(a, b, i) <==> Key(a, i) == Key(b, i)
    decreases FILE_NAME_MAX_LEN - i
  {
    if i < FILE_NAME_MAX_LEN && CharAt(a, i) != 0 && CharAt(b, i) != 0 {
      SameIffKeysEqual(a, b, i + 1);
      assert Key(a, i)[0] == CharAt(a, i) && Key(a, i)[1..] == Key(a, i + 1);
      assert Key(b, i)[0] == CharAt(b, i) && Key(b, i)[1..] == Key(b, i + 1);
    }
  }

  /** `strncpy(buf, s, 9)` into a ten-byte buffer: characters up to the terminator, then zeros;
      the tenth byte is left alone. */
  function Copied(buf: seq<Byte>, s: seq<Byte>): (r: seq<Byte>)
    requires |buf| == 10
    ensures |r| == 10
  {
    var k := Key(s);
    seq(10, i requires 0 <= i < 10 => if i < |k| then k[i] else if i < 9 then 0 else buf[9])
  }

  lemma {:induction false} KeyShape(s: seq<Byte>, i: nat)
    requires i <= FILE_NAME_MAX_LEN
    ensures |Key(s, i)| <= FILE_NAME_MAX_LEN - i
    ensures forall j | 0 <= j < |Key(s, i)| :: Key(s, i)[j] == CharAt(s, i + j) != 0
    ensures i + |Key(s, i)| < FILE_NAME_MAX_LEN ==> CharAt(s, i + |Key(s, i)|) == 0
    decreases FILE_NAME_MAX_LEN - i
  {
    hide CharAt;
    if i < FILE_NAME_MAX_LEN && CharAt(s, i) != 0 {
      KeyShape(s, i + 1);
      var key, rest := Key(s, i), Key(s, i + 1);
      assert key == [CharAt(s, i)] + rest;
      forall j | 0 <= j < |key|
        ensures key[j] == CharAt(s, i + j) != 0
      {
        if j > 0 { assert key[j] == rest[j - 1] == CharAt(s, i + 1 + (j - 1)); }
      }
    }
  }

  lemma {:induction false} KeyOfPrefix(s: seq<Byte>, k: seq<Byte>, i: nat)
    requires i <= |k| <= FILE_NAME_MAX_LEN
    requires forall j | 0 <= j < |k| :: CharAt(s, j) == k[j] != 0
    requires |k| < FILE_NAME_MAX_LEN ==> CharAt(s, |k|) == 0
    ensures Key(s, i) == k[i..]
    decreases |k| - i
  {
    if i < |k| {
      KeyOfPrefix(s, k, i + 1);
      assert k[i..] == [k[i]] + k[i + 1..];
    }
  }

  /** A name copied into an entry keeps its key. */
  lemma KeyOfCopied(buf: seq<Byte>, s: seq<Byte>)
    requires |buf| == 10
    ensures Key(Copied(buf, s)) == Key(s)
  {
    KeyShape(s, 0);
    KeyOfPrefix(Copied(buf, s), Key(s), 0);
  }

  // ---------------------------------------------------------------------------
  // Entries and their memory image

  type EntryName = n: seq<Byte> | |n| == 10 witness seq(10, i => 0)

  datatype Entry = Entry(inUse: bool, sector: Int32, name: EntryName)

  function EncodeEntry(e: Entry): (bs: seq<Byte>)
    ensures |bs| == ENTRY_SIZE
  {
    var u := Unsigned(e.sector);
    [if e.inUse then 1 else 0, 0, 0, 0] + [Digit(u, 0), Digit(u, 1), Digit(u, 2), Digit(u, 3)] + e.name + [0, 0]
  }

  function DecodeEntry(bs: seq<Byte>): Entry
    requires |bs| == ENTRY_SIZE
  {
    Entry(bs[0] != 0, Signed(Pattern(bs[4], bs[5], bs[6], bs[7])), bs[8..18])
  }

  lemma EntryRoundTrip(e: Entry)
    ensures DecodeEntry(EncodeEntry(e)) == e
  {
    PatternOfDigits(Unsigned(e.sector));
    SignedUnsigned(e.sector);
    assert EncodeEntry(e)[8..18] == e.name;
  }

  /** Where the fields of an entry are in its image. */
  lemma EntryLayout(e: Entry)
    ensures var bs := EncodeEntry(e);
            bs[0] == (if e.inUse then 1 else 0) && bs[4..8] == Image4(Unsigned(e.sector)) && bs[8..18] == e.name
  {
  }

  function EncodeTable(t: seq<Entry>): (bs: seq<Byte>)
    ensures |bs| == ENTRY_SIZE * |t|
  {
    seq(ENTRY_SIZE * |t|, i requires 0 <= i < ENTRY_SIZE * |t| => EncodeEntry(t[i / ENTRY_SIZE])[i % ENTRY_SIZE])
  }

  function DecodeTable(bs: seq<Byte>): (t: seq<Entry>)
    ensures |t| == |bs| / ENTRY_SIZE
  {
    seq(|bs| / ENTRY_SIZE, i requires 0 <= i < |bs| / ENTRY_SIZE =>
      DecodeEntry(bs[ENTRY_SIZE * i..ENTRY_SIZE * i + ENTRY_SIZE]))
  }

  lemma EntryIndex(i: nat, k: nat)
    requires k < ENTRY_SIZE
    ensures (ENTRY_SIZE * i + k) / ENTRY_SIZE == i && (ENTRY_SIZE * i + k) % ENTRY_SIZE == k
  {
  }

  lemma EntryImage(t: seq<Entry>, i: nat)
    requires i < |t|
    ensures EncodeTable(t)[ENTRY_SIZE * i..ENTRY_SIZE * i + ENTRY_SIZE] == EncodeEntry(t[i])
  {
    forall k | 0 <= k < ENTRY_SIZE
      ensures EncodeTable(t)[ENTRY_SIZE * i + k] == EncodeEntry(t[i])[k]
    {
      EntryIndex(i, k);
    }
  }

  /** A directory read back from the file it was written to is the same directory. */
  lemma TableRoundTrip(t: seq<Entry>)
    ensures DecodeTable(EncodeTable(t)) == t
  {
    forall i | 0 <= i < |t|
      ensures DecodeTable(EncodeTable(t))[i] == t[i]
    {
      EntryImage(t, i);
      EntryRoundTrip(t[i]);
    }
  }

  // ---------------------------------------------------------------------------
  // Lookup

  /** Entry `i` is in use under the name `name`. */
  predicate Matches(t: seq<Entry>, i: nat, name: seq<Byte>)
    requires i < |t|
  {
    t[i].inUse && Key(t[i].name) == Key(name)
  }

  ghost predicate Listed(t: seq<Entry>, name: seq<Byte>) {
    exists i | 0 <= i < |t| :: Matches(t, i, name)
  }

  ghost predicate HasRoom(t: seq<Entry>) {
    exists i | 0 <= i < |t| :: !t[i].inUse
  }

  /** No two entries in use share a key. */
  ghost predicate KeysDistinct(t: seq<Entry>) {
    forall i, j | 0 <= i < j < |t| :: t[i].inUse && t[j].inUse ==> Key(t[i].name) != Key(t[j].name)
  }

  /** `t'` is `t` with the free entry `i` now naming `name`. */
  ghost predicate Added(t: seq<Entry>, t': seq<Entry>, i: nat, name: seq<Byte>, sector: int) {
    && i < |t| == |t'|
    && !t[i].inUse
    && t'[i].inUse && t'[i].sector == sector && Key(t'[i].name) == Key(name)
    && t' == t[i := t'[i]]
  }

  class Directory {
    const table: array<Entry>

    /** A new directory has no entry in use; the other fields hold whatever memory held. */
    constructor (size: nat)
      ensures fresh(table) && table.Length == size
      ensures forall i | 0 <= i < size :: !table[i].inUse
    {
      table := new Entry[size];
      new;
      for i := 0 to size
        invariant forall j | 0 <= j < i :: !table[j].inUse
      {
        table[i] := table[i].(inUse := false);
      }
    }

    /** The first entry with the given name, or -1 when there is none. */
    method FindIndex(name: seq<Byte>) returns (r: int)
      ensures r == -1 <==> !Listed(table[..], name)
      ensures r != -1 ==> 0 <= r < table.Length && Matches(table[..], r, name)
      ensures r != -1 ==> forall i | 0 <= i < r :: !Matches(table[..], i, name)
    {
      var i := 0;
      while i < table.Length
        invariant 0 <= i <= table.Length
        invariant forall j | 0 <= j < i :: !Matches(table[..], j, name)
      {
        SameIffKeysEqual(table[i].name, name, 0);
        if table[i].inUse && SameUpTo9(table[i].name, name) {
          assert Matches(table[..], i, name);
          return i;
        }
        i := i + 1;
      }
      return -1;
    }

    /** The header sector stored under the given name, or -1 when there is none. */
    method Find(name: seq<Byte>) returns (r: int)
      ensures !Listed(table[..], name) ==> r == -1
      ensures Listed(table[..], name) ==> exists i | 0 <= i < table.Length ::
                Matches(table[..], i, name) && r == table[i].sector
    {
      var i := FindIndex(name);
      if i != -1 {
        return table[i].sector;
      }
      return -1;
    }

    /** Succeeds exactly when the name is new and an entry is free; the first free entry takes it. */
    method Add(name: seq<Byte>, newSector: Int32) returns (ok: bool, ghost at: nat)
      modifies table
      ensures ok <==> !Listed(old(table[..]), name) && HasRoom(old(table[..]))
      ensures !ok ==> table[..] == old(table[..])
      ensures ok ==> Added(old(table[..]), table[..], at, name, newSector)
      ensures ok ==> forall j | 0 <= j < at :: old(table[..])[j].inUse
    {
      at := 0;
      var found := FindIndex(name);
      if found != -1 {
        return false, 0;
      }
      var i := 0;
      while i < table.Length
        invariant 0 <= i <= table.Length
        invariant forall j | 0 <= j < i :: table[j].inUse
        invariant table[..] == old(table[..])
      {
        if !table[i].inUse {
          KeyOfCopied(table[i].name, name);
          ghost var t := table[..];
          assert HasRoom(t);
          table[i] := Entry(true, newSector, Copied(table[i].name, name));
          assert table[..] == t[i := table[i]];
          return true, i;
        }
        i := i + 1;
      }
      return false, 0;
    }

    /** Frees the first entry with the given name. */
    method Remove(name: seq<Byte>) returns (ok: bool, ghost at: nat)
      modifies table
      ensures ok <==> Listed(old(table[..]), name)
      ensures !ok ==> table[..] == old(table[..])
      ensures ok ==> at < table.Length && Matches(old(table[..]), at, name)
      ensures ok ==> table[..] == old(table[..])[at := old(table[..])[at].(inUse := false)]
    {
      var i := FindIndex(name);
      if i == -1 {
        return false, 0;
      }
      table[i] := table[i].(inUse := false);
      return true, i;
    }
  }
}
