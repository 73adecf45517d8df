/** A fixed table of named slots, and the map from names to values that it stands for.  Both the
    semaphore table and the file directory are such tables. */
module NameTables {
  import opened BitMaps

  datatype Slot<K, V> = Empty | Named(name: K, value: V)

  /** What the table says as a map. */
  function MapOf<K, V>(t: seq<Slot<K, V>>): map<K, V> {
    if t == [] then map[]
    else
      var m, last := MapOf(t[..|t| - 1]), t[|t| - 1];
      if last.Named? then m[last.name := last.value] else m
  }

  ghost predicate NamesDistinct<K, V>(t: seq<Slot<K, V>>) {
    forall i, j | 0 <= i < j < |t| :: t[i].Named? && t[j].Named? ==> t[i].name != t[j].name
  }

  function InUse<K, V>(t: seq<Slot<K, V>>): (bits: seq<bool>)
    ensures |bits| == |t|
  {
    seq(|t|, i requires 0 <= i < |t| => t[i].Named?)
  }

  /** With distinct names, the map says exactly what the slots say. */
  lemma {:induction false} MapReadsSlots<K, V>(t: seq<Slot<K, V>>)
    requires NamesDistinct(t)
    ensures forall i | 0 <= i < |t| && t[i].Named? :: t[i].name in MapOf(t) && MapOf(t)[t[i].name] == t[i].value
    ensures forall n | n in MapOf(t) :: exists i | 0 <= i < |t| :: t[i].Named? && t[i].name == n
  {
    if t != [] {
      var n := |t| - 1;
      var rest := t[..n];
      MapReadsSlots(rest);
      forall i | 0 <= i < |t| && t[i].Named?
        ensures t[i].name in MapOf(t) && MapOf(t)[t[i].name] == t[i].value
      {
        if i < n { assert rest[i] == t[i]; }
      }
      forall m | m in MapOf(t)
        ensures exists i | 0 <= i < |t| :: t[i].Named? && t[i].name == m
      {
        if m in MapOf(rest) {
          var i :| 0 <= i < |rest| && rest[i].Named? && rest[i].name == m;
          assert t[i].Named? && t[i].name == m;
        } else {
          assert t[n].Named? && t[n].name == m;
        }
      }
    }
  }

  /** The number of names and the number of clear bits add up to the number of slots. */
  lemma {:induction false} MapCounts<K, V>(t: seq<Slot<K, V>>)
    requires NamesDistinct(t)
    ensures |MapOf(t)| + CountClear(InUse(t)) == |t|
  {
    if t != [] {
      var n := |t| - 1;
      var rest := t[..n];
      MapCounts(rest);
      assert InUse(t)[..n] == InUse(rest);
      MapReadsSlots(rest);
      if t[n].Named? {
        assert t[n].name !in MapOf(rest);
      }
    }
  }

  /** Two maps that say what the same slots say are equal. */
  lemma MapIs<K, V>(t: seq<Slot<K, V>>, m: map<K, V>)
    requires NamesDistinct(t)
    requires forall i | 0 <= i < |t| && t[i].Named? :: t[i].name in m && m[t[i].name] == t[i].value
    requires forall n | n in m :: exists i | 0 <= i < |t| :: t[i].Named? && t[i].name == n
    ensures MapOf(t) == m
  {
    MapReadsSlots(t);
    forall n
      ensures n in MapOf(t) <==> n in m
      ensures n in m ==> MapOf(t)[n] == m[n]
    {
      if n in m {
        var i :| 0 <= i < |t| && t[i].Named? && t[i].name == n;
      }
      if n in MapOf(t) {
        var i :| 0 <= i < |t| && t[i].Named? && t[i].name == n;
      }
    }
  }

  /** Filling an empty slot with a new name adds that name. */
  lemma MapAfterCreate<K, V>(t: seq<Slot<K, V>>, i: nat, name: K, value: V)
    requires NamesDistinct(t) && i < |t| && t[i].Empty? && name !in MapOf(t)
    ensures NamesDistinct(t[i := Named(name, value)])
    ensures MapOf(t[i := Named(name, value)]) == MapOf(t)[name := value]
  {
    MapReadsSlots(t);
    var t' := t[i := Named(name, value)];
    var m := MapOf(t)[name := value];
    forall n | n in m
      ensures exists k | 0 <= k < |t'| :: t'[k].Named? && t'[k].name == n
    {
      if n == name {
        assert t'[i].Named? && t'[i].name == n;
      } else {
        var k :| 0 <= k < |t| && t[k].Named? && t[k].name == n;
        assert t'[k] == t[k];
      }
    }
    MapIs(t', m);
  }

  /** Changing the value in a slot changes the value of that name. */
  lemma MapAfterUpdate<K, V>(t: seq<Slot<K, V>>, i: nat, value: V)
    requires NamesDistinct(t) && i < |t| && t[i].Named?
    ensures NamesDistinct(t[i := Named(t[i].name, value)])
    ensures MapOf(t[i := Named(t[i].name, value)]) == MapOf(t)[t[i].name := value]
  {
    MapReadsSlots(t);
    var t' := t[i := Named(t[i].name, value)];
    var m := MapOf(t)[t[i].name := value];
    forall n | n in m
      ensures exists k | 0 <= k < |t'| :: t'[k].Named? && t'[k].name == n
    {
      if n == t[i].name {
        assert t'[i].Named? && t'[i].name == n;
      } else {
        var k :| 0 <= k < |t| && t[k].Named? && t[k].name == n;
        assert t'[k] == t[k];
      }
    }
    MapIs(t', m);
  }

  /** Emptying a slot takes its name away. */
  lemma MapAfterRemove<K, V>(t: seq<Slot<K, V>>, i: nat)
    requires NamesDistinct(t) && i < |t| && t[i].Named?
    ensures NamesDistinct(t[i := Empty])
    ensures MapOf(t[i := Empty]) == MapOf(t) - {t[i].name}
  {
    MapReadsSlots(t);
    var t' := t[i := Empty];
    var m := MapOf(t) - {t[i].name};
    forall n | n in m
      ensures exists k | 0 <= k < |t'| :: t'[k].Named? && t'[k].name == n
    {
      var k :| 0 <= k < |t| && t[k].Named? && t[k].name == n;
      assert t'[k] == t[k];
    }
    MapIs(t', m);
  }
}
