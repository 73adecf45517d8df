/** The singly linked list of threads/list.cc, with its `first` and `last` pointers.
    Its abstract value is the sequence of (key, item) pairs from front to back. */
module Lists {
  import opened Common

  datatype Item<T> = Item(key: int, item: T)

  /** Where SortedInsert puts a key: before the first larger key at or after `from`, or at the end. */
  function Slot<T>(s: seq<Item<T>>, key: int, from: nat := 0): (p: nat)
    requires from <= |s|
    ensures from <= p <= |s|
    decreases |s| - from
  {
    if from == |s| || key < s[from].key then from else Slot(s, key, from + 1)
  }

  function Inserted<T>(s: seq<Item<T>>, x: Item<T>): (r: seq<Item<T>>)
    ensures |r| == |s| + 1
  {
    var p := Slot(s, x.key);
    s[..p] + [x] + s[p..]
  }

  ghost predicate Sorted<T>(s: seq<Item<T>>) {
    forall i, j | 0 <= i < j < |s| :: s[i].key <= s[j].key
  }

  /** Everything before the slot is at most the key, and the item at the slot is larger. */
  lemma {:induction false} SlotSplits<T>(s: seq<Item<T>>, key: int, from: nat)
    requires from <= |s|
    ensures var p := Slot(s, key, from);
            && (forall i | from <= i < p :: s[i].key <= key)
            && (p < |s| ==> key < s[p].key)
    decreases |s| - from
  {
    if from < |s| && key >= s[from].key { SlotSplits(s, key, from + 1); }
  }

  lemma InsertedAt<T>(s: seq<Item<T>>, x: Item<T>, p: nat)
    requires Slot(s, x.key, 0) == p
    ensures Inserted(s, x) == s[..p] + [x] + s[p..]
    ensures p == |s| ==> Inserted(s, x) == s + [x]
  {
  }

  lemma InsertedKeepsOrder<T>(s: seq<Item<T>>, x: Item<T>)
    requires Sorted(s)
    ensures Sorted(Inserted(s, x))
  {
    hide Slot;
    SlotSplits(s, x.key, 0);
    var p := Slot(s, x.key);
    var r := Inserted(s, x);
    assert forall i | 0 <= i < p :: r[i] == s[i];
    assert forall i | p < i < |r| :: r[i] == s[i - 1];
    assert r[p] == x;
  }

  /** Insertion keeps a sorted list sorted, adds exactly the new item, and puts it after
      every item with the same key. */
  lemma InsertedIsSorted<T>(s: seq<Item<T>>, x: Item<T>)
    requires Sorted(s)
    ensures Sorted(Inserted(s, x))
    ensures multiset(Inserted(s, x)) == multiset(s) + multiset{x}
    ensures forall i | 0 <= i < |s| && s[i].key == x.key :: i < Slot(s, x.key)
  {
    hide Inserted, Slot;
    InsertedKeepsOrder(s, x);
    InsertedAddsOne(s, x);
    SlotSplits(s, x.key, 0);
  }

  lemma InsertedAddsOne<T>(s: seq<Item<T>>, x: Item<T>)
    ensures multiset(Inserted(s, x)) == multiset(s) + multiset{x}
  {
    hide Slot;
    var p := Slot(s, x.key);
    assert s == s[..p] + s[p..];
  }

  class ListElement<T> {
    var item: T
    var key: int
    var next: ListElement?<T>

    constructor (itemPtr: T, sortKey: int)
      ensures item == itemPtr && key == sortKey && next == null
    {
      item, key, next := itemPtr, sortKey, null;
    }
  }

  /** The element after position `i`, or null at the end. */
  ghost function Follower<T>(spine: seq<ListElement<T>>, i: nat): ListElement?<T> {
    if i + 1 < |spine| then spine[i + 1] else null
  }

  /** Positions and distinctness after `e` goes in behind position `k`. */
  lemma SpineWith<T>(o: seq<ListElement<T>>, k: nat, e: ListElement<T>)
    requires k < |o| && e !in o
    requires forall i, j | 0 <= i < j < |o| :: o[i] != o[j]
    ensures var n := o[..k + 1] + [e] + o[k + 1..];
            && (forall i | 0 <= i <= k :: n[i] == o[i]) && n[k + 1] == e
            && (forall i | k + 1 < i < |n| :: n[i] == o[i - 1])
            && (forall i, j | 0 <= i < j < |n| :: n[i] != n[j])
  {
  }

  /** What follows each position after `e` goes in behind position `k`. */
  lemma FollowerWith<T>(o: seq<ListElement<T>>, k: nat, e: ListElement<T>, i: nat)
    requires k < |o| && i <= |o|
    ensures Follower(o[..k + 1] + [e] + o[k + 1..], i)
            == if i < k then Follower(o, i) else if i == k then e else Follower(o, i - 1)
  {
  }

  class List<T> {
    var first: ListElement?<T>
    var last: ListElement?<T>
    ghost var spine: seq<ListElement<T>>
    ghost var contents: seq<Item<T>>

    /** `first`, the `next` pointers and `last` thread exactly the elements of the spine, and
        those elements hold the contents. */
    ghost predicate Valid()
      reads this, spine
    {
      && (forall i, j | 0 <= i < j < |spine| :: spine[i] != spine[j])
      && first == (if spine == [] then null else spine[0])
      && last == (if spine == [] then null else spine[|spine| - 1])
      && (forall i | 0 <= i < |spine| :: spine[i].next == Follower(spine, i))
      && |contents| == |spine|
      && (forall i | 0 <= i < |spine| :: contents[i] == Item(spine[i].key, spine[i].item))
    }

    constructor ()
      ensures Valid() && contents == [] && spine == []
    {
      first, last, spine, contents := null, null, [], [];
    }

    method IsEmpty() returns (r: bool)
      requires Valid()
      ensures r <==> contents == []
    {
      r := first == null;
    }

    method Append(item: T)
      requires Valid()
      modifies this, spine
      ensures Valid() && fresh(set e | e in spine && e !in old(spine))
      ensures contents == old(contents) + [Item(0, item)]
    {
      var element := new ListElement(item, 0);
      if first == null {
        LinkOnly(element);
      } else {
        LinkLast(element);
      }
    }

    method Prepend(item: T)
      requires Valid()
      modifies this, spine
      ensures Valid() && fresh(set e | e in spine && e !in old(spine))
      ensures contents == [Item(0, item)] + old(contents)
    {
      var element := new ListElement(item, 0);
      if first == null {
        LinkOnly(element);
      } else {
        LinkFirst(element);
      }
    }

    /** Makes an unlinked element the only one. */
    method LinkOnly(element: ListElement<T>)
      requires Valid() && spine == [] && element.next == null
      modifies this
      ensures Valid() && spine == [element] && contents == [Item(element.key, element.item)]
    {
      first, last := element, element;
      spine, contents := [element], [Item(element.key, element.item)];
    }

    /** Puts an unlinked element before the first one. */
    method LinkFirst(element: ListElement<T>)
      requires Valid() && spine != [] && element !in spine
      modifies this, element
      ensures Valid() && spine == [element] + old(spine)
      ensures contents == [Item(old(element.key), old(element.item))] + old(contents)
    {
      element.next := first;
      first := element;
      spine, contents := [element] + spine, [Item(element.key, element.item)] + contents;
      forall i | 1 <= i < |spine|
        ensures spine[i].next == Follower(spine, i)
      {
        assert spine[i] == old(spine)[i - 1] && Follower(spine, i) == Follower(old(spine), i - 1);
      }
    }

    /** Puts an unlinked element after the last one. */
    method LinkLast(element: ListElement<T>)
      requires Valid() && spine != [] && element !in spine && element.next == null
      modifies this, last
      ensures Valid() && spine == old(spine) + [element]
      ensures contents == old(contents) + [Item(element.key, element.item)]
    {
      last.next := element;
      last := element;
      spine, contents := spine + [element], contents + [Item(element.key, element.item)];
    }

    /** Puts an unlinked element after the element `ptr`, which is not the last. */
    method LinkAfter(ptr: ListElement<T>, element: ListElement<T>, ghost k: nat)
      requires Valid() && k + 1 < |spine| && spine[k] == ptr && element !in spine
      modifies this, ptr, element
      ensures Valid() && spine == old(spine)[..k + 1] + [element] + old(spine)[k + 1..]
      ensures contents == old(contents)[..k + 1] + [Item(old(element.key), old(element.item))] + old(contents)[k + 1..]
    {
      hide Follower;
      ghost var o := spine;
      SpineWith(o, k, element);
      element.next := ptr.next;
      ptr.next := element;
      spine := o[..k + 1] + [element] + o[k + 1..];
      contents := contents[..k + 1] + [Item(element.key, element.item)] + contents[k + 1..];
      forall i | 0 <= i < |spine|
        ensures spine[i].next == Follower(spine, i)
      {
        FollowerWith(o, k, element, i);
        assert i < k ==> spine[i].next == Follower(o, i);
        assert i > k + 1 ==> spine[i].next == Follower(o, i - 1);
      }
    }

    /** Walks to the first larger key and links the new element in front of it. */
    method SortedInsert(item: T, sortKey: int)
      requires Valid()
      modifies this, spine
      ensures Valid() && fresh(set e | e in spine && e !in old(spine))
      ensures contents == Inserted(old(contents), Item(sortKey, item))
    {
      var element := new ListElement(item, sortKey);
      if first == null {
        LinkOnly(element);
      } else if sortKey < first.key {
        LinkFirst(element);
      } else {
        LinkInOrder(element);
      }
    }

    /** Links an unlinked element, whose key is not below the first, in front of the first larger key. */
    method LinkInOrder(element: ListElement<T>)
      requires Valid() && spine != [] && element !in spine && element.next == null && spine[0].key <= element.key
      modifies this, spine, element
      ensures Valid() && forall e | e in spine :: e == element || e in old(spine)
      ensures contents == Inserted(old(contents), Item(old(element.key), old(element.item)))
    {
      hide Slot, Inserted;
      var ptr, k := WalkTo(element.key);
      InsertedAt(contents, Item(element.key, element.item), k + 1);
      if ptr.next != null {
        LinkAfter(ptr, element, k);
      } else {
        LinkLast(element);
      }
    }

    /** The last element whose successors, if any, start with a larger key. */
    method WalkTo(key: int) returns (ptr: ListElement<T>, ghost k: nat)
      requires Valid() && spine != [] && spine[0].key <= key
      ensures k < |spine| && ptr == spine[k] && Slot(contents, key, 0) == k + 1
    {
      ptr, k := first, 0;
      while ptr.next != null && key >= ptr.next.key
        invariant 0 <= k < |spine| && ptr == spine[k]
        invariant Slot(contents, key, 0) == Slot(contents, key, k + 1)
        decreases |spine| - k
      {
        ptr := ptr.next;
        k := k + 1;
      }
    }

    /** Takes the front element off, with its key, or nothing from an empty list. */
    method SortedRemove() returns (r: Option<Item<T>>)
      requires Valid()
      modifies this
      ensures Valid() && forall e | e in spine :: e in old(spine)
      ensures old(contents) == [] ==> r == None && contents == []
      ensures old(contents) != [] ==> r == Some(old(contents)[0]) && contents == old(contents)[1..]
    {
      if first == null {
        return None;
      }
      var element := first;
      r := Some(Item(element.key, element.item));
      if first == last {
        first, last := null, null;
      } else {
        first := element.next;
      }
      spine, contents := spine[1..], contents[1..];
      forall i | 0 <= i < |spine|
        ensures spine[i].next == Follower(spine, i)
      {
        assert spine[i] == old(spine)[i + 1] && Follower(spine, i) == Follower(old(spine), i + 1);
      }
    }
  }

  // ---------------------------------------------------------------------------
  // Several lists side by side

  /** The items without their keys. */
  ghost function Items<T>(s: seq<Item<T>>): (r: seq<T>)
    ensures |r| == |s|
  {
    seq(|s|, i requires 0 <= i < |s| => s[i].item)
  }

  /** The list is valid, made of objects in `own`, and holds these items from front to back. */
  ghost predicate Holds<T>(list: List<T>, items: seq<T>, own: set<object>)
    reads own
  {
    && list in own && (forall e | e in list.spine :: e in own)
    && list.Valid() && items == Items(list.contents)
  }

  /** The same, with the keys. */
  ghost predicate Stores<T>(list: List<T>, contents: seq<Item<T>>, own: set<object>)
    reads own
  {
    list in own && (forall e | e in list.spine :: e in own) && list.Valid() && contents == list.contents
  }

  method InsertInto<T>(list: List<T>, item: T, key: int, ghost contents: seq<Item<T>>, ghost own: set<object>)
    returns (ghost own': set<object>)
    requires Stores(list, contents, own)
    modifies own
    ensures Stores(list, Inserted(contents, Item(key, item)), own') && own <= own' && fresh(own' - own)
  {
    hide List.Valid, Inserted;
    list.SortedInsert(item, key);
    own' := own + set e | e in list.spine;
  }

  method TakeFrom<T>(list: List<T>, ghost contents: seq<Item<T>>, ghost own: set<object>) returns (r: Option<Item<T>>)
    requires Stores(list, contents, own)
    modifies own
    ensures contents == [] ==> r == None && Stores(list, contents, own)
    ensures contents != [] ==> r == Some(contents[0]) && Stores(list, contents[1..], own)
  {
    hide List.Valid;
    r := list.SortedRemove();
  }

  /** Lists that share nothing hold these items; list `k` is made of the objects in `owns[k]`. */
  ghost predicate AllHold<T>(lists: seq<List<T>>, held: seq<seq<T>>, owns: seq<set<object>>, all: set<object>)
    reads all
  {
    && |held| == |lists| == |owns|
    && (forall k | 0 <= k < |owns| :: owns[k] <= all)
    && (forall j, k | 0 <= j < k < |owns| :: owns[j] !! owns[k])
    && (forall k | 0 <= k < |lists| :: Holds(lists[k], held[k], owns[k]))
  }

  method AppendTo<T>(list: List<T>, item: T, ghost items: seq<T>, ghost own: set<object>)
    returns (ghost own': set<object>)
    requires Holds(list, items, own)
    modifies own
    ensures Holds(list, items + [item], own') && own <= own' && fresh(own' - own)
  {
    hide List.Valid;
    ghost var was := list.contents;
    list.Append(item);
    assert Items(list.contents) == Items(was) + [item];
    own' := own + set e | e in list.spine;
  }

  method RemoveFrom<T>(list: List<T>, ghost items: seq<T>, ghost own: set<object>) returns (r: Option<T>)
    requires Holds(list, items, own)
    modifies own
    ensures items == [] ==> r == None && Holds(list, items, own)
    ensures items != [] ==> r == Some(items[0]) && Holds(list, items[1..], own)
  {
    hide List.Valid;
    ghost var was := list.contents;
    var front := list.SortedRemove();
    if front == None {
      return None;
    }
    assert Items(list.contents) == Items(was)[1..];
    return Some(front.value.item);
  }

  /** Appends to one of several lists; the others keep what they hold. */
  method Enqueue<T>(list: List<T>, item: T, ghost lists: seq<List<T>>, ghost k: nat, ghost held: seq<seq<T>>,
                    ghost owns: seq<set<object>>, ghost all: set<object>)
    returns (ghost owns': seq<set<object>>, ghost all': set<object>)
    requires AllHold(lists, held, owns, all) && k < |lists| && lists[k] == list
    modifies all
    ensures AllHold(lists, held[k := held[k] + [item]], owns', all') && all <= all' && fresh(all' - all)
  {
    hide Holds;
    ghost var own := AppendTo(list, item, held[k], owns[k]);
    owns', all' := owns[k := own], all + own;
    forall j | 0 <= j < |lists| && j != k
      ensures Holds(lists[j], held[j], owns[j]) && owns[j] !! own
    {
      assert owns[j] !! owns[k];
    }
  }

  /** Takes the front item off one of several lists, if it has any. */
  method Dequeue<T>(list: List<T>, ghost lists: seq<List<T>>, ghost k: nat, ghost held: seq<seq<T>>,
                    ghost owns: seq<set<object>>, ghost all: set<object>) returns (r: Option<T>)
    requires AllHold(lists, held, owns, all) && k < |lists| && lists[k] == list
    modifies all
    ensures held[k] == [] ==> r == None && AllHold(lists, held, owns, all)
    ensures held[k] != [] ==> r == Some(held[k][0]) && AllHold(lists, held[k := held[k][1..]], owns, all)
  {
    hide Holds;
    r := RemoveFrom(list, held[k], owns[k]);
    forall j | 0 <= j < |lists| && j != k
      ensures Holds(lists[j], held[j], owns[j])
    {
      assert owns[j] !! owns[k];
    }
  }

  /** New empty lists. */
  method EmptyLists<T>(n: nat) returns (lists: seq<List<T>>, ghost owns: seq<set<object>>, ghost all: set<object>)
    ensures |lists| == n && fresh(all) && AllHold(lists, seq(n, k => []), owns, all)
  {
    lists, owns, all := [], [], {};
    while |lists| < n
      invariant |lists| == |owns| <= n && fresh(all)
      invariant forall k | 0 <= k < |lists| :: owns[k] == {lists[k]} <= all && Holds(lists[k], [], owns[k])
      invariant forall j, k | 0 <= j < k < |lists| :: lists[j] != lists[k]
    {
      hide Holds;
      var list := EmptyList<T>();
      lists, owns, all := lists + [list], owns + [{list}], all + {list};
    }
  }

  method EmptyList<T>() returns (list: List<T>)
    ensures fresh(list) && Holds(list, [], {list})
  {
    list := new List();
  }
}
