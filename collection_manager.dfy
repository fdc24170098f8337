/** The sorted collection of CollectionManager.kt: a list kept ordered by
    `compareTo`, the mutations that keep it so, the public entry points that
    do not, and the batch ("all changes") channel. */
module Collections {
  import opened Optional
  import opened Observables

  /** A record held by a collection. `compareTo` compares `key` only; the
      data-class equality used by `List.remove` and `contains` compares all
      fields. `id` is the remote document id (`FireObject._id`). */
  datatype Item = Item(key: int, id: string, payload: int)

  /** Strictly increasing under `compareTo`: sorted and no two elements
      comparing equal. */
  ghost predicate Sorted(s: seq<Item>) {
    forall i, j :: 0 <= i < j < |s| ==> s[i].key < s[j].key
  }

  /** Some element compares equal to a record of key `k`. */
  ghost predicate HasKey(s: seq<Item>, k: int) {
    exists j :: 0 <= j < |s| && s[j].key == k
  }

  /** Number of elements that compare less than key `k`. */
  function CountBelow(s: seq<Item>, k: int): nat {
    if s == [] then 0 else (if s[0].key < k then 1 else 0) + CountBelow(s[1..], k)
  }

  /** `List.binarySearch` (inclusive `low`/`high`, probing at the middle),
      answering the index of an equal element or the insertion point. */
  function Search(s: seq<Item>, v: Item, low: int, high: int): (r: int)
    requires 0 <= low <= high + 1 <= |s|
    requires Sorted(s) ==> (forall j :: 0 <= j < low ==> s[j].key < v.key)
    requires Sorted(s) ==> (forall j :: high < j < |s| ==> v.key < s[j].key)
    ensures low <= r <= high + 1
    ensures Sorted(s) ==> (forall j :: 0 <= j < r ==> s[j].key < v.key)
    ensures Sorted(s) ==> (forall j :: r <= j < |s| ==> v.key <= s[j].key)
    decreases high + 1 - low
  {
    if low > high then low
    else
      var mid := (low + high) / 2;
      if s[mid].key < v.key then Search(s, v, mid + 1, high)
      else if s[mid].key > v.key then Search(s, v, low, mid - 1)
      else mid
  }

  /** `insertionIndexOf`: on a sorted list, everything before the answer
      compares less than `v`, everything from it on compares at least
      equal, and an element equal to `v` exists exactly when it sits at the
      answer. */
  function InsertionIndexOf(s: seq<Item>, v: Item): (i: nat)
    ensures i <= |s|
    ensures Sorted(s) ==> (forall j :: 0 <= j < i ==> s[j].key < v.key)
    ensures Sorted(s) ==> (forall j :: i <= j < |s| ==> v.key <= s[j].key)
    ensures Sorted(s) ==> (HasKey(s, v.key) <==> i < |s| && s[i].key == v.key)
  {
    Search(s, v, 0, |s| - 1)
  }

  /** The list after one mutation and the events it fired, in order. */
  datatype Step = Step(elems: seq<Item>, events: seq<Change<Item>>)

  /** `onInternalAdd` */
  function InternalAdd(s: seq<Item>, e: Item): Step {
    var i := InsertionIndexOf(s, e);
    if i < |s| && s[i].key == e.key then Step(s, [])
    else Step(s[..i] + [e] + s[i..], [AddChange(e)])
  }

  /** `onInternalRemove` */
  function InternalRemove(s: seq<Item>, e: Item): Step {
    var i := InsertionIndexOf(s, e);
    if i < |s| && s[i].key == e.key then Step(s[..i] + s[i + 1..], [RemoveChange(e)])
    else Step(s, [])
  }

  /** `onInternalModify`: an `after` sorting past the end is added first;
      then, when `before` and `after` compare equal, the element at the
      insertion index of `after` is overwritten. */
  function InternalModify(s: seq<Item>, before: Item, after: Item): Step {
    var i := InsertionIndexOf(s, after);
    var grown := if i >= |s| then Step(s[..i] + [after] + s[i..], [AddChange(after)]) else Step(s, []);
    if before.key == after.key then Step(grown.elems[i := after], grown.events + [ModifyChange(before, after)])
    else grown
  }

  /** `insert`: appended at the end whatever its order. */
  function Appended(s: seq<Item>, e: Item): Step {
    Step(s + [e], [AddChange(e)])
  }

  /** `insertAt` */
  function InsertedAt(s: seq<Item>, i: nat, e: Item): Step
    requires i <= |s|
  {
    Step(s[..i] + [e] + s[i..], [AddChange(e)])
  }

  /** `removeAt` */
  function RemovedAt(s: seq<Item>, i: nat): Step
    requires i < |s|
  {
    Step(s[..i] + s[i + 1..], [RemoveChange(s[i])])
  }

  /** `List.remove(elem)`: drops the first element equal to `e`, if any. */
  function DeleteFirst(s: seq<Item>, e: Item): seq<Item> {
    if s == [] then [] else if s[0] == e then s[1..] else [s[0]] + DeleteFirst(s[1..], e)
  }

  /** `i` is the index of the first element equal to `e`. */
  ghost predicate FirstOccurrence(s: seq<Item>, e: Item, i: int) {
    0 <= i < |s| && s[i] == e && e !in s[..i]
  }

  /** `remove`: the REMOVE fires whether or not `e` was there. */
  function RemovedFirst(s: seq<Item>, e: Item): Step {
    Step(DeleteFirst(s, e), [RemoveChange(e)])
  }

  /** `elems.map { CollectionChange(ADD, null, it) }`: the replay handed to a
      new listener and the first batch of a new batch listener. */
  function AddsOf(s: seq<Item>): (r: seq<Change<Item>>)
    ensures |r| == |s|
    ensures forall i :: 0 <= i < |s| ==> r[i].kind == Add && r[i].before.None? && r[i].after == Some(s[i])
  {
    if s == [] then [] else [AddChange(s[0])] + AddsOf(s[1..])
  }

  // ---------------------------------------------------------------------
  // Properties of the search

  lemma {:induction false} CountBelowSplit(s: seq<Item>, k: int, i: nat)
    requires i <= |s|
    requires forall j :: 0 <= j < i ==> s[j].key < k
    requires forall j :: i <= j < |s| ==> k <= s[j].key
    ensures CountBelow(s, k) == i
  {
    if s != [] {
      if i == 0 {
        CountBelowSplit(s[1..], k, 0);
      } else {
        CountBelowSplit(s[1..], k, i - 1);
      }
    }
  }

  /** On a sorted list the binary search answers the rank of `v`: how many
      elements compare less than it. */
  lemma IndexIsRank(s: seq<Item>, v: Item)
    requires Sorted(s)
    ensures InsertionIndexOf(s, v) == CountBelow(s, v.key)
  {
    CountBelowSplit(s, v.key, InsertionIndexOf(s, v));
  }

  /** Searching for an element of a sorted list finds its own position. */
  lemma IndexOfMember(s: seq<Item>, j: nat)
    requires Sorted(s) && j < |s|
    ensures InsertionIndexOf(s, s[j]) == j
  {
  }

  // ---------------------------------------------------------------------
  // Properties of the sorted mutations

  lemma SpliceSorted(s: seq<Item>, i: nat, e: Item)
    requires Sorted(s) && i <= |s|
    requires forall j :: 0 <= j < i ==> s[j].key < e.key
    requires forall j :: i <= j < |s| ==> e.key < s[j].key
    ensures Sorted(s[..i] + [e] + s[i..])
  {
    var r := s[..i] + [e] + s[i..];
    assert forall j :: 0 <= j < |r| ==> r[j] == if j < i then s[j] else if j == i then e else s[j - 1];
  }

  /** `onInternalAdd` ignores an element that compares equal to one present
      and otherwise splices it in, keeping the list strictly sorted, and
      fires exactly one ADD(null, e). */
  lemma InternalAddSpec(s: seq<Item>, e: Item)
    requires Sorted(s)
    ensures HasKey(s, e.key) ==> InternalAdd(s, e) == Step(s, [])
    ensures !HasKey(s, e.key) ==>
      var r := InternalAdd(s, e);
      && Sorted(r.elems)
      && |r.elems| == |s| + 1
      && multiset(r.elems) == multiset(s) + multiset{e}
      && r.events == [AddChange(e)]
  {
    var i := InsertionIndexOf(s, e);
    if !HasKey(s, e.key) {
      assert forall j :: i <= j < |s| ==> e.key < s[j].key;
      SpliceSorted(s, i, e);
      assert s == s[..i] + s[i..];
      assert multiset(s[..i] + [e] + s[i..]) == multiset(s[..i]) + multiset{e} + multiset(s[i..]);
    }
  }

  /** Adding an element that compares equal to one just added changes
      nothing and fires nothing. */
  lemma InternalAddIdempotent(s: seq<Item>, e: Item, again: Item)
    requires Sorted(s) && again.key == e.key
    ensures InternalAdd(InternalAdd(s, e).elems, again) == Step(InternalAdd(s, e).elems, [])
  {
    InternalAddSpec(s, e);
    var r := InternalAdd(s, e).elems;
    if !HasKey(s, e.key) {
      var i := InsertionIndexOf(s, e);
      assert r[i] == e;
    }
    assert HasKey(r, again.key);
  }

  /** `onInternalRemove` deletes the element comparing equal to `e` and fires
      one REMOVE(e, null); when there is none it does nothing. The list stays
      sorted and no element comparing equal to `e` is left. */
  lemma InternalRemoveSpec(s: seq<Item>, e: Item)
    requires Sorted(s)
    ensures !HasKey(s, e.key) ==> InternalRemove(s, e) == Step(s, [])
    ensures HasKey(s, e.key) ==>
      var i := InsertionIndexOf(s, e);
      var r := InternalRemove(s, e);
      && s[i].key == e.key
      && r.elems == s[..i] + s[i + 1..]
      && |r.elems| == |s| - 1
      && r.events == [RemoveChange(e)]
    ensures Sorted(InternalRemove(s, e).elems)
    ensures !HasKey(InternalRemove(s, e).elems, e.key)
  {
    var i := InsertionIndexOf(s, e);
    if HasKey(s, e.key) {
      var r := s[..i] + s[i + 1..];
      assert forall j :: 0 <= j < |r| ==> r[j] == if j < i then s[j] else s[j + 1];
    }
  }

  /** Overwriting the element at `i` with one that fits between its
      neighbours keeps the list sorted. */
  lemma ReplaceSorted(s: seq<Item>, i: nat, a: Item)
    requires Sorted(s) && i < |s|
    requires forall j :: 0 <= j < i ==> s[j].key < a.key
    requires forall j :: i < j < |s| ==> a.key < s[j].key
    ensures Sorted(s[i := a])
  {
  }

  /** `onInternalModify` with `before` and `after` comparing equal and an
      insertion index inside the list replaces that element by `after` and
      fires one MODIFY(before, after); length and every other position are
      unchanged and the list stays sorted. */
  lemma ModifyInPlace(s: seq<Item>, before: Item, after: Item)
    requires Sorted(s) && before.key == after.key
    requires InsertionIndexOf(s, after) < |s|
    ensures
      var i := InsertionIndexOf(s, after);
      var r := InternalModify(s, before, after);
      && |r.elems| == |s|
      && r.elems[i] == after
      && (forall j :: 0 <= j < |s| && j != i ==> r.elems[j] == s[j])
      && r.events == [ModifyChange(before, after)]
      && Sorted(r.elems)
  {
    var i := InsertionIndexOf(s, after);
    assert forall j :: i < j < |s| ==> s[i].key < s[j].key;
    ReplaceSorted(s, i, after);
  }

  /** `onInternalModify` with an `after` sorting past every element appends
      it and fires ADD(null, after), then also MODIFY(before, after) when
      `before` compares equal to `after`. */
  lemma ModifyAppends(s: seq<Item>, before: Item, after: Item)
    requires Sorted(s)
    requires forall j :: 0 <= j < |s| ==> s[j].key < after.key
    ensures InternalModify(s, before, after) ==
      Step(s + [after], [AddChange(after)] + if before.key == after.key then [ModifyChange(before, after)] else [])
    ensures Sorted(s + [after])
  {
    var i := InsertionIndexOf(s, after);
    assert i == |s|;
    assert s[..i] + [after] + s[i..] == s + [after];
    assert (s + [after])[i := after] == s + [after];
    SpliceSorted(s, i, after);
  }

  /** `onInternalModify` whose arguments do not compare equal, with an
      insertion index inside the list, changes nothing and fires nothing. */
  lemma ModifyRejected(s: seq<Item>, before: Item, after: Item)
    requires before.key != after.key
    requires InsertionIndexOf(s, after) < |s|
    ensures InternalModify(s, before, after) == Step(s, [])
  {
  }

  /** Whatever its arguments, `onInternalModify` keeps a sorted list sorted. */
  lemma InternalModifySorted(s: seq<Item>, before: Item, after: Item)
    requires Sorted(s)
    ensures Sorted(InternalModify(s, before, after).elems)
  {
    var i := InsertionIndexOf(s, after);
    if i >= |s| {
      ModifyAppends(s, before, after);
    } else if before.key == after.key {
      ModifyInPlace(s, before, after);
    }
  }

  /** When `after` compares equal to no element yet its insertion index is
      inside the list, the in-place branch overwrites a neighbour that
      compares differently: that element leaves the list. */
  lemma ModifyOverwritesNeighbour(s: seq<Item>, before: Item, after: Item)
    requires Sorted(s) && before.key == after.key && !HasKey(s, after.key)
    requires InsertionIndexOf(s, after) < |s|
    ensures
      var i := InsertionIndexOf(s, after);
      var r := InternalModify(s, before, after);
      |r.elems| == |s| && s[i] !in r.elems && after in r.elems
  {
    var i := InsertionIndexOf(s, after);
    var r := InternalModify(s, before, after).elems;
    ModifyInPlace(s, before, after);
  }

  /** `insert` bypasses the ordering: appending to a sorted list can leave it
      unsorted. */
  lemma InsertBypassesOrder()
    ensures exists s, e :: Sorted(s) && !Sorted(Appended(s, e).elems)
  {
    var s := [Item(2, "b", 0)];
    var e := Item(1, "a", 0);
    var r := Appended(s, e).elems;
    assert r[0].key > r[1].key;
    assert Sorted(s) && !Sorted(r);
  }

  /** `remove(e)` drops the first occurrence of `e` when present, keeping
      the other elements in their order, leaves the list alone otherwise,
      and fires REMOVE(e, null) either way. */
  lemma RemovedFirstSpec(s: seq<Item>, e: Item)
    ensures RemovedFirst(s, e).events == [RemoveChange(e)]
    ensures e in s ==> |RemovedFirst(s, e).elems| == |s| - 1
    ensures e in s ==> multiset(RemovedFirst(s, e).elems) == multiset(s) - multiset{e}
    ensures e in s ==>
      exists i :: FirstOccurrence(s, e, i) && RemovedFirst(s, e).elems == s[..i] + s[i + 1..]
    ensures e !in s ==> RemovedFirst(s, e).elems == s
  {
    if e in s {
      DeleteFirstAt(s, e);
      var i :| FirstOccurrence(s, e, i) && DeleteFirst(s, e) == s[..i] + s[i + 1..];
      DropAtCounts(s, i);
    } else {
      DeleteFirstAbsent(s, e);
    }
  }

  lemma {:induction false} DeleteFirstAbsent(s: seq<Item>, e: Item)
    requires e !in s
    ensures DeleteFirst(s, e) == s
  {
    if s != [] {
      assert s == [s[0]] + s[1..];
      DeleteFirstAbsent(s[1..], e);
    }
  }

  lemma {:induction false} DeleteFirstAt(s: seq<Item>, e: Item)
    requires e in s
    ensures exists i :: FirstOccurrence(s, e, i) && DeleteFirst(s, e) == s[..i] + s[i + 1..]
  {
    if s[0] == e {
      assert s[..0] == [] && s[1..] == s[..0] + s[0 + 1..];
      assert FirstOccurrence(s, e, 0);
    } else {
      var t := s[1..];
      assert e in t by {
        assert s == [s[0]] + t;
      }
      DeleteFirstAt(t, e);
      var k :| FirstOccurrence(t, e, k) && DeleteFirst(t, e) == t[..k] + t[k + 1..];
      assert s[..k + 1] == [s[0]] + t[..k];
      assert s[k + 2..] == t[k + 1..];
      assert FirstOccurrence(s, e, k + 1);
      assert DeleteFirst(s, e) == [s[0]] + (t[..k] + t[k + 1..]);
    }
  }

  /** `remove(e)` keeps a sorted list sorted. */
  lemma RemovedFirstSorted(s: seq<Item>, e: Item)
    requires Sorted(s)
    ensures Sorted(RemovedFirst(s, e).elems)
  {
    if e in s {
      DeleteFirstAt(s, e);
      var i :| FirstOccurrence(s, e, i) && DeleteFirst(s, e) == s[..i] + s[i + 1..];
      DropAtSorted(s, i);
    } else {
      DeleteFirstAbsent(s, e);
    }
  }

  lemma DropAtCounts(s: seq<Item>, i: nat)
    requires i < |s|
    ensures |s[..i] + s[i + 1..]| == |s| - 1
    ensures multiset(s[..i] + s[i + 1..]) == multiset(s) - multiset{s[i]}
  {
    assert s == s[..i] + [s[i]] + s[i + 1..];
  }

  lemma DropAtSorted(s: seq<Item>, i: nat)
    requires Sorted(s) && i < |s|
    ensures Sorted(s[..i] + s[i + 1..])
  {
    assert s == s[..i] + [s[i]] + s[i + 1..];
    DropOneSorted(s[..i], s[i], s[i + 1..]);
  }

  /** Dropping one element of a sorted list keeps it sorted. */
  lemma DropOneSorted(a: seq<Item>, x: Item, b: seq<Item>)
    requires Sorted(a + [x] + b)
    ensures Sorted(a + b)
  {
    var s := a + [x] + b;
    var r := a + b;
    forall i, j | 0 <= i < j < |r|
      ensures r[i].key < r[j].key
    {
      var i' := if i < |a| then i else i + 1;
      var j' := if j < |a| then j else j + 1;
      assert r[i] == s[i'] && r[j] == s[j'];
    }
  }

  /** `removeAt(i)` drops exactly the element at `i` and fires REMOVE of
      that element. */
  lemma RemovedAtSpec(s: seq<Item>, i: nat)
    requires i < |s|
    ensures
      var r := RemovedAt(s, i);
      && |r.elems| == |s| - 1
      && (forall j :: 0 <= j < |r.elems| ==> r.elems[j] == if j < i then s[j] else s[j + 1])
      && multiset(r.elems) == multiset(s) - multiset{s[i]}
      && r.events == [RemoveChange(s[i])]
  {
    assert s == s[..i] + [s[i]] + s[i + 1..];
  }

  /** One batch handed to a batch listener. */
  type Batch = seq<Change<Item>>

  /** Progress of a loop that runs internal operations one after another
      and collects changes for one batch: the list, the events fired on the
      per-event channel, and the collected changes. */
  datatype Pass = Pass(elems: seq<Item>, fired: seq<Change<Item>>, changes: Batch)

  /** CollectionManager: the list, the per-event observable it is built on
      (`bus`), and the batch listeners with the record of the batches they
      were handed. */
  class CollectionManager {
    const bus: Observable<Item>
    var elems: seq<Item>
    var allListeners: seq<Listener>
    var batches: seq<Delivery<Batch>>

    ghost predicate Valid()
      reads this, bus
    {
      bus.Valid()
    }

    constructor ()
      ensures Valid() && fresh(bus)
      ensures elems == [] && allListeners == [] && batches == []
      ensures bus.entries == [] && !bus.initialized && bus.fired == [] && bus.delivered == []
    {
      bus := new Observable<Item>();
      elems := [];
      allListeners := [];
      batches := [];
    }

    /** `registerAllChangeListener`: the listener is stored under a fresh
        key (a UUID) and immediately handed the whole list as one batch of
        ADDs; `name` is only logged. */
    method RegisterAllChangeListener(name: string, l: Listener)
      modifies this
      ensures elems == old(elems)
      ensures allListeners == old(allListeners) + [l]
      ensures batches == old(batches) + [Delivery(l, AddsOf(elems))]
    {
      allListeners := allListeners + [l];
      batches := batches + [Delivery(l, AddsOf(elems))];
    }

    /** `registerListener` with this class's `onRegister`: the new listener
        alone gets one ADD(null, e) per element, in list order, and is then
        stored under `name`. */
    method RegisterListener(name: string, l: Listener)
      requires Valid()
      modifies bus
      ensures Valid()
      ensures bus.entries == Put(old(bus.entries), name, l)
      ensures Lookup(bus.entries, name) == Some(l)
      ensures bus.initialized == old(bus.initialized) && bus.fired == old(bus.fired)
      ensures bus.delivered == old(bus.delivered) + Replayed(l, AddsOf(elems))
    {
      bus.Replay(l, AddsOf(elems));
      bus.Store(name, l);
    }

    /** `onInternalAdd` */
    method OnInternalAdd(e: Item)
      requires Valid()
      modifies this, bus
      ensures Valid()
      ensures elems == InternalAdd(old(elems), e).elems
      ensures bus.Emitted(InternalAdd(old(elems), e).events)
      ensures allListeners == old(allListeners) && batches == old(batches)
    {
      var index := InsertionIndexOf(elems, e);
      if index < |elems| && elems[index].key == e.key {
        return;
      }
      elems := elems[..index] + [e] + elems[index..];
      bus.OnAdd(e);
    }

    /** `onInternalRemove` */
    method OnInternalRemove(e: Item)
      requires Valid()
      modifies this, bus
      ensures Valid()
      ensures elems == InternalRemove(old(elems), e).elems
      ensures bus.Emitted(InternalRemove(old(elems), e).events)
      ensures allListeners == old(allListeners) && batches == old(batches)
    {
      var index := InsertionIndexOf(elems, e);
      if index < |elems| && elems[index].key == e.key {
        elems := elems[..index] + elems[index + 1..];
        bus.OnRemove(e);
      }
    }

    /** `onInternalModify` */
    method OnInternalModify(before: Item, after: Item)
      requires Valid()
      modifies this, bus
      ensures Valid()
      ensures elems == InternalModify(old(elems), before, after).elems
      ensures bus.Emitted(InternalModify(old(elems), before, after).events)
      ensures allListeners == old(allListeners) && batches == old(batches)
    {
      var index := InsertionIndexOf(elems, after);
      ghost var events: seq<Change<Item>> := [];
      if index >= |elems| {
        elems := elems[..index] + [after] + elems[index..];
        bus.OnAdd(after);
        events := [AddChange(after)];
      }
      if before.key == after.key {
        elems := elems[index := after];
        bus.OnModify(before, after);
        FanoutAllAppend(Recipients(bus.entries), events, [ModifyChange(before, after)]);
        events := events + [ModifyChange(before, after)];
      }
    }

    /** `removeAt(index)` */
    method RemoveAt(index: nat)
      requires Valid() && index < |elems|
      modifies this, bus
      ensures Valid()
      ensures elems == RemovedAt(old(elems), index).elems
      ensures bus.Emitted(RemovedAt(old(elems), index).events)
      ensures allListeners == old(allListeners) && batches == old(batches)
    {
      var elem := elems[index];
      elems := elems[..index] + elems[index + 1..];
      bus.OnRemove(elem);
    }

    /** `remove(elem)` */
    method Remove(elem: Item)
      requires Valid()
      modifies this, bus
      ensures Valid()
      ensures elems == RemovedFirst(old(elems), elem).elems
      ensures bus.Emitted(RemovedFirst(old(elems), elem).events)
      ensures allListeners == old(allListeners) && batches == old(batches)
    {
      elems := DeleteFirst(elems, elem);
      bus.OnRemove(elem);
    }

    /** `insertAt(index, elem)` */
    method InsertAt(index: nat, elem: Item)
      requires Valid() && index <= |elems|
      modifies this, bus
      ensures Valid()
      ensures elems == InsertedAt(old(elems), index, elem).elems
      ensures bus.Emitted(InsertedAt(old(elems), index, elem).events)
      ensures allListeners == old(allListeners) && batches == old(batches)
    {
      elems := elems[..index] + [elem] + elems[index..];
      bus.OnAdd(elem);
    }

    /** `insert(elem)` */
    method Insert(elem: Item)
      requires Valid()
      modifies this, bus
      ensures Valid()
      ensures elems == Appended(old(elems), elem).elems
      ensures bus.Emitted(Appended(old(elems), elem).events)
      ensures allListeners == old(allListeners) && batches == old(batches)
    {
      elems := elems + [elem];
      bus.OnAdd(elem);
    }

    /** `onAllChanges`: the same batch goes to every batch listener, in the
        order they were registered. */
    method OnAllChanges(allChanged: Batch)
      modifies this
      ensures elems == old(elems) && allListeners == old(allListeners)
      ensures batches == old(batches) + Fanout(allListeners, allChanged)
    {
      var i := 0;
      while i < |allListeners|
        invariant 0 <= i <= |allListeners|
        invariant elems == old(elems) && allListeners == old(allListeners)
        invariant batches == old(batches) + Fanout(allListeners[..i], allChanged)
      {
        FanoutSnoc(allListeners, i, allChanged);
        batches := batches + [Delivery(allListeners[i], allChanged)];
        i := i + 1;
      }
      assert allListeners[..i] == allListeners;
    }

    /** `clean`: per-event listeners and elements are dropped; the batch
        listeners are kept. */
    method Clean()
      requires Valid()
      modifies this, bus
      ensures Valid()
      ensures elems == [] && bus.entries == []
      ensures allListeners == old(allListeners) && batches == old(batches)
      ensures bus.initialized == old(bus.initialized) && bus.fired == old(bus.fired) && bus.delivered == old(bus.delivered)
    {
      bus.Clean();
      elems := [];
    }
  }
}
