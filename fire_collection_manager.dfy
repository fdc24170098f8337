/** The Firestore-backed collection of FireCollectionManager.kt: a sorted
    collection whose list mirrors a remote collection. Remote snapshots are
    translated into internal operations on the list; the collection's own
    write operations only send requests to the remote store. */
module FireCollections {
  import opened Optional
  import opened Observables
  import opened Collections

  /** `DocumentChange.Type` */
  datatype DocKind = Added | Modified | Removed

  /** One document change of a snapshot: its kind, the document id and the
      decoded record; `None` when decoding the document throws. */
  datatype DocumentChange = DocumentChange(kind: DocKind, id: string, record: Option<Item>)

  /** What the snapshot listener is called with: an error, a null snapshot,
      or the snapshot's document changes in order. */
  datatype SnapshotEvent = Failed | Missing | Received(docs: seq<DocumentChange>)

  /** The requests the collection sends to the remote store; update values
      are kept as strings. */
  datatype RemoteWrite =
    | AddDoc(elem: Item)
    | SetDoc(id: string, elem: Item)
    | DeleteDoc(id: string)
    | MergeDoc(id: string, updates: map<string, string>)

  /** Index of the first element with the given `_id`, `|s|` if none has it. */
  function FirstWithID(s: seq<Item>, id: string): (i: nat)
    ensures i <= |s|
    ensures forall j :: 0 <= j < i ==> s[j].id != id
    ensures i < |s| ==> s[i].id == id
  {
    if s == [] then 0
    else if s[0].id == id then 0
    else 1 + FirstWithID(s[1..], id)
  }

  /** `getByID`: the first element with the given `_id`, or null. */
  function GetByID(s: seq<Item>, id: string): (r: Option<Item>)
    ensures r.None? <==> forall j :: 0 <= j < |s| ==> s[j].id != id
    ensures r.Some? ==> r.value in s && r.value.id == id
    ensures r.Some? ==> exists i :: 0 <= i < |s| && s[i] == r.value && forall j :: 0 <= j < i ==> s[j].id != id
  {
    var i := FirstWithID(s, id);
    if i < |s| then Some(s[i]) else None
  }

  /** The decoded record with its `_id` set to the document id. */
  function Decoded(doc: DocumentChange): Item
    requires doc.record.Some?
  {
    doc.record.value.(id := doc.id)
  }

  /** The record that reaches the list: `elemModBeforeInsertion` applied
      to the decoded record. */
  function Prepared(doc: DocumentChange, prep: Item -> Item): Item
    requires doc.record.Some?
  {
    prep(Decoded(doc))
  }

  /** A document whose record decodes and passes the sanity filter. */
  predicate Accepts(doc: DocumentChange, sanity: Item -> bool, prep: Item -> Item) {
    doc.record.Some? && sanity(Prepared(doc, prep))
  }

  /** What `onDocumentChange` does to the list: it throws, or it runs an
      internal operation and returns a change or null. */
  datatype DocOutcome = Threw | Handled(step: Step, change: Option<Change<Item>>)

  /** `onDocumentChange` */
  function DocumentStep(s: seq<Item>, doc: DocumentChange, sanity: Item -> bool, prep: Item -> Item): (r: DocOutcome)
    ensures r.Threw? <==> doc.record.None?
    ensures r.Handled? ==> (r.change.Some? <==> Accepts(doc, sanity, prep))
    ensures r.Handled? && r.change.None? ==> r.step == Step(s, [])
    ensures r.Handled? && r.change.Some? ==>
      && r.change.value.before == GetByID(s, doc.id)
      && r.change.value.after == (if doc.kind == Removed then None else Some(Decoded(doc)))
    ensures r.Handled? ==> |r.step.events| <= 2
  {
    if doc.record.None? then Threw
    else
      var elem := Decoded(doc);
      var before := GetByID(s, elem.id);
      var m := prep(elem);
      if !sanity(m) then Handled(Step(s, []), None)
      else match doc.kind
        case Added => Handled(InternalAdd(s, m), Some(Change(Add, before, Some(elem))))
        case Modified => Handled(InternalModify(s, before.GetOr(m), m), Some(Change(Modify, before, Some(elem))))
        case Removed => Handled(InternalRemove(s, m), Some(Change(Remove, before, None)))
  }

  /** One iteration of the snapshot loop: a document that throws is
      skipped, a returned change is collected. */
  function Absorb(p: Pass, doc: DocumentChange, sanity: Item -> bool, prep: Item -> Item): Pass {
    match DocumentStep(p.elems, doc, sanity, prep)
    case Threw => p
    case Handled(st, c) => Pass(st.elems, p.fired + st.events, p.changes + if c.Some? then [c.value] else [])
  }

  /** The snapshot loop over `docs`, in document order. */
  function Absorbed(p: Pass, docs: seq<DocumentChange>, sanity: Item -> bool, prep: Item -> Item): Pass
    decreases |docs|
  {
    if docs == [] then p
    else Absorb(Absorbed(p, docs[..|docs| - 1], sanity, prep), docs[|docs| - 1], sanity, prep)
  }

  /** The number of documents that decode and pass the sanity filter. */
  function AcceptedCount(docs: seq<DocumentChange>, sanity: Item -> bool, prep: Item -> Item): nat
    decreases |docs|
  {
    if docs == [] then 0
    else AcceptedCount(docs[..|docs| - 1], sanity, prep) + if Accepts(docs[|docs| - 1], sanity, prep) then 1 else 0
  }

  // ---------------------------------------------------------------------
  // One document

  /** ADDED: the record is added through `onInternalAdd`, and ADD(before,
      record) is returned even when an element of the same key was already
      present and the list did not change. */
  lemma AddedSpec(s: seq<Item>, doc: DocumentChange, sanity: Item -> bool, prep: Item -> Item)
    requires Sorted(s) && doc.kind == Added && Accepts(doc, sanity, prep)
    ensures var m := Prepared(doc, prep);
      var r := DocumentStep(s, doc, sanity, prep);
      && r.Handled?
      && r.change == Some(Change(Add, GetByID(s, doc.id), Some(Decoded(doc))))
      && (HasKey(s, m.key) ==> r.step == Step(s, []))
      && (!HasKey(s, m.key) ==>
            && Sorted(r.step.elems)
            && multiset(r.step.elems) == multiset(s) + multiset{m}
            && r.step.events == [AddChange(m)])
  {
    InternalAddSpec(s, Prepared(doc, prep));
  }

  /** REMOVED: the element with the record's key, if any, is removed;
      REMOVE(before, null) is returned either way. */
  lemma RemovedSpec(s: seq<Item>, doc: DocumentChange, sanity: Item -> bool, prep: Item -> Item)
    requires Sorted(s) && doc.kind == Removed && Accepts(doc, sanity, prep)
    ensures var m := Prepared(doc, prep);
      var r := DocumentStep(s, doc, sanity, prep);
      && r.Handled?
      && r.change == Some(Change(Remove, GetByID(s, doc.id), None))
      && (!HasKey(s, m.key) ==> r.step == Step(s, []))
      && (HasKey(s, m.key) ==>
            var i := InsertionIndexOf(s, m);
            && s[i].key == m.key
            && r.step.elems == s[..i] + s[i + 1..]
            && Sorted(r.step.elems)
            && r.step.events == [RemoveChange(m)])
  {
    InternalRemoveSpec(s, Prepared(doc, prep));
  }

  /** MODIFIED for an id with no local element, when the record sorts after
      every element: the record stands in for `before`, the returned change
      keeps a null `before`, and the record is appended with ADD and then
      MODIFY, two events for one document. */
  lemma ModifiedUnknown(s: seq<Item>, doc: DocumentChange, sanity: Item -> bool, prep: Item -> Item)
    requires Sorted(s) && doc.kind == Modified && Accepts(doc, sanity, prep)
    requires GetByID(s, doc.id).None?
    requires forall j :: 0 <= j < |s| ==> s[j].key < Prepared(doc, prep).key
    ensures var m := Prepared(doc, prep);
      var r := DocumentStep(s, doc, sanity, prep);
      && r.Handled?
      && r.change == Some(Change(Modify, None, Some(Decoded(doc))))
      && r.step == Step(s + [m], [AddChange(m), ModifyChange(m, m)])
      && Sorted(r.step.elems)
  {
    var m := Prepared(doc, prep);
    ModifyAppends(s, m, m);
  }

  /** MODIFIED for an id with no local element, when the record's insertion
      index falls inside the list: the record stands in for `before`, so the
      in-place branch overwrites the element at that index with MODIFY(record,
      record); when no element has the record's key, that element is lost. */
  lemma ModifiedUnknownInside(s: seq<Item>, doc: DocumentChange, sanity: Item -> bool, prep: Item -> Item)
    requires Sorted(s) && doc.kind == Modified && Accepts(doc, sanity, prep)
    requires GetByID(s, doc.id).None?
    requires InsertionIndexOf(s, Prepared(doc, prep)) < |s|
    ensures var m := Prepared(doc, prep);
      var i := InsertionIndexOf(s, m);
      var r := DocumentStep(s, doc, sanity, prep);
      && r.Handled?
      && r.change == Some(Change(Modify, None, Some(Decoded(doc))))
      && r.step == Step(s[i := m], [ModifyChange(m, m)])
      && Sorted(r.step.elems)
      && (!HasKey(s, m.key) ==> s[i] !in r.step.elems)
  {
    var m := Prepared(doc, prep);
    ModifyInPlace(s, m, m);
    if !HasKey(s, m.key) {
      ModifyOverwritesNeighbour(s, m, m);
    }
  }

  /** MODIFIED for a local element whose key the record keeps: the element
      is replaced in place and MODIFY(local, record) fires. */
  lemma ModifiedInPlace(s: seq<Item>, doc: DocumentChange, sanity: Item -> bool, prep: Item -> Item)
    requires Sorted(s) && doc.kind == Modified && Accepts(doc, sanity, prep)
    requires GetByID(s, doc.id).Some? && GetByID(s, doc.id).value.key == Prepared(doc, prep).key
    ensures var m := Prepared(doc, prep);
      var b := GetByID(s, doc.id).value;
      var i := InsertionIndexOf(s, m);
      var r := DocumentStep(s, doc, sanity, prep);
      && r.Handled?
      && r.change == Some(Change(Modify, Some(b), Some(Decoded(doc))))
      && i < |s|
      && r.step == Step(s[i := m], [ModifyChange(b, m)])
      && Sorted(r.step.elems)
  {
    var m := Prepared(doc, prep);
    var b := GetByID(s, doc.id).value;
    assert HasKey(s, m.key) by {
      var j :| 0 <= j < |s| && s[j] == b;
    }
    var i := InsertionIndexOf(s, m);
    ModifyInPlace(s, b, m);
    assert DocumentStep(s, doc, sanity, prep).step.elems == s[i := m];
  }

  /** MODIFIED for a local element whose key the record changes, when the
      record does not sort last: the list is left as it is and no event
      fires, yet MODIFY(local, record) is still returned for the batch. */
  lemma ModifiedKeyMoved(s: seq<Item>, doc: DocumentChange, sanity: Item -> bool, prep: Item -> Item)
    requires doc.kind == Modified && Accepts(doc, sanity, prep)
    requires GetByID(s, doc.id).Some? && GetByID(s, doc.id).value.key != Prepared(doc, prep).key
    requires InsertionIndexOf(s, Prepared(doc, prep)) < |s|
    ensures var r := DocumentStep(s, doc, sanity, prep);
      && r.Handled?
      && r.step == Step(s, [])
      && r.change == Some(Change(Modify, GetByID(s, doc.id), Some(Decoded(doc))))
  {
    ModifyRejected(s, GetByID(s, doc.id).value, Prepared(doc, prep));
  }

  /** MODIFIED for a local element whose key the record changes, when the
      record sorts after every element: the record is appended with
      ADD(null, record) and no MODIFY fires, while the local element with
      the same `_id` stays, so the list holds two elements for one document. */
  lemma ModifiedKeyMovedLast(s: seq<Item>, doc: DocumentChange, sanity: Item -> bool, prep: Item -> Item)
    requires Sorted(s) && doc.kind == Modified && Accepts(doc, sanity, prep)
    requires GetByID(s, doc.id).Some? && GetByID(s, doc.id).value.key != Prepared(doc, prep).key
    requires forall j :: 0 <= j < |s| ==> s[j].key < Prepared(doc, prep).key
    ensures var m := Prepared(doc, prep);
      var r := DocumentStep(s, doc, sanity, prep);
      && r.Handled?
      && r.change == Some(Change(Modify, GetByID(s, doc.id), Some(Decoded(doc))))
      && r.step == Step(s + [m], [AddChange(m)])
      && GetByID(s, doc.id).value in r.step.elems
      && m in r.step.elems
  {
    ModifyAppends(s, GetByID(s, doc.id).value, Prepared(doc, prep));
  }

  /** An instance of the case above: a one-element mirror receives MODIFIED
      for its document with a larger key and ends up with two elements
      carrying that document's id. */
  lemma KeyMovedLastDuplicatesID()
    ensures
      var s := [Item(1, "d", 0)];
      var doc := DocumentChange(Modified, "d", Some(Item(5, "", 0)));
      var r := DocumentStep(s, doc, _ => true, x => x);
      && r.Handled?
      && r.step.elems == [Item(1, "d", 0), Item(5, "d", 0)]
  {
    var s := [Item(1, "d", 0)];
    var doc := DocumentChange(Modified, "d", Some(Item(5, "", 0)));
    assert Sorted(s);
    assert GetByID(s, "d") == Some(Item(1, "d", 0));
    ModifiedKeyMovedLast(s, doc, _ => true, x => x);
  }

  // ---------------------------------------------------------------------
  // One snapshot

  /** Exactly one change is collected per document that decodes and passes
      the sanity filter, and at most two events fire per such document. */
  lemma {:induction false} AbsorbedCounts(p: Pass, docs: seq<DocumentChange>, sanity: Item -> bool, prep: Item -> Item)
    ensures var r := Absorbed(p, docs, sanity, prep);
      && |r.changes| == |p.changes| + AcceptedCount(docs, sanity, prep)
      && |r.fired| <= |p.fired| + 2 * AcceptedCount(docs, sanity, prep)
    decreases |docs|
  {
    if docs != [] {
      AbsorbedCounts(p, docs[..|docs| - 1], sanity, prep);
    }
  }

  /** The collected changes extend the earlier ones, so processing
      `a + b` is processing `a` and then `b`: changes stay in document order. */
  lemma {:induction false} AbsorbedConcat(p: Pass, a: seq<DocumentChange>, b: seq<DocumentChange>, sanity: Item -> bool, prep: Item -> Item)
    ensures Absorbed(p, a + b, sanity, prep) == Absorbed(Absorbed(p, a, sanity, prep), b, sanity, prep)
    decreases |b|
  {
    if b == [] {
      assert a + b == a;
    } else {
      assert (a + b)[..|a + b| - 1] == a + b[..|b| - 1];
      AbsorbedConcat(p, a, b[..|b| - 1], sanity, prep);
    }
  }

  /** A snapshot keeps a sorted list sorted. */
  lemma {:induction false} AbsorbedSorted(p: Pass, docs: seq<DocumentChange>, sanity: Item -> bool, prep: Item -> Item)
    requires Sorted(p.elems)
    ensures Sorted(Absorbed(p, docs, sanity, prep).elems)
    decreases |docs|
  {
    if docs != [] {
      var q := Absorbed(p, docs[..|docs| - 1], sanity, prep);
      AbsorbedSorted(p, docs[..|docs| - 1], sanity, prep);
      var doc := docs[|docs| - 1];
      if Accepts(doc, sanity, prep) {
        var m := Prepared(doc, prep);
        match doc.kind {
          case Added => InternalAddSpec(q.elems, m);
          case Removed => InternalRemoveSpec(q.elems, m);
          case Modified => InternalModifySorted(q.elems, GetByID(q.elems, doc.id).GetOr(m), m);
        }
      }
    }
  }

  lemma AbsorbedStep(p: Pass, docs: seq<DocumentChange>, sanity: Item -> bool, prep: Item -> Item, i: nat)
    requires i < |docs|
    ensures Absorbed(p, docs[..i + 1], sanity, prep) == Absorb(Absorbed(p, docs[..i], sanity, prep), docs[i], sanity, prep)
  {
    assert docs[..i + 1][..i] == docs[..i];
  }

  /** FireCollectionManager: the mirrored collection (`mirror`), the
      sanity filter and `elemModBeforeInsertion` it was built with, whether
      a snapshot listener is registered, whether a snapshot has arrived,
      and the requests sent to the remote store. */
  class FireCollectionManager {
    const mirror: CollectionManager
    const sanityFilter: Item -> bool
    const prep: Item -> Item
    var listening: bool
    var firestoreInitialized: bool
    var writes: seq<RemoteWrite>

    ghost predicate Valid()
      reads this, mirror, mirror.bus
    {
      mirror.Valid()
    }

    /** The constructor registers the snapshot listener when `register`. */
    constructor (register: bool, sanityFilter: Item -> bool, prep: Item -> Item)
      ensures Valid() && fresh(mirror) && fresh(mirror.bus)
      ensures this.sanityFilter == sanityFilter && this.prep == prep
      ensures mirror.elems == [] && mirror.allListeners == [] && mirror.batches == []
      ensures mirror.bus.entries == [] && mirror.bus.fired == [] && mirror.bus.delivered == []
      ensures listening == register && mirror.bus.initialized == register
      ensures !firestoreInitialized && writes == []
    {
      mirror := new CollectionManager();
      this.sanityFilter := sanityFilter;
      this.prep := prep;
      listening := false;
      firestoreInitialized := false;
      writes := [];
      new;
      if register {
        RegisterFirestoreListener();
      }
    }

    /** `onDocumentChange` */
    method OnDocumentChange(doc: DocumentChange) returns (threw: bool, change: Option<Change<Item>>)
      requires Valid()
      modifies mirror, mirror.bus
      ensures Valid()
      ensures var r := DocumentStep(old(mirror.elems), doc, sanityFilter, prep);
        && threw == r.Threw?
        && (r.Threw? ==> mirror.elems == old(mirror.elems) && mirror.bus.Emitted([]))
        && (r.Handled? ==> change == r.change && mirror.elems == r.step.elems && mirror.bus.Emitted(r.step.events))
      ensures mirror.allListeners == old(mirror.allListeners) && mirror.batches == old(mirror.batches)
    {
      change := None;
      if doc.record.None? {
        threw := true;
        return;
      }
      threw := false;
      var elem := doc.record.value.(id := doc.id);
      var before := GetByID(mirror.elems, elem.id);
      var modifiedElem := prep(elem);
      if !sanityFilter(modifiedElem) {
        return;
      }
      match doc.kind {
        case Added =>
          mirror.OnInternalAdd(modifiedElem);
          change := Some(Change(Add, before, Some(elem)));
        case Modified =>
          mirror.OnInternalModify(before.GetOr(modifiedElem), modifiedElem);
          change := Some(Change(Modify, before, Some(elem)));
        case Removed =>
          mirror.OnInternalRemove(modifiedElem);
          change := Some(Change(EventKind.Remove, before, None));
      }
    }

    /** `registerFirestoreListener`: the listener registration is kept and
        the collection is marked initialized. */
    method RegisterFirestoreListener()
      requires Valid()
      modifies this, mirror.bus
      ensures Valid()
      ensures listening && mirror.bus.initialized
      ensures firestoreInitialized == old(firestoreInitialized) && writes == old(writes)
      ensures mirror.bus.entries == old(mirror.bus.entries)
      ensures mirror.bus.fired == old(mirror.bus.fired) && mirror.bus.delivered == old(mirror.bus.delivered)
    {
      listening := true;
      mirror.bus.initialized := true;
    }

    /** The snapshot listener registered by `registerFirestoreListener`.
        An error or a null snapshot is dropped; otherwise every document
        change is handled in order, changes are collected, documents that
        throw are skipped, and the batch listeners get the collected
        changes exactly once, even when there are none. */
    method OnSnapshot(snap: SnapshotEvent)
      requires Valid()
      modifies this, mirror, mirror.bus
      ensures Valid()
      ensures firestoreInitialized
      ensures listening == old(listening) && writes == old(writes)
      ensures mirror.allListeners == old(mirror.allListeners)
      ensures !snap.Received? ==>
        && mirror.elems == old(mirror.elems) && mirror.batches == old(mirror.batches)
        && mirror.bus.Emitted([])
      ensures snap.Received? ==>
        var r := Absorbed(Pass(old(mirror.elems), [], []), snap.docs, sanityFilter, prep);
        && mirror.elems == r.elems
        && mirror.bus.Emitted(r.fired)
        && mirror.batches == old(mirror.batches) + Fanout(mirror.allListeners, r.changes)
    {
      firestoreInitialized := true;
      if !snap.Received? {
        return;
      }
      var docs := snap.docs;
      var allChanged: Batch := [];
      ghost var p := Pass(mirror.elems, [], []);
      var i := 0;
      while i < |docs|
        invariant 0 <= i <= |docs|
        invariant Valid() && firestoreInitialized
        invariant listening == old(listening) && writes == old(writes)
        invariant var q := Absorbed(p, docs[..i], sanityFilter, prep);
          && mirror.elems == q.elems && allChanged == q.changes
          && mirror.bus.Emitted(q.fired)
        invariant mirror.allListeners == old(mirror.allListeners) && mirror.batches == old(mirror.batches)
      {
        AbsorbedStep(p, docs, sanityFilter, prep, i);
        ghost var q := Absorbed(p, docs[..i], sanityFilter, prep);
        var threw, change := OnDocumentChange(docs[i]);
        if !threw {
          ghost var events := DocumentStep(q.elems, docs[i], sanityFilter, prep).step.events;
          ghost var rs := Recipients(mirror.bus.entries);
          FanoutAllAppend(rs, q.fired, events);
          Associative(old(mirror.bus.fired), q.fired, events);
          Associative(old(mirror.bus.delivered), FanoutAll(rs, q.fired), FanoutAll(rs, events));
          if change.Some? {
            allChanged := allChanged + [change.value];
          }
        }
        i := i + 1;
      }
      assert docs[..i] == docs;
      mirror.OnAllChanges(allChanged);
    }

    /** `deregisterFirestoreListener` */
    method DeregisterFirestoreListener()
      modifies this
      ensures !listening
      ensures firestoreInitialized == old(firestoreInitialized) && writes == old(writes)
    {
      listening := false;
    }

    /** `clean`: the base `clean`, then the snapshot listener is removed.
        The removal loop it then launches runs over the list the base
        `clean` has just replaced by an empty one. */
    method Clean()
      requires Valid()
      modifies this, mirror, mirror.bus
      ensures Valid()
      ensures mirror.elems == [] && mirror.bus.entries == [] && !listening
      ensures mirror.allListeners == old(mirror.allListeners) && mirror.batches == old(mirror.batches)
      ensures mirror.bus.fired == old(mirror.bus.fired) && mirror.bus.delivered == old(mirror.bus.delivered)
      ensures mirror.bus.initialized == old(mirror.bus.initialized)
      ensures firestoreInitialized == old(firestoreInitialized) && writes == old(writes)
    {
      mirror.Clean();
      DeregisterFirestoreListener();
    }

    /** `removeByID`: a delete request for the document; the list waits for
        the snapshot that reports it. */
    method RemoveByID(id: string)
      modifies this
      ensures writes == old(writes) + [DeleteDoc(id)]
      ensures mirror.elems == old(mirror.elems)
      ensures listening == old(listening) && firestoreInitialized == old(firestoreInitialized)
    {
      writes := writes + [DeleteDoc(id)];
    }

    /** `removeAt`: a delete request for the element at `index`. */
    method RemoveAt(index: int)
      requires 0 <= index < |mirror.elems|
      modifies this
      ensures writes == old(writes) + [DeleteDoc(mirror.elems[index].id)]
      ensures mirror.elems == old(mirror.elems)
      ensures listening == old(listening) && firestoreInitialized == old(firestoreInitialized)
    {
      RemoveByID(mirror.elems[index].id);
    }

    /** `remove`: a delete request for the element's document. */
    method Remove(elem: Item)
      modifies this
      ensures writes == old(writes) + [DeleteDoc(elem.id)]
      ensures mirror.elems == old(mirror.elems)
      ensures listening == old(listening) && firestoreInitialized == old(firestoreInitialized)
    {
      RemoveByID(elem.id);
    }

    /** `insert`: an add request with a generated id, or a set request for
        the given id. */
    method Insert(elem: Item, withID: Option<string>)
      modifies this
      ensures writes == old(writes) + [if withID.None? then AddDoc(elem) else SetDoc(withID.value, elem)]
      ensures mirror.elems == old(mirror.elems)
      ensures listening == old(listening) && firestoreInitialized == old(firestoreInitialized)
    {
      if withID.None? {
        writes := writes + [AddDoc(elem)];
      } else {
        writes := writes + [SetDoc(withID.value, elem)];
      }
    }

    /** `update(id, updates)`: a merge request for the document. */
    method Update(id: string, updates: map<string, string>)
      modifies this
      ensures writes == old(writes) + [MergeDoc(id, updates)]
      ensures mirror.elems == old(mirror.elems)
      ensures listening == old(listening) && firestoreInitialized == old(firestoreInitialized)
    {
      writes := writes + [MergeDoc(id, updates)];
    }

    /** `update(elem, updates)`: a merge request for the element's document. */
    method UpdateElem(elem: Item, updates: map<string, string>)
      modifies this
      ensures writes == old(writes) + [MergeDoc(elem.id, updates)]
      ensures mirror.elems == old(mirror.elems)
      ensures listening == old(listening) && firestoreInitialized == old(firestoreInitialized)
    {
      Update(elem.id, updates);
    }
  }
}
