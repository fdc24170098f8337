# ptkit sorted observable collections, in Dafny

This project models the core of the ptkit Kotlin library. That core is a
local list kept strictly sorted by `compareTo` that mirrors a remote
Firestore collection, and reports its mutations on two channels:

- a per-event channel of ADD / REMOVE / MODIFY listeners (`Observable`);
- a batch channel of "all changes" listeners (`CollectionManager`).

The model covers four source files, one Dafny file each, plus a small
`Optional` module for Kotlin's nullable values:

- `observable.dfy` (module `Observables`) models `Observable.kt`. It covers
  the name → listener map with Kotlin's insertion-ordered `put`/`remove`,
  dispatch of one event to every listener, registration with its bootstrap
  call, and `clean`.
- `collection_manager.dfy` (module `Collections`) models
  `CollectionManager.kt`:
  - `List.binarySearch` exactly (inclusive bounds, probe at the middle) and
    `insertionIndexOf`;
  - the sorted mutations `onInternalAdd`, `onInternalRemove` and
    `onInternalModify`;
  - the public `insert`, `insertAt`, `remove` and `removeAt`, which bypass
    the ordering;
  - the batch listeners and `onAllChanges`.
- `filter_manager.dfy` (module `Filters`) models `FilterManager.kt`: the
  subscription lambda that classifies each source event against the
  predicate and the limit, the registration replay that builds the view,
  and the two loops of `changeFilter`.
- `fire_collection_manager.dfy` (module `FireCollections`) models
  `FireCollectionManager.kt`:
  - `getByID` and `onDocumentChange`;
  - the snapshot listener's loop over a snapshot's document changes,
    followed by one batch;
  - registering and deregistering the listener, and `clean`;
  - the write operations, which only send requests to the remote store.

How the code becomes Dafny:

- Kotlin inheritance becomes composition. A `CollectionManager` holds its
  `Observable` as `bus`, a `FilterManager` holds its own `CollectionManager`
  `view` beside its `source`, and a `FireCollectionManager` holds the
  collection it mirrors into as `mirror`.
- A callback is an opaque `Listener` token. Calling one is recorded in the
  observable's `delivered` log (or a collection's `batches` log), and every
  dispatched event also goes into `fired`.
- Each mutation is a pure function from the old list to a `Step`, holding
  the new list and the events fired in order. The class method that
  performs the mutation ensures that its new state is that `Step`. The
  lemmas about these functions state what the source promises.
- A loop is a `while` loop whose invariant follows a fold written over the
  last element (`Prune`, `Graft`, `Absorbed`, `Admit`).
- Elements are `Item(key, id, payload)`. `compareTo` compares `key`; the
  data-class equality used by `List.remove` and `contains` compares all
  fields; `id` is the document id `_id`.
- The sorted order is not a class invariant, because `insert` and
  `insertAt` place an element anywhere. The lemmas assume `Sorted` where
  the source relies on it.

Behaviours of the code that a user of the library may not expect, each
proved about the model:

- One `onInternalModify` call can fire ADD and then MODIFY. So one remote
  snapshot of N documents can fire up to 2N per-event notifications, not
  one per document (`FireCollections.ModifiedUnknown`,
  `FireCollections.AbsorbedCounts`).
- The filtered view's REMOVE and MODIFY limit checks use the insertion
  index of the element in the view's own list, not its position in the
  source (`Filters.RemoveGate`, `Filters.ModifyTable`).
- The MODIFY path of the filter adds elements without checking the limit
  (`Filters.ModifyIgnoresLimit`).
- `changeFilter` applies no limit at all: the key of every accepted source
  element ends up in the view (`Filters.ResyncSpec`). The element itself
  may not: when the view already holds a different element with the same
  key, `onInternalAdd` ignores the source element
  (`Filters.ResyncSkipsSameKey`). A view holding only source elements
  ends up as exactly the accepted source elements (`Filters.ResyncExact`).
  A view can stop holding only source elements: a MODIFY that passes the
  limit, followed by a REMOVE that the limit blocks, leaves behind an
  element the source no longer has (`Filters.ViewKeepsRemovedElement`).
- `changeFilter` records its additions as `CollectionChange(ADD, it, null)`,
  with the element as `before` and a null `after`. The model keeps that
  shape.
- `onInternalModify` with `before` and `after` comparing equal, when no
  element equals `after` but its insertion index is inside the list,
  overwrites the neighbour at that index
  (`Collections.ModifyOverwritesNeighbour`).
- A remote MODIFIED whose record changes its sort key, when the new key
  does not sort last, leaves the local list unchanged, but still reports
  MODIFY in the batch (`FireCollections.ModifiedKeyMoved`). When the new
  key sorts last, the record is appended with ADD and no MODIFY, and the
  old element with the same `_id` stays, so the list holds two elements for
  one document (`FireCollections.ModifiedKeyMovedLast`,
  `FireCollections.KeyMovedLastDuplicatesID`).
- A remote MODIFIED for an id with no local element, whose record's
  insertion index falls inside the list, overwrites the element at that
  index; when no element has the record's key, that element is lost
  (`FireCollections.ModifiedUnknownInside`).

## Model

| member | source | states |
|---|---|---|
| `Observables.Lookup` | ptkit/src/main/java/com/pintraveler/ptkit/Observable.kt:9 | `listeners[name]`: null exactly when no entry has the name; otherwise the value stored under it |
| `Observables.Fanout` | ptkit/src/main/java/com/pintraveler/ptkit/Observable.kt:17-23 | one event reaches every listener once, in map order, with the same arguments |
| `Observables.Replayed` | ptkit/src/main/java/com/pintraveler/ptkit/CollectionManager.kt:36-38 | a replay calls one listener once per element, in list order |
| `Observables.PutStores` | ptkit/src/main/java/com/pintraveler/ptkit/Observable.kt:48 | `put` keeps keys unique, maps the name to the new listener, leaves every other name alone, replaces an existing name at its own position and appends a new name last |
| `Observables.WithoutRemoves` | ptkit/src/main/java/com/pintraveler/ptkit/Observable.kt:55 | `remove` keeps keys unique, unmaps the name, leaves every other name alone, is a no-op for an absent name, and keeps the remaining entries in their order |
| `Observables.Observable.constructor` | ptkit/src/main/java/com/pintraveler/ptkit/Observable.kt:9-13 | no listeners, not initialized, nothing fired |
| `Observables.Observable.OnEvent` | ptkit/src/main/java/com/pintraveler/ptkit/Observable.kt:17-23 | fires one event and calls each registered listener once with it, in map order; the map is unchanged |
| `Observables.Observable.OnAdd` | ptkit/src/main/java/com/pintraveler/ptkit/Observable.kt:29 | fires ADD(null, after) |
| `Observables.Observable.OnRemove` | ptkit/src/main/java/com/pintraveler/ptkit/Observable.kt:30 | fires REMOVE(before, null) |
| `Observables.Observable.OnModify` | ptkit/src/main/java/com/pintraveler/ptkit/Observable.kt:31 | fires MODIFY(before, after) |
| `Observables.Observable.OnInternalAdd` | ptkit/src/main/java/com/pintraveler/ptkit/Observable.kt:25 | the default changes no state and fires exactly ADD(null, after) |
| `Observables.Observable.OnInternalRemove` | ptkit/src/main/java/com/pintraveler/ptkit/Observable.kt:26 | the default changes no state and fires exactly REMOVE(before, null) |
| `Observables.Observable.OnInternalModify` | ptkit/src/main/java/com/pintraveler/ptkit/Observable.kt:27 | the default changes no state and fires exactly MODIFY(before, after) |
| `Observables.Observable.Replay` | ptkit/src/main/java/com/pintraveler/ptkit/CollectionManager.kt:37 | calls only the new listener, once per change, in order; nothing is fired to the others |
| `Observables.Observable.OnRegister` | ptkit/src/main/java/com/pintraveler/ptkit/Observable.kt:33-36 | once initialized the new listener alone gets MODIFY(current, current); before that, nothing |
| `Observables.Observable.Store` | ptkit/src/main/java/com/pintraveler/ptkit/Observable.kt:48 | the listener is stored under its name, replacing an older one in place |
| `Observables.Observable.RegisterListener` | ptkit/src/main/java/com/pintraveler/ptkit/Observable.kt:44-50 | bootstrap to the new listener first, then stored under its name; other names keep their listeners |
| `Observables.Observable.RemoveListener` | ptkit/src/main/java/com/pintraveler/ptkit/Observable.kt:52-57 | the name is unmapped, other names keep their listeners, an absent name changes nothing |
| `Observables.Observable.Clean` | ptkit/src/main/java/com/pintraveler/ptkit/Observable.kt:38-42 | all per-event listeners are dropped; the initialized flag stays |
| `Collections.Search` | ptkit/src/main/java/com/pintraveler/ptkit/CollectionManager.kt:29 | the binary search answers an index with everything before it smaller and everything from it on at least as large, on a sorted list |
| `Collections.InsertionIndexOf` | ptkit/src/main/java/com/pintraveler/ptkit/CollectionManager.kt:25-34 | the insertion point of `v` in a sorted list, and an equal element exists exactly when it sits at that index |
| `Collections.AddsOf` | ptkit/src/main/java/com/pintraveler/ptkit/CollectionManager.kt:22 | one ADD(null, e) per element, in list order |
| `Collections.IndexIsRank` | ptkit/src/main/java/com/pintraveler/ptkit/CollectionManager.kt:25-34 | on a sorted list the answer is the number of elements comparing less than `v` |
| `Collections.IndexOfMember` | ptkit/src/main/java/com/pintraveler/ptkit/CollectionManager.kt:25-34 | searching for an element of a sorted list finds its own index |
| `Collections.SpliceSorted` | ptkit/src/main/java/com/pintraveler/ptkit/CollectionManager.kt:48 | splicing at the insertion point keeps the list strictly sorted |
| `Collections.InternalAddSpec` | ptkit/src/main/java/com/pintraveler/ptkit/CollectionManager.kt:40-51 | a duplicate (equal under `compareTo`) is ignored with no event; otherwise the list gains exactly `e` at its place, stays strictly sorted, and one ADD(null, e) fires |
| `Collections.InternalAddIdempotent` | ptkit/src/main/java/com/pintraveler/ptkit/CollectionManager.kt:43-46 | adding an equal element twice changes nothing the second time |
| `Collections.InternalRemoveSpec` | ptkit/src/main/java/com/pintraveler/ptkit/CollectionManager.kt:53-62 | the equal element is removed at its index with one REMOVE(e, null), or nothing happens when absent; sorted, and no equal element remains |
| `Collections.ReplaceSorted` | ptkit/src/main/java/com/pintraveler/ptkit/CollectionManager.kt:74 | overwriting with an element that fits between its neighbours keeps the list sorted |
| `Collections.ModifyInPlace` | ptkit/src/main/java/com/pintraveler/ptkit/CollectionManager.kt:72-76 | equal `before`/`after` inside the list: only position `i` changes, to `after`, with one MODIFY(before, after) |
| `Collections.ModifyAppends` | ptkit/src/main/java/com/pintraveler/ptkit/CollectionManager.kt:67-76 | an `after` past every element is appended with ADD(null, after), then MODIFY(before, after) too when they compare equal |
| `Collections.ModifyRejected` | ptkit/src/main/java/com/pintraveler/ptkit/CollectionManager.kt:72-79 | unequal `before`/`after` with an index inside the list: no change, no event |
| `Collections.InternalModifySorted` | ptkit/src/main/java/com/pintraveler/ptkit/CollectionManager.kt:64-81 | `onInternalModify` keeps a sorted list sorted whatever its arguments |
| `Collections.ModifyOverwritesNeighbour` | ptkit/src/main/java/com/pintraveler/ptkit/CollectionManager.kt:66-76 | when no element equals `after` but its index is inside the list, the element at that index is lost |
| `Collections.InsertBypassesOrder` | ptkit/src/main/java/com/pintraveler/ptkit/CollectionManager.kt:111-116 | `insert` can leave a sorted list unsorted |
| `Collections.RemovedFirstSpec` | ptkit/src/main/java/com/pintraveler/ptkit/CollectionManager.kt:97-102 | `remove` drops the first equal element when present, keeping the others in order, leaves the list alone otherwise, and fires REMOVE(e, null) either way |
| `Collections.RemovedFirstSorted` | ptkit/src/main/java/com/pintraveler/ptkit/CollectionManager.kt:97-102 | `remove` keeps a sorted list sorted |
| `Collections.RemovedAtSpec` | ptkit/src/main/java/com/pintraveler/ptkit/CollectionManager.kt:88-95 | `removeAt(i)` drops exactly position `i`, shifts the rest down, and fires REMOVE of that element |
| `Collections.CollectionManager.constructor` | ptkit/src/main/java/com/pintraveler/ptkit/CollectionManager.kt:11-17 | empty list, no listeners of either kind |
| `Collections.CollectionManager.RegisterAllChangeListener` | ptkit/src/main/java/com/pintraveler/ptkit/CollectionManager.kt:19-23 | the listener is added and immediately handed one batch of ADDs of the whole list |
| `Collections.CollectionManager.RegisterListener` | ptkit/src/main/java/com/pintraveler/ptkit/CollectionManager.kt:36-38 | the new listener is replayed one ADD(null, e) per element, in order, then stored under its name |
| `Collections.CollectionManager.OnInternalAdd` | ptkit/src/main/java/com/pintraveler/ptkit/CollectionManager.kt:40-51 | list and events are those of the sorted add |
| `Collections.CollectionManager.OnInternalRemove` | ptkit/src/main/java/com/pintraveler/ptkit/CollectionManager.kt:53-62 | list and events are those of the sorted remove |
| `Collections.CollectionManager.OnInternalModify` | ptkit/src/main/java/com/pintraveler/ptkit/CollectionManager.kt:64-81 | list and events are those of the sorted modify, ADD before MODIFY when both fire |
| `Collections.CollectionManager.RemoveAt` | ptkit/src/main/java/com/pintraveler/ptkit/CollectionManager.kt:88-95 | removes position `index` and fires its REMOVE |
| `Collections.CollectionManager.Remove` | ptkit/src/main/java/com/pintraveler/ptkit/CollectionManager.kt:97-102 | removes the first equal element if any and fires REMOVE regardless |
| `Collections.CollectionManager.InsertAt` | ptkit/src/main/java/com/pintraveler/ptkit/CollectionManager.kt:104-109 | splices at `index` without any order check and fires ADD |
| `Collections.CollectionManager.Insert` | ptkit/src/main/java/com/pintraveler/ptkit/CollectionManager.kt:111-116 | appends without any order check and fires ADD |
| `Collections.CollectionManager.OnAllChanges` | ptkit/src/main/java/com/pintraveler/ptkit/CollectionManager.kt:118-126 | the same batch goes once to every batch listener, in order; nothing else changes |
| `Collections.CollectionManager.Clean` | ptkit/src/main/java/com/pintraveler/ptkit/CollectionManager.kt:83-86 | list and per-event listeners are emptied; batch listeners stay |
| `Filters.Classify` | ptkit/src/main/java/com/pintraveler/ptkit/FilterManager.kt:9-47 | the recorded downstream change is well formed and carries only the source event's own `before`/`after` |
| `Filters.AddGate` | ptkit/src/main/java/com/pintraveler/ptkit/FilterManager.kt:12-18 | a source ADD passes iff the predicate accepts it and the view is below its limit |
| `Filters.RemoveGate` | ptkit/src/main/java/com/pintraveler/ptkit/FilterManager.kt:19-25 | a source REMOVE passes iff the predicate accepts it and fewer than `limit` view elements compare less |
| `Filters.ViewKeepsRemovedElement` | ptkit/src/main/java/com/pintraveler/ptkit/FilterManager.kt:19-43 | with limit 1 and source `[(1, payload 1), (2, payload 0)]`, a source MODIFY making the first element pass grows the view to two elements, and the source's REMOVE of the second is then blocked, so the view keeps an element the source has dropped |
| `Filters.ModifyTable` | ptkit/src/main/java/com/pintraveler/ptkit/FilterManager.kt:26-43 | inside the window MODIFY maps to REMOVE, ADD, MODIFY or nothing by which side passes; outside it, nothing |
| `Filters.AddWithinLimit` | ptkit/src/main/java/com/pintraveler/ptkit/FilterManager.kt:14 | the ADD path never takes the view past a positive limit |
| `Filters.ModifyIgnoresLimit` | ptkit/src/main/java/com/pintraveler/ptkit/FilterManager.kt:29-37 | the MODIFY path can take a full view past its limit |
| `Filters.KeepSubset` | ptkit/src/main/java/com/pintraveler/ptkit/FilterManager.kt:54-60 | what the filter keeps comes from the list and passes the predicate |
| `Filters.AdmitWindow` | ptkit/src/main/java/com/pintraveler/ptkit/FilterManager.kt:9-18 | after the registration replay of a sorted source the view is the first `limit` accepted elements, in order |
| `Filters.AdmitEventsAdds` | ptkit/src/main/java/com/pintraveler/ptkit/FilterManager.kt:9-18 | the registration replay of a sorted source fires on the view exactly one ADD(null, e) per admitted element, in order |
| `Filters.PruneChanges` | ptkit/src/main/java/com/pintraveler/ptkit/FilterManager.kt:54-60 | the first loop records only REMOVE(x, null) of rejected elements |
| `Filters.PruneKeeps` | ptkit/src/main/java/com/pintraveler/ptkit/FilterManager.kt:54-60 | after the first loop over a sorted view only its accepted elements remain, in order |
| `Filters.GraftOneSpec` | ptkit/src/main/java/com/pintraveler/ptkit/FilterManager.kt:63-67 | one step of the second loop keeps the view sorted, loses nothing, and adds nothing but the visited source element, and that only when accepted |
| `Filters.GraftSpec` | ptkit/src/main/java/com/pintraveler/ptkit/FilterManager.kt:62-68 | the second loop keeps the view sorted, loses nothing, adds only accepted source elements, and covers every accepted source key |
| `Filters.ResyncSpec` | ptkit/src/main/java/com/pintraveler/ptkit/FilterManager.kt:50-71 | after `changeFilter` the view is sorted, holds only accepted elements of the old view or the source, keeps the accepted old ones and covers every accepted source key, with no limit |
| `Filters.ResyncSkipsSameKey` | ptkit/src/main/java/com/pintraveler/ptkit/FilterManager.kt:62-68 | an accepted source element whose key the view already holds under another element stays out of the view after `changeFilter` |
| `Filters.ResyncExact` | ptkit/src/main/java/com/pintraveler/ptkit/FilterManager.kt:50-71 | when the old view holds only elements of the sorted source, `changeFilter` leaves exactly the accepted source elements, in source order |
| `Filters.FilterManager.constructor` | ptkit/src/main/java/com/pintraveler/ptkit/FilterManager.kt:5-48 | subscribes under its TAG; the source replay leaves the view equal to the first `limit` accepted source elements, its per-event channel holding the replay's events, and no listener of either kind and no delivery on the view |
| `Filters.FilterManager.ReplaySource` | ptkit/src/main/java/com/pintraveler/ptkit/CollectionManager.kt:36-38 | the source's replay to the new subscription, one ADD per source element, leaves the view equal to `Admit` of the source and its channel holding `AdmitEvents`, with no listener or delivery on the view |
| `Filters.FilterManager.OnSourceEvent` | ptkit/src/main/java/com/pintraveler/ptkit/FilterManager.kt:9-47 | the view changes as the classified change says, and the batch, when non-empty, is that single change |
| `Filters.FilterManager.ChangeFilter` | ptkit/src/main/java/com/pintraveler/ptkit/FilterManager.kt:50-71 | the view and events are those of the full resync, and the batch goes out once when non-empty |
| `Filters.FilterManager.PruneView` | ptkit/src/main/java/com/pintraveler/ptkit/FilterManager.kt:54-60 | the first loop, over a copy of the view |
| `Filters.FilterManager.GraftSource` | ptkit/src/main/java/com/pintraveler/ptkit/FilterManager.kt:62-68 | the second loop, over a copy of the source |
| `FireCollections.FirstWithID` | ptkit/src/main/java/com/pintraveler/ptkit/FireCollectionManager.kt:141 | the index of the first element with that id, `|s|` when none has it |
| `FireCollections.GetByID` | ptkit/src/main/java/com/pintraveler/ptkit/FireCollectionManager.kt:139-143 | null exactly when no element has the id; otherwise the first element that has it |
| `FireCollections.DocumentStep` | ptkit/src/main/java/com/pintraveler/ptkit/FireCollectionManager.kt:27-54 | throws exactly for an undecodable document; no change and no mutation when sanity fails; else the change carries the looked-up `before` |
| `FireCollections.AddedSpec` | ptkit/src/main/java/com/pintraveler/ptkit/FireCollectionManager.kt:39-42 | ADDED adds through `onInternalAdd` and reports ADD(before, record) even when the add was ignored |
| `FireCollections.RemovedSpec` | ptkit/src/main/java/com/pintraveler/ptkit/FireCollectionManager.kt:49-52 | REMOVED removes the equal element if present and reports REMOVE(before, null) either way |
| `FireCollections.ModifiedUnknown` | ptkit/src/main/java/com/pintraveler/ptkit/FireCollectionManager.kt:43-47 | MODIFIED with no local element, for a record sorting after every element, reports a null `before`, appends the record and fires ADD and then MODIFY |
| `FireCollections.ModifiedUnknownInside` | ptkit/src/main/java/com/pintraveler/ptkit/FireCollectionManager.kt:43-47 | MODIFIED with no local element, for a record whose insertion index is inside the list, reports a null `before`, overwrites the element at that index with MODIFY(record, record), and loses that element when no element has the record's key |
| `FireCollections.ModifiedInPlace` | ptkit/src/main/java/com/pintraveler/ptkit/FireCollectionManager.kt:43-47 | MODIFIED of a local element keeping its key replaces it in place with one MODIFY |
| `FireCollections.ModifiedKeyMoved` | ptkit/src/main/java/com/pintraveler/ptkit/FireCollectionManager.kt:43-47 | MODIFIED that changes the key, not sorting last, leaves the list as is yet still reports MODIFY |
| `FireCollections.ModifiedKeyMovedLast` | ptkit/src/main/java/com/pintraveler/ptkit/FireCollectionManager.kt:43-47 | MODIFIED that changes the key to one sorting last appends the record with only ADD, keeps the old element with that `_id`, and still reports MODIFY |
| `FireCollections.KeyMovedLastDuplicatesID` | ptkit/src/main/java/com/pintraveler/ptkit/FireCollectionManager.kt:43-47 | a concrete mirror that ends up with two elements for one document id |
| `FireCollections.AbsorbedCounts` | ptkit/src/main/java/com/pintraveler/ptkit/FireCollectionManager.kt:66-81 | one collected change per accepted document, at most two events per accepted document |
| `FireCollections.AbsorbedConcat` | ptkit/src/main/java/com/pintraveler/ptkit/FireCollectionManager.kt:68-80 | changes are collected in document order: `a + b` is `a` then `b` |
| `FireCollections.AbsorbedSorted` | ptkit/src/main/java/com/pintraveler/ptkit/FireCollectionManager.kt:68-80 | a snapshot keeps a sorted list sorted |
| `FireCollections.FireCollectionManager.constructor` | ptkit/src/main/java/com/pintraveler/ptkit/FireCollectionManager.kt:10-21 | empty mirror; registers the snapshot listener iff `register` |
| `FireCollections.FireCollectionManager.OnDocumentChange` | ptkit/src/main/java/com/pintraveler/ptkit/FireCollectionManager.kt:27-54 | list, events and returned change are those of the document step; a throw changes nothing |
| `FireCollections.FireCollectionManager.RegisterFirestoreListener` | ptkit/src/main/java/com/pintraveler/ptkit/FireCollectionManager.kt:56-85 | the registration is kept and the collection is marked initialized |
| `FireCollections.FireCollectionManager.OnSnapshot` | ptkit/src/main/java/com/pintraveler/ptkit/FireCollectionManager.kt:57-83 | an error or null snapshot only sets `firestoreInitialized`; otherwise the list follows the documents in order and the batch goes out exactly once, even empty |
| `FireCollections.FireCollectionManager.DeregisterFirestoreListener` | ptkit/src/main/java/com/pintraveler/ptkit/FireCollectionManager.kt:87-93 | the registration is dropped |
| `FireCollections.FireCollectionManager.Clean` | ptkit/src/main/java/com/pintraveler/ptkit/FireCollectionManager.kt:95-104 | list and per-event listeners emptied, snapshot listener deregistered |
| `FireCollections.FireCollectionManager.RemoveByID` | ptkit/src/main/java/com/pintraveler/ptkit/FireCollectionManager.kt:106-112 | only a delete request; the list is unchanged |
| `FireCollections.FireCollectionManager.RemoveAt` | ptkit/src/main/java/com/pintraveler/ptkit/FireCollectionManager.kt:114-122 | only a delete request for the element at `index`; the list is unchanged |
| `FireCollections.FireCollectionManager.Remove` | ptkit/src/main/java/com/pintraveler/ptkit/FireCollectionManager.kt:124-126 | only a delete request for the element's id; the list is unchanged |
| `FireCollections.FireCollectionManager.Insert` | ptkit/src/main/java/com/pintraveler/ptkit/FireCollectionManager.kt:128-137 | only an add request, or a set request for the given id; the list is unchanged |
| `FireCollections.FireCollectionManager.Update` | ptkit/src/main/java/com/pintraveler/ptkit/FireCollectionManager.kt:145-147 | only a merge request; the list is unchanged |
| `FireCollections.FireCollectionManager.UpdateElem` | ptkit/src/main/java/com/pintraveler/ptkit/FireCollectionManager.kt:149-151 | only a merge request for the element's id; the list is unchanged |

## Left out

- UI adapters (`HolderAdapter`, `BindingHolderAdapter`), `ObjectManager` and `FireObjectManager`: these are not part of this model.
- The Firestore SDK is not modelled. A snapshot is a `SnapshotEvent` value.
  - Decoding is the `record` field, which is `None` when `toObject` throws.
  - Writes are recorded as `RemoteWrite` requests.
  - Completion callbacks, write failures and `SetOptions.merge` semantics are not modelled.
- Update values (`Map<String, Any>`) are abstracted to `map<string, string>`.
- Concurrency is not modelled: locks, `synchronized`, `dataMutex`, `GlobalScope.launch`. Every operation runs sequentially and atomically, and the `*NoLock` variants are the plain internal operations.
- Listeners are opaque tokens, not closures. So a listener cannot re-enter the collection, and a listener that throws is not modelled: exception propagation and the isolation of batch listeners are left out.
- The filter's subscription lambda is not called from the source's dispatch. It is the method `FilterManager.OnSourceEvent`, which the constructor calls for each replayed element and a caller calls for each later source event.
- `elemModBeforeInsertion` and `sanityFilter` are pure functions given to the constructor.
  - An override that mutates the record in place, and so changes the `elem` reported in the returned change through aliasing, is not modelled.
  - Exceptions thrown by these functions are not modelled.
- `FireCollectionManager.clean`'s launched removal loop runs over the list that the base `clean` has just replaced with an empty one. It is modelled as doing nothing. Its interleaving with later snapshots is concurrency and is left out.
- Logging is not modelled, nor are the UUID keys of batch listeners. A new batch listener is appended, so a key collision cannot happen.
- `getObservableValue` is a parameter (`current`) of `Observable.OnRegister`.
- `Collections.CollectionManager.RemoveAt`: an out-of-range index throws in the source; the model requires a valid index.
- `Collections.CollectionManager.InsertAt`: an out-of-range index throws in the source; the model requires a valid index.
- `FireCollections.FireCollectionManager.RemoveAt`: an out-of-range index throws in the source; the model requires a valid index.
- Re-registering the snapshot listener while one is registered leaks the older registration in the source. The model keeps only a `listening` flag.
