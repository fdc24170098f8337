/** The listener registry and per-event dispatch of Observable.kt.

    A callback closure cannot be run by the model: a listener is an opaque
    token, and calling it is recorded as a `Delivery` of its arguments. */
module Observables {
  import opened Optional

  /** ObservableEvent */
  datatype EventKind = Add | Remove | Modify

  /** The (event, before, after) triple handed to listeners; also
      CollectionChange of CollectionManager.kt. */
  datatype Change<T> = Change(kind: EventKind, before: Option<T>, after: Option<T>)

  function AddChange<T>(after: T): Change<T> { Change(Add, None, Some(after)) }
  function RemoveChange<T>(before: T): Change<T> { Change(Remove, Some(before), None) }
  function ModifyChange<T>(before: T, after: T): Change<T> { Change(Modify, Some(before), Some(after)) }

  /** A registered callback; the tag stands for the closure's identity. */
  datatype Listener = Callback(tag: string)

  /** One call of a callback with its argument. */
  datatype Delivery<P> = Delivery(to: Listener, payload: P)

  /** One entry of the name -> callback map. */
  datatype Entry = Entry(name: string, fn: Listener)

  /** A map has at most one entry per key. */
  ghost predicate UniqueNames(es: seq<Entry>) {
    forall i, j :: 0 <= i < j < |es| ==> es[i].name != es[j].name
  }

  /** `listeners[name]` */
  function Lookup(es: seq<Entry>, name: string): (r: Option<Listener>)
    ensures r.None? <==> forall i :: 0 <= i < |es| ==> es[i].name != name
    ensures r.Some? ==> exists i :: 0 <= i < |es| && es[i] == Entry(name, r.value)
  {
    if es == [] then None
    else if es[0].name == name then Some(es[0].fn)
    else
      var r := Lookup(es[1..], name);
      assert r.Some? ==> exists i :: 0 <= i < |es[1..]| && es[1..][i] == Entry(name, r.value);
      r
  }

  /** `listeners.put(name, l)` on Kotlin's insertion-ordered map: a key
      already present keeps its place and takes the new value, a new key
      goes last. */
  function Put(es: seq<Entry>, name: string, l: Listener): seq<Entry> {
    if es == [] then [Entry(name, l)]
    else if es[0].name == name then [Entry(name, l)] + es[1..]
    else [es[0]] + Put(es[1..], name, l)
  }

  /** `listeners.remove(name)` */
  function Without(es: seq<Entry>, name: string): seq<Entry> {
    if es == [] then []
    else if es[0].name == name then Without(es[1..], name)
    else [es[0]] + Without(es[1..], name)
  }

  /** The callbacks of a map, in iteration order. */
  function Recipients(es: seq<Entry>): seq<Listener> {
    seq(|es|, i requires 0 <= i < |es| => es[i].fn)
  }

  /** One call of every listener in `rs`, in order, all with the same argument. */
  function Fanout<P>(rs: seq<Listener>, p: P): (r: seq<Delivery<P>>)
    ensures |r| == |rs|
    ensures forall i :: 0 <= i < |rs| ==> r[i] == Delivery(rs[i], p)
  {
    if rs == [] then [] else [Delivery(rs[0], p)] + Fanout(rs[1..], p)
  }

  /** The calls of one listener `l`, once per argument of `ps`, in order. */
  function Replayed<P>(l: Listener, ps: seq<P>): (r: seq<Delivery<P>>)
    ensures |r| == |ps|
    ensures forall i :: 0 <= i < |ps| ==> r[i] == Delivery(l, ps[i])
  {
    if ps == [] then [] else [Delivery(l, ps[0])] + Replayed(l, ps[1..])
  }

  /** Each event of `ps` fanned out to all of `rs`, event after event. */
  function FanoutAll<P>(rs: seq<Listener>, ps: seq<P>): seq<Delivery<P>> {
    if ps == [] then [] else Fanout(rs, ps[0]) + FanoutAll(rs, ps[1..])
  }

  /** With no listener registered, events reach nobody. */
  lemma {:induction false} FanoutAllNobody<P>(ps: seq<P>)
    ensures FanoutAll([], ps) == []
    decreases |ps|
  {
    if ps != [] {
      FanoutAllNobody(ps[1..]);
    }
  }

  /** Regrouping a concatenation, for the logs that grow call by call. */
  lemma Associative<T>(a: seq<T>, b: seq<T>, c: seq<T>)
    ensures a + b + c == a + (b + c)
  {
  }

  lemma FanoutAllOne<P>(rs: seq<Listener>, p: P)
    ensures FanoutAll(rs, [p]) == Fanout(rs, p)
  {
    assert [p][1..] == [];
  }

  lemma {:induction false} FanoutAllAppend<P>(rs: seq<Listener>, a: seq<P>, b: seq<P>)
    ensures FanoutAll(rs, a + b) == FanoutAll(rs, a) + FanoutAll(rs, b)
  {
    if a == [] {
      assert a + b == b;
    } else {
      assert (a + b)[0] == a[0];
      assert (a + b)[1..] == a[1..] + b;
      FanoutAllAppend(rs, a[1..], b);
    }
  }

  lemma FanoutSnoc<P>(rs: seq<Listener>, i: nat, p: P)
    requires i < |rs|
    ensures Fanout(rs[..i + 1], p) == Fanout(rs[..i], p) + [Delivery(rs[i], p)]
  {
  }

  lemma ReplayedSnoc<P>(l: Listener, ps: seq<P>, i: nat)
    requires i < |ps|
    ensures Replayed(l, ps[..i + 1]) == Replayed(l, ps[..i]) + [Delivery(l, ps[i])]
  {
  }

  /** `registerListener` stores `l` under `name`, replacing an earlier
      listener of that name at its own position, or else adding `name`
      last; every other name keeps its listener and its place. */
  lemma PutStores(es: seq<Entry>, name: string, l: Listener)
    requires UniqueNames(es)
    ensures UniqueNames(Put(es, name, l))
    ensures Lookup(Put(es, name, l), name) == Some(l)
    ensures forall other :: other != name ==> Lookup(Put(es, name, l), other) == Lookup(es, other)
    ensures |Put(es, name, l)| == if Lookup(es, name).Some? then |es| else |es| + 1
    ensures Lookup(es, name).None? ==> Put(es, name, l) == es + [Entry(name, l)]
    ensures forall i :: 0 <= i < |es| && es[i].name == name ==> Put(es, name, l) == es[i := Entry(name, l)]
  {
    PutUnique(es, name, l);
    PutFinds(es, name, l);
    PutLength(es, name, l);
    forall other | other != name
      ensures Lookup(Put(es, name, l), other) == Lookup(es, other)
    {
      PutKeepsOthers(es, name, l, other);
    }
    if Lookup(es, name).None? {
      PutAppends(es, name, l);
    }
    forall i | 0 <= i < |es| && es[i].name == name
      ensures Put(es, name, l) == es[i := Entry(name, l)]
    {
      PutReplaces(es, name, l, i);
    }
  }

  lemma {:induction false} PutAppends(es: seq<Entry>, name: string, l: Listener)
    requires forall i :: 0 <= i < |es| ==> es[i].name != name
    ensures Put(es, name, l) == es + [Entry(name, l)]
  {
    if es != [] {
      PutAppends(es[1..], name, l);
      assert es == [es[0]] + es[1..];
    }
  }

  lemma {:induction false} PutReplaces(es: seq<Entry>, name: string, l: Listener, i: nat)
    requires UniqueNames(es) && i < |es| && es[i].name == name
    ensures Put(es, name, l) == es[i := Entry(name, l)]
  {
    if i == 0 {
      assert es[0 := Entry(name, l)] == [Entry(name, l)] + es[1..];
    } else {
      assert es[0].name != name;
      PutReplaces(es[1..], name, l, i - 1);
      assert es[i := Entry(name, l)] == [es[0]] + es[1..][i - 1 := Entry(name, l)];
    }
  }

  lemma {:induction false} PutFinds(es: seq<Entry>, name: string, l: Listener)
    ensures Lookup(Put(es, name, l), name) == Some(l)
  {
    if es != [] && es[0].name != name {
      PutFinds(es[1..], name, l);
      assert Put(es, name, l)[1..] == Put(es[1..], name, l);
    }
  }

  lemma {:induction false} PutKeepsOthers(es: seq<Entry>, name: string, l: Listener, other: string)
    requires other != name
    ensures Lookup(Put(es, name, l), other) == Lookup(es, other)
  {
    if es != [] {
      if es[0].name == name {
        assert Put(es, name, l)[1..] == es[1..];
      } else {
        PutKeepsOthers(es[1..], name, l, other);
        assert Put(es, name, l)[1..] == Put(es[1..], name, l);
      }
    }
  }

  lemma {:induction false} PutLength(es: seq<Entry>, name: string, l: Listener)
    ensures |Put(es, name, l)| == if Lookup(es, name).Some? then |es| else |es| + 1
  {
    if es != [] && es[0].name != name {
      PutLength(es[1..], name, l);
    }
  }

  lemma {:induction false} PutUnique(es: seq<Entry>, name: string, l: Listener)
    requires UniqueNames(es)
    ensures UniqueNames(Put(es, name, l))
  {
    if es != [] {
      var r := Put(es, name, l);
      if es[0].name == name {
        assert r[1..] == es[1..];
        assert forall i :: 0 < i < |r| ==> r[i] == es[i];
      } else {
        var tail := Put(es[1..], name, l);
        PutUnique(es[1..], name, l);
        PutKeepsOthers(es[1..], name, l, es[0].name);
        assert Lookup(es[1..], es[0].name).None?;
        assert Lookup(tail, es[0].name).None?;
        assert forall i :: 0 < i < |r| ==> r[i] == tail[i - 1];
      }
    }
  }

  /** `removeListener(name)` drops that key only, and changes nothing when
      the key is absent. */
  lemma WithoutRemoves(es: seq<Entry>, name: string)
    requires UniqueNames(es)
    ensures UniqueNames(Without(es, name))
    ensures Lookup(Without(es, name), name).None?
    ensures forall other :: other != name ==> Lookup(Without(es, name), other) == Lookup(es, other)
    ensures Lookup(es, name).None? ==> Without(es, name) == es
    ensures forall i :: 0 <= i < |es| && es[i].name == name ==> Without(es, name) == es[..i] + es[i + 1..]
  {
    WithoutUnique(es, name);
    WithoutDrops(es, name);
    WithoutAbsent(es, name);
    forall other | other != name
      ensures Lookup(Without(es, name), other) == Lookup(es, other)
    {
      WithoutKeepsOthers(es, name, other);
    }
    forall i | 0 <= i < |es| && es[i].name == name
      ensures Without(es, name) == es[..i] + es[i + 1..]
    {
      WithoutAt(es, name, i);
    }
  }

  lemma {:induction false} WithoutAt(es: seq<Entry>, name: string, i: nat)
    requires UniqueNames(es) && i < |es| && es[i].name == name
    ensures Without(es, name) == es[..i] + es[i + 1..]
  {
    if i == 0 {
      assert Lookup(es[1..], name).None? by {
        forall j | 0 <= j < |es[1..]|
          ensures es[1..][j].name != name
        {
          assert es[1..][j] == es[j + 1];
        }
      }
      WithoutAbsent(es[1..], name);
      assert es[..0] + es[1..] == es[1..];
    } else {
      assert es[0].name != name;
      WithoutAt(es[1..], name, i - 1);
      assert es[..i] == [es[0]] + es[1..][..i - 1];
      assert es[i + 1..] == es[1..][i..];
    }
  }

  lemma {:induction false} WithoutDrops(es: seq<Entry>, name: string)
    ensures Lookup(Without(es, name), name).None?
  {
    if es != [] {
      WithoutDrops(es[1..], name);
      if es[0].name != name {
        assert Without(es, name)[1..] == Without(es[1..], name);
      }
    }
  }

  lemma {:induction false} WithoutKeepsOthers(es: seq<Entry>, name: string, other: string)
    requires other != name
    ensures Lookup(Without(es, name), other) == Lookup(es, other)
  {
    if es != [] {
      WithoutKeepsOthers(es[1..], name, other);
      if es[0].name != name {
        assert Without(es, name)[1..] == Without(es[1..], name);
      }
    }
  }

  lemma {:induction false} WithoutAbsent(es: seq<Entry>, name: string)
    ensures Lookup(es, name).None? ==> Without(es, name) == es
  {
    if es != [] && Lookup(es, name).None? {
      WithoutAbsent(es[1..], name);
      assert es == [es[0]] + es[1..];
    }
  }

  lemma {:induction false} WithoutUnique(es: seq<Entry>, name: string)
    requires UniqueNames(es)
    ensures UniqueNames(Without(es, name))
  {
    if es != [] {
      var tail := Without(es[1..], name);
      WithoutUnique(es[1..], name);
      if es[0].name != name {
        var r := Without(es, name);
        WithoutKeepsOthers(es[1..], name, es[0].name);
        assert Lookup(es[1..], es[0].name).None?;
        assert Lookup(tail, es[0].name).None?;
        assert forall i :: 0 < i < |r| ==> r[i] == tail[i - 1];
      }
    }
  }

  /** The observable of Observable.kt: a name -> callback map, the
      `initialized` flag, and the record of every event dispatched
      (`fired`) and every callback call made (`delivered`). */
  class Observable<T> {
    var entries: seq<Entry>
    var initialized: bool
    var fired: seq<Change<T>>
    var delivered: seq<Delivery<Change<T>>>

    ghost predicate Valid()
      reads this
    {
      UniqueNames(entries)
    }

    /** Between the pre-state and now, exactly `events` were dispatched,
        each to every registered listener, and the map is as it was. */
    twostate predicate Emitted(events: seq<Change<T>>)
      reads this
    {
      && entries == old(entries)
      && initialized == old(initialized)
      && fired == old(fired) + events
      && delivered == old(delivered) + FanoutAll(Recipients(entries), events)
    }

    constructor ()
      ensures Valid()
      ensures entries == [] && !initialized && fired == [] && delivered == []
    {
      entries := [];
      initialized := false;
      fired := [];
      delivered := [];
    }

    /** `onEvent`: calls every registered listener once, in map order,
        with the same arguments. */
    method OnEvent(kind: EventKind, before: Option<T>, after: Option<T>)
      requires Valid()
      modifies this
      ensures Valid()
      ensures Emitted([Change(kind, before, after)])
    {
      var c := Change(kind, before, after);
      var rs := Recipients(entries);
      var i := 0;
      while i < |entries|
        invariant 0 <= i <= |entries|
        invariant entries == old(entries) && initialized == old(initialized) && fired == old(fired)
        invariant delivered == old(delivered) + Fanout(rs[..i], c)
      {
        FanoutSnoc(rs, i, c);
        delivered := delivered + [Delivery(entries[i].fn, c)];
        i := i + 1;
      }
      assert rs[..i] == rs;
      FanoutAllOne(rs, c);
      fired := fired + [c];
    }

    /** `onAdd` */
    method OnAdd(after: T)
      requires Valid()
      modifies this
      ensures Valid()
      ensures Emitted([AddChange(after)])
    {
      OnEvent(Add, None, Some(after));
    }

    /** `onRemove` */
    method OnRemove(before: T)
      requires Valid()
      modifies this
      ensures Valid()
      ensures Emitted([RemoveChange(before)])
    {
      OnEvent(Remove, Some(before), None);
    }

    /** `onModify` */
    method OnModify(before: T, after: T)
      requires Valid()
      modifies this
      ensures Valid()
      ensures Emitted([ModifyChange(before, after)])
    {
      OnEvent(Modify, Some(before), Some(after));
    }

    /** The default `onInternalAdd`: no state of its own, just the event. */
    method OnInternalAdd(after: T)
      requires Valid()
      modifies this
      ensures Valid()
      ensures Emitted([AddChange(after)])
    {
      OnAdd(after);
    }

    /** The default `onInternalRemove`. */
    method OnInternalRemove(before: T)
      requires Valid()
      modifies this
      ensures Valid()
      ensures Emitted([RemoveChange(before)])
    {
      OnRemove(before);
    }

    /** The default `onInternalModify`. */
    method OnInternalModify(before: T, after: T)
      requires Valid()
      modifies this
      ensures Valid()
      ensures Emitted([ModifyChange(before, after)])
    {
      OnModify(before, after);
    }

    /** Calls the single listener `l` once per change of `cs`, in order;
        nobody else is called and no event is dispatched. */
    method Replay(l: Listener, cs: seq<Change<T>>)
      requires Valid()
      modifies this
      ensures Valid()
      ensures entries == old(entries) && initialized == old(initialized) && fired == old(fired)
      ensures delivered == old(delivered) + Replayed(l, cs)
    {
      var i := 0;
      while i < |cs|
        invariant 0 <= i <= |cs|
        invariant entries == old(entries) && initialized == old(initialized) && fired == old(fired)
        invariant delivered == old(delivered) + Replayed(l, cs[..i])
      {
        ReplayedSnoc(l, cs, i);
        delivered := delivered + [Delivery(l, cs[i])];
        i := i + 1;
      }
      assert cs[..i] == cs;
    }

    /** The base `onRegister`: once initialized, the new listener alone gets
        one MODIFY(value, value), where `current` is `getObservableValue()`. */
    method OnRegister(l: Listener, current: T)
      requires Valid()
      modifies this
      ensures Valid()
      ensures entries == old(entries) && initialized == old(initialized) && fired == old(fired)
      ensures delivered == old(delivered) + if initialized then [Delivery(l, ModifyChange(current, current))] else []
    {
      if initialized {
        Replay(l, [ModifyChange(current, current)]);
      }
    }

    /** `listeners.put(name, l)` */
    method Store(name: string, l: Listener)
      requires Valid()
      modifies this
      ensures Valid()
      ensures entries == Put(old(entries), name, l)
      ensures Lookup(entries, name) == Some(l)
      ensures forall other :: other != name ==> Lookup(entries, other) == Lookup(old(entries), other)
      ensures initialized == old(initialized) && fired == old(fired) && delivered == old(delivered)
    {
      PutStores(entries, name, l);
      entries := Put(entries, name, l);
    }

    /** `registerListener` with the base `onRegister`: the replay reaches
        the new listener only, before it is stored under `name`. */
    method RegisterListener(name: string, l: Listener, current: T)
      requires Valid()
      modifies this
      ensures Valid()
      ensures entries == Put(old(entries), name, l)
      ensures Lookup(entries, name) == Some(l)
      ensures forall other :: other != name ==> Lookup(entries, other) == Lookup(old(entries), other)
      ensures initialized == old(initialized) && fired == old(fired)
      ensures delivered == old(delivered) + if initialized then [Delivery(l, ModifyChange(current, current))] else []
    {
      OnRegister(l, current);
      Store(name, l);
    }

    /** `removeListener` */
    method RemoveListener(name: string)
      requires Valid()
      modifies this
      ensures Valid()
      ensures entries == Without(old(entries), name)
      ensures Lookup(entries, name).None?
      ensures forall other :: other != name ==> Lookup(entries, other) == Lookup(old(entries), other)
      ensures Lookup(old(entries), name).None? ==> entries == old(entries)
      ensures initialized == old(initialized) && fired == old(fired) && delivered == old(delivered)
    {
      WithoutRemoves(entries, name);
      entries := Without(entries, name);
    }

    /** `clean` */
    method Clean()
      requires Valid()
      modifies this
      ensures Valid()
      ensures entries == []
      ensures initialized == old(initialized) && fired == old(fired) && delivered == old(delivered)
    {
      entries := [];
    }
  }
}
