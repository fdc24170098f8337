/** The filtered view of FilterManager.kt: a collection that follows a
    source collection's per-event channel, keeping the elements a predicate
    accepts, optionally capped by `limit` (0 = no cap). */
module Filters {
  import opened Optional
  import opened Observables
  import opened Collections

  /** The view's TAG, also the name it registers under with its source. */
  function Tag(name: string): string { "FilterManager" + name }

  /** ADD carries only `after`, REMOVE only `before`, MODIFY both. */
  ghost predicate WellFormed(c: Change<Item>) {
    match c.kind
    case Add => c.before.None? && c.after.Some?
    case Remove => c.before.Some? && c.after.None?
    case Modify => c.before.Some? && c.after.Some?
  }

  /** The change the subscription lambda records for one source event, if
      any. Both limit checks use the view's own list. */
  function Classify(view: seq<Item>, f: Item -> bool, limit: int, c: Change<Item>): (r: Option<Change<Item>>)
    ensures r.Some? ==> WellFormed(r.value)
    ensures r.Some? && r.value.before.Some? ==> r.value.before == c.before
    ensures r.Some? && r.value.after.Some? ==> r.value.after == c.after
  {
    match c.kind
    case Add =>
      if c.after.None? then None
      else
        var elem := c.after.value;
        if f(elem) && (limit == 0 || |view| < limit) then Some(AddChange(elem)) else None
    case Remove =>
      if c.before.None? then None
      else
        var elem := c.before.value;
        if f(elem) && (limit == 0 || InsertionIndexOf(view, elem) < limit) then Some(RemoveChange(elem)) else None
    case Modify =>
      if c.before.None? || c.after.None? then None
      else
        var e1 := c.before.value;
        var e2 := c.after.value;
        if limit == 0 || InsertionIndexOf(view, e1) < limit then
          if f(e1) && !f(e2) then Some(RemoveChange(e1))
          else if f(e2) && !f(e1) then Some(AddChange(e2))
          else if f(e1) && f(e2) then Some(ModifyChange(e1, e2))
          else None
        else None
  }

  /** The mutation of the view that goes with a recorded change. */
  function Effect(view: seq<Item>, c: Change<Item>): Step {
    match c.kind
    case Add => if c.after.Some? then InternalAdd(view, c.after.value) else Step(view, [])
    case Remove => if c.before.Some? then InternalRemove(view, c.before.value) else Step(view, [])
    case Modify =>
      if c.before.Some? && c.after.Some? then InternalModify(view, c.before.value, c.after.value)
      else Step(view, [])
  }

  /** What one source event does to the view's list and per-event channel. */
  function React(view: seq<Item>, f: Item -> bool, limit: int, c: Change<Item>): Step {
    var d := Classify(view, f, limit, c);
    if d.Some? then Effect(view, d.value) else Step(view, [])
  }

  /** The batch one source event produces: empty or a single change. */
  function Downstream(view: seq<Item>, f: Item -> bool, limit: int, c: Change<Item>): Batch {
    var d := Classify(view, f, limit, c);
    if d.Some? then [d.value] else []
  }

  /** The view's list after the registration replay: one source ADD per
      source element, in order, starting from an empty view. */
  function Admit(f: Item -> bool, limit: int, xs: seq<Item>): seq<Item>
    decreases |xs|
  {
    if xs == [] then []
    else React(Admit(f, limit, xs[..|xs| - 1]), f, limit, AddChange(xs[|xs| - 1])).elems
  }

  /** The view's per-event channel during the registration replay: what
      each source ADD fires on the view, in order. */
  function AdmitEvents(f: Item -> bool, limit: int, xs: seq<Item>): seq<Change<Item>>
    decreases |xs|
  {
    if xs == [] then []
    else
      var ys := xs[..|xs| - 1];
      AdmitEvents(f, limit, ys) + React(Admit(f, limit, ys), f, limit, AddChange(xs[|xs| - 1])).events
  }

  /** The elements of `xs` that `f` accepts, in order. */
  function Keep(xs: seq<Item>, f: Item -> bool): seq<Item>
    decreases |xs|
  {
    if xs == [] then []
    else Keep(xs[..|xs| - 1], f) + if f(xs[|xs| - 1]) then [xs[|xs| - 1]] else []
  }

  /** The first `limit` elements of `xs`, all of them for limit 0, none for
      a negative limit. */
  function Window(xs: seq<Item>, limit: int): seq<Item> {
    if limit == 0 then xs
    else if limit < 0 then []
    else if limit < |xs| then xs[..limit]
    else xs
  }

  /** First loop of `changeFilter`, one element of the copy of the view. */
  function PruneOne(p: Pass, f: Item -> bool, x: Item): Pass {
    if !f(x) then
      var st := InternalRemove(p.elems, x);
      Pass(st.elems, p.fired + st.events, p.changes + [RemoveChange(x)])
    else p
  }

  function Prune(p: Pass, f: Item -> bool, todo: seq<Item>): Pass
    decreases |todo|
  {
    if todo == [] then p else PruneOne(Prune(p, f, todo[..|todo| - 1]), f, todo[|todo| - 1])
  }

  /** Second loop of `changeFilter`, one element of the copy of the source;
      the recorded change is `CollectionChange(ADD, it, null)`. */
  function GraftOne(p: Pass, f: Item -> bool, x: Item): Pass {
    if f(x) && x !in p.elems then
      var st := InternalAdd(p.elems, x);
      Pass(st.elems, p.fired + st.events, p.changes + [Change(Add, Some(x), None)])
    else p
  }

  function Graft(p: Pass, f: Item -> bool, src: seq<Item>): Pass
    decreases |src|
  {
    if src == [] then p else GraftOne(Graft(p, f, src[..|src| - 1]), f, src[|src| - 1])
  }

  /** `changeFilter`: prune the view by the new predicate, then add every
      accepted source element not already in it. */
  function Resync(view: seq<Item>, f: Item -> bool, src: seq<Item>): Pass {
    Graft(Prune(Pass(view, [], []), f, view), f, src)
  }

  // ---------------------------------------------------------------------
  // The classification of source events

  /** A source ADD(null, a) reaches the view iff `f(a)` and the view is below
      its limit; it then adds `a` (ignored if an equal element is there)
      and the batch is [ADD(null, a)]; otherwise nothing happens. */
  lemma AddGate(view: seq<Item>, f: Item -> bool, limit: int, a: Item)
    ensures Downstream(view, f, limit, AddChange(a)) ==
      if f(a) && (limit == 0 || |view| < limit) then [AddChange(a)] else []
    ensures React(view, f, limit, AddChange(a)) ==
      if f(a) && (limit == 0 || |view| < limit) then InternalAdd(view, a) else Step(view, [])
  {
  }

  /** A source REMOVE(b, null) reaches a sorted view iff `f(b)` and fewer
      than `limit` of the view's own elements compare less than `b`; it
      then removes the element equal to `b` and the batch is
      [REMOVE(b, null)]. */
  lemma RemoveGate(view: seq<Item>, f: Item -> bool, limit: int, b: Item)
    requires Sorted(view)
    ensures Downstream(view, f, limit, RemoveChange(b)) ==
      if f(b) && (limit == 0 || CountBelow(view, b.key) < limit) then [RemoveChange(b)] else []
    ensures React(view, f, limit, RemoveChange(b)) ==
      if f(b) && (limit == 0 || CountBelow(view, b.key) < limit) then InternalRemove(view, b) else Step(view, [])
  {
    IndexIsRank(view, b);
  }

  /** A source MODIFY(b, a) inside the limit window maps to REMOVE(b) when
      only `b` passes the predicate, ADD(a) when only `a` does,
      MODIFY(b, a) when both do, and nothing when neither does; outside the
      window it maps to nothing. */
  lemma ModifyTable(view: seq<Item>, f: Item -> bool, limit: int, b: Item, a: Item)
    ensures var inWindow := limit == 0 || InsertionIndexOf(view, b) < limit;
      var d := Classify(view, f, limit, ModifyChange(b, a));
      && (!inWindow ==> d == None)
      && (inWindow && f(b) && !f(a) ==> d == Some(RemoveChange(b)))
      && (inWindow && !f(b) && f(a) ==> d == Some(AddChange(a)))
      && (inWindow && f(b) && f(a) ==> d == Some(ModifyChange(b, a)))
      && (inWindow && !f(b) && !f(a) ==> d == None)
  {
  }

  /** With a positive limit the ADD path never takes the view past it. */
  lemma AddWithinLimit(view: seq<Item>, f: Item -> bool, limit: int, a: Item)
    requires limit > 0 && |view| <= limit
    ensures |React(view, f, limit, AddChange(a)).elems| <= limit
  {
  }

  /** The MODIFY path adds without checking the limit: a full view grows
      past it when `b` is inside the window and only `a` passes. */
  lemma ModifyIgnoresLimit(view: seq<Item>, f: Item -> bool, limit: int, b: Item, a: Item)
    requires limit > 0 && |view| == limit && Sorted(view)
    requires InsertionIndexOf(view, b) < limit && !f(b) && f(a) && !HasKey(view, a.key)
    ensures |React(view, f, limit, ModifyChange(b, a)).elems| == limit + 1
  {
    InternalAddSpec(view, a);
  }

  // ---------------------------------------------------------------------
  // The registration replay

  lemma {:induction false} KeepSubset(xs: seq<Item>, f: Item -> bool)
    ensures forall y :: y in Keep(xs, f) ==> y in xs && f(y)
    decreases |xs|
  {
    if xs != [] {
      KeepSubset(xs[..|xs| - 1], f);
    }
  }

  /** Filtering a sorted prefix keeps the whole sorted. */
  lemma {:induction false} KeepSorted(p: seq<Item>, q: seq<Item>, f: Item -> bool)
    requires Sorted(p + q)
    ensures Sorted(Keep(p, f) + q)
    decreases |p|
  {
    if p != [] {
      var init := p[..|p| - 1];
      var x := p[|p| - 1];
      assert p == init + [x];
      if f(x) {
        assert init + ([x] + q) == p + q;
        KeepSorted(init, [x] + q, f);
        assert Keep(p, f) + q == Keep(init, f) + ([x] + q);
      } else {
        assert p + q == init + [x] + q;
        DropOneSorted(init, x, q);
        KeepSorted(init, q, f);
        assert Keep(p, f) == Keep(init, f) + [];
        assert Keep(init, f) + [] == Keep(init, f);
      }
    }
  }

  /** A prefix of a sorted list is sorted. */
  lemma PrefixSorted(s: seq<Item>, n: nat)
    requires Sorted(s) && n <= |s|
    ensures Sorted(s[..n])
  {
  }

  /** The window is a prefix of the list it is taken from. */
  lemma WindowIsPrefix(xs: seq<Item>, limit: int)
    ensures |Window(xs, limit)| <= |xs|
    ensures Window(xs, limit) == xs[..|Window(xs, limit)|]
  {
    assert xs[..|xs|] == xs;
    assert xs[..0] == [];
  }

  /** One more element joins the window exactly when there was room for it. */
  lemma WindowSnoc(xs: seq<Item>, x: Item, limit: int)
    ensures limit == 0 || (limit > 0 && |xs| < limit) ==> Window(xs + [x], limit) == Window(xs, limit) + [x]
    ensures limit < 0 || (limit > 0 && |xs| >= limit) ==> Window(xs + [x], limit) == Window(xs, limit)
    ensures limit > 0 ==> (|Window(xs, limit)| < limit <==> |xs| < limit)
  {
    if limit > 0 && |xs| >= limit {
      assert (xs + [x])[..limit] == xs[..limit];
    }
  }

  /** Every element kept from `xs` sorts before what follows `xs` in a
      sorted list. */
  lemma KeptBelow(ys: seq<Item>, x: Item, f: Item -> bool, cur: seq<Item>)
    requires Sorted(ys + [x])
    requires forall y :: y in cur ==> y in Keep(ys, f)
    ensures forall j :: 0 <= j < |cur| ==> cur[j].key < x.key
  {
    KeepSubset(ys, f);
    forall j | 0 <= j < |cur|
      ensures cur[j].key < x.key
    {
      assert cur[j] in cur;
      var k :| 0 <= k < |ys| && ys[k] == cur[j];
      assert (ys + [x])[k] == ys[k] && (ys + [x])[|ys|] == x;
    }
  }

  /** Adding an element that sorts after every element of a sorted list
      appends it. */
  lemma AddAtEnd(s: seq<Item>, e: Item)
    requires Sorted(s)
    requires forall j :: 0 <= j < |s| ==> s[j].key < e.key
    ensures InternalAdd(s, e) == Step(s + [e], [AddChange(e)])
  {
    var i := InsertionIndexOf(s, e);
    assert i == |s|;
    assert s[..i] + [e] + s[i..] == s + [e];
  }

  /** Registering on a sorted source fills the view with the first `limit`
      source elements the predicate accepts (all of them for limit 0), in
      source order. */
  lemma {:induction false} AdmitWindow(f: Item -> bool, limit: int, xs: seq<Item>)
    requires Sorted(xs)
    ensures Admit(f, limit, xs) == Window(Keep(xs, f), limit)
    decreases |xs|
  {
    if xs != [] {
      var ys := xs[..|xs| - 1];
      assert xs == ys + [xs[|xs| - 1]];
      PrefixSorted(xs, |xs| - 1);
      AdmitWindow(f, limit, ys);
      AdmitWindowStep(f, limit, ys, xs[|xs| - 1]);
    }
  }

  lemma AdmitWindowStep(f: Item -> bool, limit: int, ys: seq<Item>, x: Item)
    requires Sorted(ys + [x])
    requires Admit(f, limit, ys) == Window(Keep(ys, f), limit)
    ensures Admit(f, limit, ys + [x]) == Window(Keep(ys + [x], f), limit)
    ensures var cur := Admit(f, limit, ys);
      React(cur, f, limit, AddChange(x)) ==
        if f(x) && (limit == 0 || |cur| < limit) then Step(cur + [x], [AddChange(x)]) else Step(cur, [])
  {
    var kept := Keep(ys, f);
    var cur := Admit(f, limit, ys);
    assert (ys + [x])[..|ys|] == ys;
    assert Admit(f, limit, ys + [x]) == React(cur, f, limit, AddChange(x)).elems;
    AddGate(cur, f, limit, x);
    KeepSnoc(ys, x, f);
    assert kept + [] == kept;
    WindowSnoc(kept, x, limit);
    if f(x) && (limit == 0 || |cur| < limit) {
      assert Sorted(cur) && forall j :: 0 <= j < |cur| ==> cur[j].key < x.key by {
        PrefixSorted(ys + [x], |ys|);
        KeepSorted(ys, [], f);
        WindowIsPrefix(kept, limit);
        PrefixSorted(kept, |cur|);
        assert forall y :: y in cur ==> y in kept;
        KeptBelow(ys, x, f, cur);
      }
      AddAtEnd(cur, x);
    }
  }

  /** On a sorted source the replay fires ADD(null, e) on the view for each
      element it admits, in order, and nothing else. */
  lemma {:induction false} AdmitEventsAdds(f: Item -> bool, limit: int, xs: seq<Item>)
    requires Sorted(xs)
    ensures AdmitEvents(f, limit, xs) == AddsOf(Window(Keep(xs, f), limit))
    decreases |xs|
  {
    AdmitWindow(f, limit, xs);
    if xs != [] {
      var ys, x := xs[..|xs| - 1], xs[|xs| - 1];
      assert xs == ys + [x];
      PrefixSorted(xs, |xs| - 1);
      AdmitEventsAdds(f, limit, ys);
      AdmitWindow(f, limit, ys);
      AdmitWindowStep(f, limit, ys, x);
      var cur := Admit(f, limit, ys);
      if f(x) && (limit == 0 || |cur| < limit) {
        AddsOfSnoc(cur, x);
      } else {
        assert AdmitEvents(f, limit, xs) == AdmitEvents(f, limit, ys) + [];
      }
    }
  }

  lemma {:induction false} AddsOfSnoc(s: seq<Item>, x: Item)
    ensures AddsOf(s + [x]) == AddsOf(s) + [AddChange(x)]
    decreases |s|
  {
    if s != [] {
      assert (s + [x])[1..] == s[1..] + [x];
      AddsOfSnoc(s[1..], x);
    }
  }

  /** The predicate of the example below. */
  predicate ZeroPayload(x: Item) {
    x.payload == 0
  }

  /** The view can keep an element the source has dropped. With a limit of
      1 the view admits only the second element of the source. A MODIFY that
      makes the first element pass grows the view past its limit, and the
      source's later REMOVE of the second element is then blocked, because
      that element no longer sits below the limit in the view. */
  lemma ViewKeepsRemovedElement()
    ensures
      var a, b, c := Item(1, "", 1), Item(1, "", 0), Item(2, "", 0);
      var m := InternalModify([a, c], a, b);
      var v1 := React(Admit(ZeroPayload, 1, [a, c]), ZeroPayload, 1, ModifyChange(a, b)).elems;
      var r := InternalRemove(m.elems, c);
      var v2 := React(v1, ZeroPayload, 1, RemoveChange(c)).elems;
      && Admit(ZeroPayload, 1, [a, c]) == [c]
      && m == Step([b, c], [ModifyChange(a, b)])
      && v1 == [b, c]
      && r == Step([b], [RemoveChange(c)])
      && v2 == [b, c]
      && c !in r.elems && c in v2
  {
    var a, b, c := Item(1, "", 1), Item(1, "", 0), Item(2, "", 0);
    ExampleAdmit(a, c);
    ExampleSourceModify(a, b, c);
    ExampleViewModify(a, b, c);
    ExampleSourceRemove(b, c);
    ExampleViewRemoveBlocked(b, c);
  }

  lemma ExampleAdmit(a: Item, c: Item)
    requires a == Item(1, "", 1) && c == Item(2, "", 0)
    ensures Admit(ZeroPayload, 1, [a, c]) == [c]
  {
    var s0 := [a, c];
    assert Sorted(s0);
    assert Keep(s0, ZeroPayload) == [c] by {
      assert s0[..1] == [a] && [a][..0] == [];
      assert Keep([a], ZeroPayload) == [];
    }
    AdmitWindow(ZeroPayload, 1, s0);
  }

  lemma ExampleSourceModify(a: Item, b: Item, c: Item)
    requires a == Item(1, "", 1) && b == Item(1, "", 0) && c == Item(2, "", 0)
    ensures InternalModify([a, c], a, b) == Step([b, c], [ModifyChange(a, b)])
  {
    var s0 := [a, c];
    assert Sorted(s0);
    IndexIsRank(s0, b);
    assert CountBelow(s0, 1) == 0;
    ModifyInPlace(s0, a, b);
  }

  lemma ExampleViewModify(a: Item, b: Item, c: Item)
    requires a == Item(1, "", 1) && b == Item(1, "", 0) && c == Item(2, "", 0)
    ensures React([c], ZeroPayload, 1, ModifyChange(a, b)).elems == [b, c]
  {
    assert Sorted([c]);
    IndexIsRank([c], a);
    IndexIsRank([c], b);
    assert CountBelow([c], 1) == 0 by {
      assert [c][1..] == [];
    }
    assert [c][..0] + [b] + [c][0..] == [b, c];
  }

  lemma ExampleSourceRemove(b: Item, c: Item)
    requires b == Item(1, "", 0) && c == Item(2, "", 0)
    ensures InternalRemove([b, c], c) == Step([b], [RemoveChange(c)])
  {
    var s := [b, c];
    assert Sorted(s);
    IndexIsRank(s, c);
    assert CountBelow(s, 2) == 1 by {
      assert s[1..] == [c] && [c][1..] == [];
    }
    assert s[..1] + s[2..] == [b];
  }

  lemma ExampleViewRemoveBlocked(b: Item, c: Item)
    requires b == Item(1, "", 0) && c == Item(2, "", 0)
    ensures React([b, c], ZeroPayload, 1, RemoveChange(c)).elems == [b, c]
  {
    var s := [b, c];
    assert Sorted(s);
    IndexIsRank(s, c);
    assert CountBelow(s, 2) == 1 by {
      assert s[1..] == [c] && [c][1..] == [];
    }
  }

  // ---------------------------------------------------------------------
  // changeFilter

  lemma PruneStep(p: Pass, f: Item -> bool, todo: seq<Item>, i: nat)
    requires i < |todo|
    ensures Prune(p, f, todo[..i + 1]) == PruneOne(Prune(p, f, todo[..i]), f, todo[i])
  {
    assert todo[..i + 1][..i] == todo[..i];
  }

  lemma GraftStep(p: Pass, f: Item -> bool, src: seq<Item>, i: nat)
    requires i < |src|
    ensures Graft(p, f, src[..i + 1]) == GraftOne(Graft(p, f, src[..i]), f, src[i])
  {
    assert src[..i + 1][..i] == src[..i];
  }

  /** The first loop records only REMOVE(x, null) of rejected elements. */
  lemma {:induction false} PruneChanges(p: Pass, f: Item -> bool, todo: seq<Item>)
    ensures forall c :: c in Prune(p, f, todo).changes ==>
      c in p.changes || (c.kind == Remove && c.before.Some? && c.after.None? && !f(c.before.value))
    decreases |todo|
  {
    if todo != [] {
      PruneChanges(p, f, todo[..|todo| - 1]);
    }
  }

  lemma KeepSnoc(ys: seq<Item>, x: Item, f: Item -> bool)
    ensures Keep(ys + [x], f) == Keep(ys, f) + if f(x) then [x] else []
  {
    assert (ys + [x])[..|ys|] == ys;
  }

  /** After the first loop has visited `xs`, the front of a sorted view
      `xs + rest`, the rejected elements of `xs` are gone and the rest is
      intact. */
  lemma {:induction false} PruneKeeps(p: Pass, f: Item -> bool, xs: seq<Item>, rest: seq<Item>)
    requires p.elems == xs + rest && Sorted(xs + rest)
    ensures Prune(p, f, xs).elems == Keep(xs, f) + rest
    decreases |xs|
  {
    if xs == [] {
      assert Keep(xs, f) + rest == rest;
    } else {
      var init, x := xs[..|xs| - 1], xs[|xs| - 1];
      assert init + [x] == xs;
      assert init + ([x] + rest) == xs + rest;
      PruneKeeps(p, f, init, [x] + rest);
      if f(x) {
        PruneKeepStep(p, f, init, x, rest);
      } else {
        var kept := Keep(init, f);
        assert InternalRemove(kept + ([x] + rest), x).elems == kept + rest by {
          KeepSorted(init, [x] + rest, f);
          RemoveOwnIndex(kept, x, rest);
        }
        PruneDropStep(p, f, init, x, rest);
      }
    }
  }

  /** Removing a member of a sorted list removes exactly that member. */
  lemma RemoveOwnIndex(kept: seq<Item>, x: Item, rest: seq<Item>)
    requires Sorted(kept + ([x] + rest))
    ensures InternalRemove(kept + ([x] + rest), x).elems == kept + rest
  {
    var cur := kept + ([x] + rest);
    assert cur[|kept|] == x;
    IndexOfMember(cur, |kept|);
    assert cur[..|kept|] == kept && cur[|kept| + 1..] == rest;
  }

  /** One step of the first loop on a rejected element: it is removed. */
  lemma PruneDropStep(p: Pass, f: Item -> bool, init: seq<Item>, x: Item, rest: seq<Item>)
    requires !f(x)
    requires InternalRemove(Keep(init, f) + ([x] + rest), x).elems == Keep(init, f) + rest
    requires Prune(p, f, init).elems == Keep(init, f) + ([x] + rest)
    ensures Prune(p, f, init + [x]).elems == Keep(init + [x], f) + rest
  {
    var kept := Keep(init, f);
    PruneSnoc(p, f, init, x);
    KeepSnoc(init, x, f);
    assert kept + [] == kept;
  }

  /** One step of the first loop on an accepted element: it stays. */
  lemma PruneKeepStep(p: Pass, f: Item -> bool, init: seq<Item>, x: Item, rest: seq<Item>)
    requires f(x)
    requires Prune(p, f, init).elems == Keep(init, f) + ([x] + rest)
    ensures Prune(p, f, init + [x]).elems == Keep(init + [x], f) + rest
  {
    var kept := Keep(init, f);
    PruneSnoc(p, f, init, x);
    assert Keep(init + [x], f) == kept + [x] by {
      KeepSnoc(init, x, f);
    }
    assert kept + ([x] + rest) == kept + [x] + rest;
  }

  lemma PruneSnoc(p: Pass, f: Item -> bool, todo: seq<Item>, x: Item)
    ensures Prune(p, f, todo + [x]) == PruneOne(Prune(p, f, todo), f, x)
  {
    assert (todo + [x])[..|todo|] == todo;
  }

  /** The second loop keeps the list sorted, never loses an element, only
      adds accepted elements, and leaves every accepted source element it
      visits with an element of the same key in the view. */
  lemma {:induction false} GraftSpec(p: Pass, f: Item -> bool, src: seq<Item>)
    requires Sorted(p.elems)
    ensures var r := Graft(p, f, src);
      && Sorted(r.elems)
      && (forall y :: y in p.elems ==> y in r.elems)
      && (forall y :: y in r.elems ==> y in p.elems || (y in src && f(y)))
      && (forall x :: x in src && f(x) ==> HasKey(r.elems, x.key))
      && (forall c :: c in r.changes ==>
            c in p.changes || (c.kind == Add && c.before.Some? && c.after.None? && f(c.before.value)))
    decreases |src|
  {
    if src != [] {
      var init := src[..|src| - 1];
      GraftSpec(p, f, init);
      GraftSpecStep(p, f, init, src[|src| - 1]);
      assert src == init + [src[|src| - 1]];
    }
  }

  lemma GraftSpecStep(p: Pass, f: Item -> bool, init: seq<Item>, x: Item)
    requires var q := Graft(p, f, init);
      && Sorted(q.elems)
      && (forall y :: y in p.elems ==> y in q.elems)
      && (forall y :: y in q.elems ==> y in p.elems || (y in init && f(y)))
      && (forall z :: z in init && f(z) ==> HasKey(q.elems, z.key))
      && (forall c :: c in q.changes ==>
            c in p.changes || (c.kind == Add && c.before.Some? && c.after.None? && f(c.before.value)))
    ensures var r := Graft(p, f, init + [x]);
      && Sorted(r.elems)
      && (forall y :: y in p.elems ==> y in r.elems)
      && (forall y :: y in r.elems ==> y in p.elems || (y in init + [x] && f(y)))
      && (forall z :: z in init + [x] && f(z) ==> HasKey(r.elems, z.key))
      && (forall c :: c in r.changes ==>
            c in p.changes || (c.kind == Add && c.before.Some? && c.after.None? && f(c.before.value)))
  {
    var q := Graft(p, f, init);
    assert (init + [x])[..|init|] == init;
    GraftOneSpec(q, f, x);
    var r := GraftOne(q, f, x);
    forall z | z in init + [x] && f(z)
      ensures HasKey(r.elems, z.key)
    {
      if z != x {
        assert z in init;
        var j :| 0 <= j < |q.elems| && q.elems[j].key == z.key;
        assert q.elems[j] in r.elems;
      }
    }
  }

  /** One step of the second loop. */
  lemma GraftOneSpec(q: Pass, f: Item -> bool, x: Item)
    requires Sorted(q.elems)
    ensures var r := GraftOne(q, f, x);
      && Sorted(r.elems)
      && (forall y :: y in q.elems ==> y in r.elems)
      && (forall y :: y in r.elems ==> y in q.elems || (y == x && f(x)))
      && (f(x) ==> HasKey(r.elems, x.key))
      && (forall c :: c in r.changes ==>
            c in q.changes || (c.kind == Add && c.before.Some? && c.after.None? && f(c.before.value)))
  {
    InternalAddSpec(q.elems, x);
    var r := GraftOne(q, f, x);
    if f(x) && x !in q.elems && !HasKey(q.elems, x.key) {
      assert forall y :: y in q.elems ==> y in multiset(r.elems);
      assert forall y :: y in r.elems ==> y in multiset(q.elems) + multiset{x};
      assert x in multiset(r.elems);
    } else if f(x) && x in q.elems {
      var j :| 0 <= j < |q.elems| && q.elems[j] == x;
    }
  }

  /** `changeFilter(f)` on a sorted view: the view stays sorted, everything
      left in it passes `f`, what passed `f` before stays, and every source
      element passing `f` has an element of the same key in it, however many
      that makes (no limit). The batch holds REMOVE(x, null) for rejected
      elements and ADD changes carrying `before = x, after = null`. */
  lemma ResyncSpec(view: seq<Item>, f: Item -> bool, src: seq<Item>)
    requires Sorted(view)
    ensures var r := Resync(view, f, src);
      && Sorted(r.elems)
      && (forall y :: y in r.elems ==> f(y) && (y in view || y in src))
      && (forall y :: y in view && f(y) ==> y in r.elems)
      && (forall x :: x in src && f(x) ==> HasKey(r.elems, x.key))
      && (forall c :: c in r.changes ==>
            (c.kind == Remove && c.before.Some? && c.after.None? && !f(c.before.value))
            || (c.kind == Add && c.before.Some? && c.after.None? && f(c.before.value)))
  {
    assert view + [] == view;
    PruneKeeps(Pass(view, [], []), f, view, []);
    PruneChanges(Pass(view, [], []), f, view);
    var p := Prune(Pass(view, [], []), f, view);
    assert p.elems == Keep(view, f);
    KeepSubset(view, f);
    assert Keep(view, f) + [] == Keep(view, f);
    KeepSorted(view, [], f);
    GraftSpec(p, f, src);
    forall y | y in view && f(y)
      ensures y in p.elems
    {
      KeepHas(view, f, y);
    }
  }

  /** `changeFilter` covers accepted source keys, not accepted source
      elements: an accepted source element whose key the view already holds
      under a different element stays out, because `onInternalAdd` ignores
      an element that compares equal to one present. */
  lemma ResyncSkipsSameKey()
    ensures var r := Resync([Item(1, "a", 0)], _ => true, [Item(1, "a", 1)]).elems;
      r == [Item(1, "a", 0)] && Item(1, "a", 1) !in r
  {
    var view, src := [Item(1, "a", 0)], [Item(1, "a", 1)];
    var f: Item -> bool := _ => true;
    assert view[..0] == [];
    assert Prune(Pass(view, [], []), f, view).elems == view;
    assert src[..0] == [];
    assert HasKey(view, 1) by {
      assert view[0].key == 1;
    }
    InternalAddSpec(view, src[0]);
  }

  /** When the view holds only source elements, `changeFilter(f)` leaves it
      holding exactly the source elements that pass `f`, in order. The
      hypothesis is the caller's: a MODIFY that passes the limit followed by
      a REMOVE the limit then blocks can leave an element in the view that
      the source no longer has. */
  lemma ResyncExact(view: seq<Item>, f: Item -> bool, src: seq<Item>)
    requires Sorted(view) && Sorted(src)
    requires forall y :: y in view ==> y in src
    ensures Resync(view, f, src).elems == Keep(src, f)
  {
    var r := Resync(view, f, src).elems;
    var k := Keep(src, f);
    ResyncSpec(view, f, src);
    KeepSubset(src, f);
    assert Sorted(k) by {
      assert src + [] == src;
      KeepSorted(src, [], f);
      assert k + [] == k;
    }
    forall y | y in r
      ensures y in k
    {
      KeepHas(src, f, y);
    }
    forall y | y in k
      ensures y in r
    {
      var j :| 0 <= j < |r| && r[j].key == y.key;
      SameKeySame(src, r[j], y);
    }
    SortedSameMembers(r, k);
  }

  /** In a sorted list no two distinct elements share a key. */
  lemma SameKeySame(s: seq<Item>, a: Item, b: Item)
    requires Sorted(s) && a in s && b in s && a.key == b.key
    ensures a == b
  {
    var i :| 0 <= i < |s| && s[i] == a;
    var j :| 0 <= j < |s| && s[j] == b;
  }

  /** Two sorted lists with the same members are equal. */
  lemma {:induction false} SortedSameMembers(a: seq<Item>, b: seq<Item>)
    requires Sorted(a) && Sorted(b)
    requires forall y :: y in a <==> y in b
    ensures a == b
    decreases |a|
  {
    assert a == [] || a[0] in b;
    assert b == [] || b[0] in a;
    if a != [] {
      SameMembersHead(a, b);
      SameMembersTail(a, b);
      SortedSameMembers(a[1..], b[1..]);
      assert a == [a[0]] + a[1..] && b == [b[0]] + b[1..];
    }
  }

  lemma SameMembersHead(a: seq<Item>, b: seq<Item>)
    requires Sorted(a) && Sorted(b) && a != [] && b != []
    requires forall y :: y in a <==> y in b
    ensures a[0] == b[0]
  {
    assert b[0] in a && a[0] in b;
    var i :| 0 <= i < |a| && a[i] == b[0];
    var j :| 0 <= j < |b| && b[j] == a[0];
    assert a[0].key <= a[i].key && b[0].key <= b[j].key;
  }

  lemma SameMembersTail(a: seq<Item>, b: seq<Item>)
    requires Sorted(a) && Sorted(b) && a != [] && b != [] && a[0] == b[0]
    requires forall y :: y in a <==> y in b
    ensures Sorted(a[1..]) && Sorted(b[1..])
    ensures forall y :: y in a[1..] <==> y in b[1..]
  {
    forall y | y in a[1..]
      ensures y in b[1..]
    {
      var m :| 1 <= m < |a| && a[m] == y;
      assert a[0].key < a[m].key;
      assert y in b;
      assert b == [b[0]] + b[1..];
    }
    forall y | y in b[1..]
      ensures y in a[1..]
    {
      var m :| 1 <= m < |b| && b[m] == y;
      assert b[0].key < b[m].key;
      assert y in a;
      assert a == [a[0]] + a[1..];
    }
  }

  lemma {:induction false} KeepHas(xs: seq<Item>, f: Item -> bool, y: Item)
    requires y in xs && f(y)
    ensures y in Keep(xs, f)
    decreases |xs|
  {
    var init := xs[..|xs| - 1];
    assert xs == init + [xs[|xs| - 1]];
    if y != xs[|xs| - 1] {
      KeepHas(init, f, y);
    }
  }

  /** The events a second-loop pass fires only extend those fired before it. */
  lemma {:induction false} GraftShift(e: seq<Item>, fs: seq<Change<Item>>, ch: Batch, f: Item -> bool, src: seq<Item>)
    ensures var g := Graft(Pass(e, [], ch), f, src);
      Graft(Pass(e, fs, ch), f, src) == Pass(g.elems, fs + g.fired, g.changes)
    decreases |src|
  {
    if src != [] {
      GraftShift(e, fs, ch, f, src[..|src| - 1]);
    }
  }

  /** FilterManager: a view over `source`, with its own collection `view`
      (the list it shows, its own listeners and batch listeners). */
  class FilterManager {
    const source: CollectionManager
    const view: CollectionManager
    const name: string
    const limit: int
    var filterFn: Item -> bool

    ghost predicate Valid()
      reads this, source, view, source.bus, view.bus
    {
      && source.Valid() && view.Valid()
      && source != view && source.bus != view.bus
    }

    /** The constructor subscribes to `source` under `Tag(name)`; the
        source's replay of its elements runs through the subscription, so
        the view starts as the accepted elements within the limit. */
    constructor (source: CollectionManager, name: string, limit: int, filterFn: Item -> bool)
      requires source.Valid()
      modifies source.bus
      ensures Valid()
      ensures this.source == source && this.name == name && this.limit == limit && this.filterFn == filterFn
      ensures fresh(view) && fresh(view.bus)
      ensures view.elems == Admit(filterFn, limit, source.elems)
      ensures view.bus.fired == AdmitEvents(filterFn, limit, source.elems)
      ensures view.bus.entries == [] && !view.bus.initialized && view.bus.delivered == []
      ensures view.allListeners == [] && view.batches == []
      ensures source.bus.entries == Put(old(source.bus.entries), Tag(name), Callback(Tag(name)))
      ensures source.bus.initialized == old(source.bus.initialized)
      ensures source.bus.fired == old(source.bus.fired)
      ensures source.bus.delivered == old(source.bus.delivered) + Replayed(Callback(Tag(name)), AddsOf(source.elems))
    {
      this.source := source;
      this.name := name;
      this.limit := limit;
      this.filterFn := filterFn;
      view := new CollectionManager();
      new;
      var replay := source.elems;
      source.RegisterListener(Tag(name), Callback(Tag(name)));
      ReplaySource(replay);
    }

    /** The source's replay to the new subscription: one source ADD per
        element, in order, on a view that has no listener yet. */
    method ReplaySource(replay: seq<Item>)
      requires Valid()
      requires view.elems == [] && view.bus.fired == []
      requires view.bus.entries == [] && !view.bus.initialized && view.bus.delivered == []
      requires view.allListeners == [] && view.batches == []
      modifies view, view.bus
      ensures Valid()
      ensures view.elems == Admit(filterFn, limit, replay)
      ensures view.bus.fired == AdmitEvents(filterFn, limit, replay)
      ensures view.bus.entries == [] && !view.bus.initialized && view.bus.delivered == []
      ensures view.allListeners == [] && view.batches == []
    {
      var i := 0;
      assert replay[..0] == [];
      while i < |replay|
        invariant 0 <= i <= |replay|
        invariant Valid()
        invariant view.elems == Admit(filterFn, limit, replay[..i])
        invariant view.bus.fired == AdmitEvents(filterFn, limit, replay[..i])
        invariant view.bus.entries == [] && !view.bus.initialized && view.bus.delivered == []
        invariant view.allListeners == [] && view.batches == []
      {
        assert replay[..i + 1][..i] == replay[..i];
        ghost var fired0 := view.bus.fired;
        OnSourceEvent(Add, None, Some(replay[i]));
        assert view.bus.fired == fired0 + React(Admit(filterFn, limit, replay[..i]), filterFn, limit, AddChange(replay[i])).events;
        FanoutAllNobody(view.bus.fired[|fired0|..]);
        i := i + 1;
      }
      assert replay[..i] == replay;
    }

    /** The subscription lambda, run for one source event. */
    method OnSourceEvent(event: EventKind, b: Option<Item>, a: Option<Item>)
      requires Valid()
      modifies view, view.bus
      ensures Valid()
      ensures var c := Change(event, b, a);
        var r := React(old(view.elems), filterFn, limit, c);
        var d := Downstream(old(view.elems), filterFn, limit, c);
        && view.elems == r.elems
        && view.bus.Emitted(r.events)
        && view.allListeners == old(view.allListeners)
        && view.batches == old(view.batches) + if d == [] then [] else Fanout(view.allListeners, d)
    {
      ghost var d := Downstream(view.elems, filterFn, limit, Change(event, b, a));
      var allChanged: Batch := [];
      match event {
      case Add =>
        if a.None? {
          return;
        }
        var elem := a.value;
        if filterFn(elem) && (limit == 0 || |view.elems| < limit) {
          view.OnInternalAdd(elem);
          allChanged := allChanged + [AddChange(elem)];
        }
      case Remove =>
        if b.None? {
          return;
        }
        var elem := b.value;
        if filterFn(elem) && (limit == 0 || InsertionIndexOf(view.elems, elem) < limit) {
          view.OnInternalRemove(elem);
          allChanged := allChanged + [RemoveChange(elem)];
        }
      case Modify =>
        if b.None? || a.None? {
          return;
        }
        var e1 := b.value;
        var e2 := a.value;
        if limit == 0 || InsertionIndexOf(view.elems, e1) < limit {
          if filterFn(e1) && !filterFn(e2) {
            view.OnInternalRemove(e1);
            allChanged := allChanged + [RemoveChange(e1)];
          } else if filterFn(e2) && !filterFn(e1) {
            view.OnInternalAdd(e2);
            allChanged := allChanged + [AddChange(e2)];
          } else if filterFn(e1) && filterFn(e2) {
            view.OnInternalModify(e1, e2);
            allChanged := allChanged + [ModifyChange(e1, e2)];
          }
        }
      }
      assert allChanged == d;
      if allChanged != [] {
        view.OnAllChanges(allChanged);
      }
    }

    /** `changeFilter`: install the new predicate, drop the rejected
        elements of the view, add the accepted source elements it lacks,
        then send the collected changes to the batch listeners. */
    method ChangeFilter(newFilterFn: Item -> bool)
      requires Valid()
      modifies this, view, view.bus
      ensures Valid()
      ensures filterFn == newFilterFn
      ensures var r := Resync(old(view.elems), newFilterFn, source.elems);
        && view.elems == r.elems
        && view.bus.Emitted(r.fired)
        && view.allListeners == old(view.allListeners)
        && view.batches == old(view.batches) + if r.changes == [] then [] else Fanout(view.allListeners, r.changes)
    {
      filterFn := newFilterFn;
      ghost var src := source.elems;
      ghost var pruned := Prune(Pass(old(view.elems), [], []), newFilterFn, old(view.elems));
      ghost var g := Graft(Pass(pruned.elems, [], pruned.changes), newFilterFn, src);
      ghost var r := Resync(old(view.elems), newFilterFn, src);
      GraftShift(pruned.elems, pruned.fired, pruned.changes, newFilterFn, src);
      assert r == Pass(g.elems, pruned.fired + g.fired, g.changes);
      ghost var fired0, delivered0 := view.bus.fired, view.bus.delivered;
      ghost var rs := Recipients(view.bus.entries);
      FanoutAllAppend(rs, pruned.fired, g.fired);
      var allChanged := PruneView(view.elems);
      ghost var delivered1 := view.bus.delivered;
      assert delivered1 == delivered0 + FanoutAll(rs, pruned.fired);
      allChanged := GraftSource(source.elems, allChanged);
      assert view.bus.delivered == delivered1 + FanoutAll(rs, g.fired);
      assert view.elems == r.elems && allChanged == r.changes && source.elems == src;
      Associative(fired0, pruned.fired, g.fired);
      Associative(delivered0, FanoutAll(rs, pruned.fired), FanoutAll(rs, g.fired));
      if allChanged != [] {
        view.OnAllChanges(allChanged);
      }
    }

    /** First loop of `changeFilter`, over a copy of the view. */
    method PruneView(copy: seq<Item>) returns (allChanged: Batch)
      requires Valid() && copy == view.elems
      modifies view, view.bus
      ensures Valid()
      ensures var q := Prune(Pass(copy, [], []), filterFn, copy);
        && view.elems == q.elems && allChanged == q.changes
        && view.bus.Emitted(q.fired)
      ensures view.allListeners == old(view.allListeners) && view.batches == old(view.batches)
    {
      allChanged := [];
      ghost var p := Pass(copy, [], []);
      var i := 0;
      while i < |copy|
        invariant 0 <= i <= |copy|
        invariant Valid()
        invariant var q := Prune(p, filterFn, copy[..i]);
          && view.elems == q.elems && allChanged == q.changes
          && view.bus.Emitted(q.fired)
        invariant view.allListeners == old(view.allListeners) && view.batches == old(view.batches)
      {
        var x := copy[i];
        PruneStep(p, filterFn, copy, i);
        ghost var q := Prune(p, filterFn, copy[..i]);
        if !filterFn(x) {
          view.OnInternalRemove(x);
          ghost var rs := Recipients(view.bus.entries);
          FanoutAllAppend(rs, q.fired, InternalRemove(q.elems, x).events);
          Associative(old(view.bus.fired), q.fired, InternalRemove(q.elems, x).events);
          Associative(old(view.bus.delivered), FanoutAll(rs, q.fired), FanoutAll(rs, InternalRemove(q.elems, x).events));
          allChanged := allChanged + [RemoveChange(x)];
        }
        i := i + 1;
      }
      assert copy[..i] == copy;
    }

    /** Second loop of `changeFilter`, over a copy of the source. */
    method GraftSource(sourceCopy: seq<Item>, changes: Batch) returns (allChanged: Batch)
      requires Valid()
      modifies view, view.bus
      ensures Valid()
      ensures var q := Graft(Pass(old(view.elems), [], changes), filterFn, sourceCopy);
        && view.elems == q.elems && allChanged == q.changes
        && view.bus.Emitted(q.fired)
      ensures view.allListeners == old(view.allListeners) && view.batches == old(view.batches)
    {
      allChanged := changes;
      ghost var p := Pass(view.elems, [], changes);
      var k := 0;
      while k < |sourceCopy|
        invariant 0 <= k <= |sourceCopy|
        invariant Valid()
        invariant var q := Graft(p, filterFn, sourceCopy[..k]);
          && view.elems == q.elems && allChanged == q.changes
          && view.bus.Emitted(q.fired)
        invariant view.allListeners == old(view.allListeners) && view.batches == old(view.batches)
      {
        var x := sourceCopy[k];
        GraftStep(p, filterFn, sourceCopy, k);
        ghost var q := Graft(p, filterFn, sourceCopy[..k]);
        if filterFn(x) && x !in view.elems {
          view.OnInternalAdd(x);
          ghost var rs := Recipients(view.bus.entries);
          FanoutAllAppend(rs, q.fired, InternalAdd(q.elems, x).events);
          Associative(old(view.bus.fired), q.fired, InternalAdd(q.elems, x).events);
          Associative(old(view.bus.delivered), FanoutAll(rs, q.fired), FanoutAll(rs, InternalAdd(q.elems, x).events));
          allChanged := allChanged + [Change(Add, Some(x), None)];
        }
        k := k + 1;
      }
      assert sourceCopy[..k] == sourceCopy;
    }
  }
}
