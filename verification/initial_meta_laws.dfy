/**
 Laws relating the operations of the `InitialMeta` registry: what an
 append, a removal or a clear does to later resolutions, and how the
 unregister closures behave when called again or after a clear.
 */
module InitialMetaLaws {
  import opened Wrappers
  import opened Tldraw
  import opened InitialMeta

  /** The answer of a list that has just the one action `a`. */
  function Alone(a: Action, s: Shape, now: int): JsonObject {
    match a(s, now)
    case Some(m) => m
    case None => DefaultMeta(now)
  }

  /**
   A listener added last is consulted only when every earlier one declines;
   then it answers if it can, and otherwise the default stands.
   */
  lemma AddListenerResolve(r: Registry, a: Action, order: int, s: Shape, now: int)
    ensures NoMatch(r.entries, s, now) ==>
              Resolve(AddListener(r, a, order).0.entries, s, now) == Alone(a, s, now)
    ensures !NoMatch(r.entries, s, now) ==>
              Resolve(AddListener(r, a, order).0.entries, s, now) == Resolve(r.entries, s, now)
  {
    var added := AddListener(r, a, order).0;
    var item := added.entries[|r.entries|];
    assert added.entries == r.entries + [item];
    ResolveCases(r.entries, s, now);
    if NoMatch(r.entries, s, now) {
      ResolveAppendAfterDecline(r.entries, [item], s, now);
      assert NoMatch([item], s, now) || FirstMatch([item], s, now, 0);
    } else {
      var k :| FirstMatch(r.entries, s, now, k);
      ResolveAppendAfterMatch(r.entries, [item], s, now, k);
    }
  }

  /** Two lists with the same actions in the same positions resolve alike, whatever their order tags. */
  lemma {:induction false} ResolveIgnoresOrder(es1: seq<Entry>, es2: seq<Entry>, s: Shape, now: int)
    requires |es1| == |es2|
    requires forall i :: 0 <= i < |es1| ==> es1[i].action == es2[i].action
    ensures Resolve(es1, s, now) == Resolve(es2, s, now)
  {
    if |es1| > 0 {
      ResolveIgnoresOrder(es1[1..], es2[1..], s, now);
    }
  }

  /**
   The `order` argument of `addListener` decides neither where the item goes
   nor how shapes are resolved: registration order alone gives precedence.
   */
  lemma AddListenerIgnoresOrder(r: Registry, a: Action, o1: int, o2: int, s: Shape, now: int)
    ensures AddListener(r, a, o1).1 == AddListener(r, a, o2).1
    ensures Resolve(AddListener(r, a, o1).0.entries, s, now) == Resolve(AddListener(r, a, o2).0.entries, s, now)
  {
    var e1 := AddListener(r, a, o1).0.entries;
    var e2 := AddListener(r, a, o2).0.entries;
    forall i | 0 <= i < |e1|
      ensures e1[i].action == e2[i].action
    {
      if i < |r.entries| {
        assert e1[i] == e1[..|r.entries|][i];
        assert e2[i] == e2[..|r.entries|][i];
      }
    }
    ResolveIgnoresOrder(e1, e2, s, now);
  }

  /** Calling the closure of a just-added listener restores the list it was added to. */
  lemma AddThenUnregister(r: Registry, a: Action, order: int)
    requires Valid(r)
    ensures Unregister(AddListener(r, a, order).0, AddListener(r, a, order).1)
            == (Registry(r.entries, r.nextId + 1), true)
  {
    var (added, t) := AddListener(r, a, order);
    assert added.entries == r.entries + [Entry(t, a, order)];
    assert Holds(added.entries, t) by {
      assert added.entries[|r.entries|].id == t;
    }
    WithoutAbsent(r.entries, t);
    WithoutAppend(r.entries, Entry(t, a, order));
  }

  /** Taking out the identity of the last item, absent earlier, yields the items before it. */
  lemma {:induction false} WithoutAppend(es: seq<Entry>, e: Entry)
    requires !Holds(es, e.id)
    ensures Without(es + [e], e.id) == es
  {
    if |es| == 0 {
      assert es + [e] == [e];
    } else {
      assert (es + [e])[1..] == es[1..] + [e];
      forall j | 0 <= j < |es[1..]|
        ensures es[1..][j].id != e.id
      {
        assert es[1..][j] == es[j + 1];
      }
      WithoutAppend(es[1..], e);
      assert es == [es[0]] + es[1..];
    }
  }

  /**
   A second call of the same unregister closure finds its item gone: it
   reports `false` and leaves the registry as the first call left it.
   */
  lemma UnregisterTwice(r: Registry, t: Token)
    requires Valid(r)
    ensures Unregister(Unregister(r, t).0, t) == (Unregister(r, t).0, false)
  {
  }

  /**
   Registering the same action twice yields two items with their own
   identities; removing the first leaves the second in place.
   */
  lemma SameActionTwice(r: Registry, a: Action)
    requires Valid(r)
    ensures AddListener(r, a).1 != AddListener(AddListener(r, a).0, a).1
    ensures
      var (r1, t1) := AddListener(r, a);
      var (r2, t2) := AddListener(r1, a);
      Unregister(r2, t1).0.entries == r.entries + [Entry(t2, a, 0)]
  {
  }

  /**
   Registering `a1` then `a2` and removing `a1` leaves the registry resolving
   as if only `a2` had been added: the survivor keeps its place.
   */
  lemma AddTwiceRemoveFirst(r: Registry, a1: Action, o1: int, a2: Action, o2: int, s: Shape, now: int)
    requires Valid(r)
    ensures
      var (r1, t1) := AddListener(r, a1, o1);
      var (r2, t2) := AddListener(r1, a2, o2);
      var r3 := Unregister(r2, t1).0;
      && r3.entries == r.entries + [Entry(t2, a2, o2)]
      && Resolve(r3.entries, s, now) == Resolve(AddListener(r, a2, o2).0.entries, s, now)
  {
    var (r1, t1) := AddListener(r, a1, o1);
    var (r2, t2) := AddListener(r1, a2, o2);
    assert r2.entries == r.entries + [Entry(t1, a1, o1)] + [Entry(t2, a2, o2)];
    assert r2.entries[|r.entries|].id == t1;
    SpliceIsWithout(r2.entries, |r.entries|, t1);
    assert r2.entries[..|r.entries|] == r.entries;
    assert r2.entries[|r.entries| + 1..] == [Entry(t2, a2, o2)];
    var single := AddListener(r, a2, o2).0.entries;
    assert single == r.entries + [Entry(r.nextId, a2, o2)];
    ResolveIgnoresOrder(r.entries + [Entry(t2, a2, o2)], single, s, now);
  }

  /** After `clear`, a closure handed out earlier finds nothing to remove and reports `false`. */
  lemma UnregisterAfterClear(r: Registry, t: Token)
    ensures Unregister(Clear(r), t) == (Clear(r), false)
  {
  }

  /**
   Identities survive a clear: once new listeners are added to a cleared
   registry, a closure handed out before the clear still removes nothing.
   */
  lemma StaleCloseAfterClear(r: Registry, t: Token, a: Action, order: int)
    requires Valid(r) && Holds(r.entries, t)
    ensures
      var (r2, t2) := AddListener(Clear(r), a, order);
      t2 != t && Unregister(r2, t) == (r2, false)
  {
  }

  /** One call a caller can make on a registry between two calls of an unregister closure. */
  datatype Op = Add(action: Action, order: int) | Remove(token: Token) | ClearAll

  /** The registry after the calls `ops`, in order. */
  function Apply(r: Registry, ops: seq<Op>): (r': Registry)
    ensures Valid(r) ==> Valid(r')
    ensures forall t :: Issued(r, t) ==> Issued(r', t)
    decreases |ops|
  {
    if |ops| == 0 then r
    else
      var next := match ops[0]
        case Add(a, o) => AddListener(r, a, o).0
        case Remove(t) => Unregister(r, t).0
        case ClearAll => Clear(r);
      Apply(next, ops[1..])
  }

  /** The closure's identity was handed out and its item has since left the list. */
  ghost predicate Gone(r: Registry, t: Token) {
    Issued(r, t) && !Holds(r.entries, t)
  }

  /** A removed item never comes back: no add, removal or clear makes its identity present again. */
  lemma GoneStaysGone(r: Registry, t: Token, op: Op)
    requires Valid(r) && Gone(r, t)
    ensures match op
      case Add(a, o) => Gone(AddListener(r, a, o).0, t)
      case Remove(u) => Gone(Unregister(r, u).0, t)
      case ClearAll => Gone(Clear(r), t)
  {
  }

  /**
   Once its item is gone, an unregister closure reports `false` and changes
   nothing on every later call, whatever adds, removals and clears happened
   in between.
   */
  lemma {:induction false} GoneAfterAnyOps(r: Registry, t: Token, ops: seq<Op>)
    requires Valid(r) && Gone(r, t)
    ensures Gone(Apply(r, ops), t)
    ensures Unregister(Apply(r, ops), t) == (Apply(r, ops), false)
    decreases |ops|
  {
    if |ops| > 0 {
      GoneStaysGone(r, t, ops[0]);
      var next := match ops[0]
        case Add(a, o) => AddListener(r, a, o).0
        case Remove(u) => Unregister(r, u).0
        case ClearAll => Clear(r);
      GoneAfterAnyOps(next, t, ops[1..]);
    }
  }

  /**
   The first call of an unregister closure whose item is in the list
   reports `true`; every later call reports `false` and changes nothing,
   whatever adds, removals and clears happened in between.
   */
  lemma LaterCallsReportFalse(r: Registry, t: Token, after: seq<Op>)
    requires Valid(r) && Holds(r.entries, t)
    ensures Unregister(r, t).1
    ensures Unregister(Apply(Unregister(r, t).0, after), t) == (Apply(Unregister(r, t).0, after), false)
  {
    GoneAfterAnyOps(Unregister(r, t).0, t, after);
  }
}
