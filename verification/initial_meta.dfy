/**
 The ordered, short-circuiting metadata listener registry `InitialMeta`.

 A registry holds an ordered list of `{action, order}` items. Installed as
 the editor's `getInitialMetaForShape` hook, it asks each action in
 insertion order for the metadata of a new shape and answers with the first
 result it gets, or `{createAt: now}` when every action declines.
 `AddListener` appends an item and hands back the means to remove exactly
 that item again; `Clear` drops every item.

 JavaScript object identity (`v === item`) is modelled by giving every item
 a fresh `id`, drawn from a counter that `Clear` does not reset, so that an
 identity is never handed out twice by the same registry.
 */
module InitialMeta {
  import opened Wrappers
  import opened Tldraw

  /**
   A listener. Besides the shape it receives the clock reading of the
   resolution in progress, since the listeners sample `Date.now()`.
   */
  type Action = (Shape, int) -> Option<JsonObject>

  /** What the unregister closure returned by `AddListener` remembers: its item's identity. */
  type Token = nat

  /** One `{action, order}` item of the list; `id` is the item's identity. */
  datatype Entry = Entry(id: Token, action: Action, order: int)

  /** The state of one `InitialMeta` object: `_list`, plus the supply of fresh identities. */
  datatype Registry = Registry(entries: seq<Entry>, nextId: nat)

  /** No two items of the list are the same object. */
  ghost predicate UniqueIds(es: seq<Entry>) {
    forall i, j :: 0 <= i < j < |es| ==> es[i].id != es[j].id
  }

  /** Every item was handed out by this registry, and no item occurs twice. */
  ghost predicate Valid(r: Registry) {
    && (forall i :: 0 <= i < |r.entries| ==> r.entries[i].id < r.nextId)
    && UniqueIds(r.entries)
  }

  /** Some item of the list has identity `token`. */
  ghost predicate Holds(es: seq<Entry>, token: Token) {
    exists i :: 0 <= i < |es| && es[i].id == token
  }

  /**
   The registry has handed out identity `token` at some point, whether or
   not its item is still in the list.
   */
  ghost predicate Issued(r: Registry, token: Token) {
    token < r.nextId
  }

  /** `{ createAt: Date.now() }`: the answer when no listener supplies one. */
  function DefaultMeta(now: int): JsonObject {
    map["createAt" := JNum(now)]
  }

  /** Item `k` is the first item, in list order, whose action answers for `s`. */
  predicate FirstMatch(es: seq<Entry>, s: Shape, now: int, k: int) {
    && 0 <= k < |es|
    && es[k].action(s, now).Some?
    && forall j :: 0 <= j < k ==> es[j].action(s, now).None?
  }

  /** Every action of the list declines `s`. */
  predicate NoMatch(es: seq<Entry>, s: Shape, now: int) {
    forall j :: 0 <= j < |es| ==> es[j].action(s, now).None?
  }

  /** A new `InitialMeta`: its list is empty, so it answers every shape with the default. */
  function New(): (r: Registry)
    ensures Valid(r)
    ensures forall s: Shape, now: int :: Resolve(r.entries, s, now) == DefaultMeta(now)
  {
    Registry([], 0)
  }

  /**
   The function installed as `editor.getInitialMetaForShape`: the answer of
   the first item whose action answers, else the default.
   */
  function Resolve(es: seq<Entry>, s: Shape, now: int): JsonObject {
    if |es| == 0 then DefaultMeta(now)
    else
      match es[0].action(s, now)
      case Some(res) => res
      case None => Resolve(es[1..], s, now)
  }

  /**
   First match wins: when every action declines the answer is the default,
   and when item `k` is the first to answer, the answer is item `k`'s
   result, whatever the items after it would say.
   */
  lemma {:induction false} ResolveSpec(es: seq<Entry>, s: Shape, now: int)
    ensures NoMatch(es, s, now) ==> Resolve(es, s, now) == DefaultMeta(now)
    ensures forall k :: FirstMatch(es, s, now, k) ==> Resolve(es, s, now) == es[k].action(s, now).value
  {
    if |es| > 0 && es[0].action(s, now).None? {
      ResolveSpec(es[1..], s, now);
      assert forall k :: FirstMatch(es, s, now, k) ==> FirstMatch(es[1..], s, now, k - 1);
      assert NoMatch(es, s, now) ==> NoMatch(es[1..], s, now);
    }
  }

  /**
   The hook as the source writes it: a loop over the list that returns on
   the first answer. `calls` counts the actions invoked, so the contract also
   says that no action after the first answering one is consulted.
   */
  method GetInitialMetaForShape(r: Registry, s: Shape, now: int) returns (m: JsonObject, calls: nat)
    ensures m == Resolve(r.entries, s, now)
    ensures NoMatch(r.entries, s, now) ==> m == DefaultMeta(now) && calls == |r.entries|
    ensures forall k :: FirstMatch(r.entries, s, now, k) ==>
              m == r.entries[k].action(s, now).value && calls == k + 1
  {
    ResolveSpec(r.entries, s, now);
    var i := 0;
    while i < |r.entries|
      invariant 0 <= i <= |r.entries|
      invariant forall j :: 0 <= j < i ==> r.entries[j].action(s, now).None?
      invariant Resolve(r.entries, s, now) == Resolve(r.entries[i..], s, now)
    {
      var res := r.entries[i].action(s, now);
      if res.Some? {
        assert FirstMatch(r.entries, s, now, i);
        return res.value, i + 1;
      }
      assert r.entries[i..][1..] == r.entries[i + 1..];
      i := i + 1;
    }
    return DefaultMeta(now), |r.entries|;
  }

  /** Every resolution ends either in the answer of a first matching item or in the default. */
  lemma {:induction false} ResolveCases(es: seq<Entry>, s: Shape, now: int)
    ensures || (NoMatch(es, s, now) && Resolve(es, s, now) == DefaultMeta(now))
            || (exists k :: FirstMatch(es, s, now, k) && Resolve(es, s, now) == es[k].action(s, now).value)
  {
    ResolveSpec(es, s, now);
    if |es| > 0 && es[0].action(s, now).None? {
      ResolveCases(es[1..], s, now);
      if !NoMatch(es[1..], s, now) {
        var k :| FirstMatch(es[1..], s, now, k);
        assert FirstMatch(es, s, now, k + 1);
      }
    } else if |es| > 0 {
      assert FirstMatch(es, s, now, 0);
    }
  }

  /** Items after the first answering one are never consulted: appending more changes nothing. */
  lemma ResolveAppendAfterMatch(es: seq<Entry>, more: seq<Entry>, s: Shape, now: int, k: int)
    requires FirstMatch(es, s, now, k)
    ensures Resolve(es + more, s, now) == Resolve(es, s, now)
  {
    ResolveSpec(es, s, now);
    ResolveSpec(es + more, s, now);
    assert FirstMatch(es + more, s, now, k);
  }

  /** When every item declines, the answer is that of whatever follows them. */
  lemma {:induction false} ResolveAppendAfterDecline(es: seq<Entry>, more: seq<Entry>, s: Shape, now: int)
    requires NoMatch(es, s, now)
    ensures Resolve(es + more, s, now) == Resolve(more, s, now)
  {
    if |es| > 0 {
      var all := es + more;
      var tail := es[1..] + more;
      assert all[0] == es[0];
      assert all[1..] == tail;
      assert NoMatch(es[1..], s, now);
      ResolveAppendAfterDecline(es[1..], more, s, now);
      assert Resolve(all, s, now) == Resolve(tail, s, now);
    } else {
      assert es + more == more;
    }
  }

  /**
   The position of a given identity in the list, or -1: `_list.findIndex(v => v === item)`.
   */
  function FindIndex(es: seq<Entry>, token: Token): (i: int)
    ensures -1 <= i < |es|
    ensures i == -1 <==> !Holds(es, token)
    ensures 0 <= i ==> es[i].id == token && forall j :: 0 <= j < i ==> es[j].id != token
  {
    if |es| == 0 then -1
    else if es[0].id == token then 0
    else
      var k := FindIndex(es[1..], token);
      assert Holds(es, token) ==> Holds(es[1..], token) by {
        if Holds(es, token) {
          var j :| 0 <= j < |es| && es[j].id == token;
          assert es[1..][j - 1].id == token;
        }
      }
      if k == -1 then -1 else k + 1
  }

  /** The list with every item of identity `token` taken out, the rest in their order. */
  function Without(es: seq<Entry>, token: Token): seq<Entry> {
    if |es| == 0 then []
    else if es[0].id == token then Without(es[1..], token)
    else [es[0]] + Without(es[1..], token)
  }

  /**
   `addListener(action, order = 0)`: appends one item at the end of the list
   and returns the registry together with the token of its unregister closure.
   */
  function AddListener(r: Registry, action: Action, order: int := 0): (res: (Registry, Token))
    ensures |res.0.entries| == |r.entries| + 1
    ensures res.0.entries[..|r.entries|] == r.entries
    ensures res.0.entries[|r.entries|] == Entry(res.1, action, order)
    ensures !Issued(r, res.1) && Issued(res.0, res.1)
    ensures forall t :: Issued(r, t) ==> Issued(res.0, t)
    ensures Valid(r) ==> Valid(res.0) && !Holds(r.entries, res.1)
  {
    var item := Entry(r.nextId, action, order);
    (Registry(r.entries + [item], r.nextId + 1), item.id)
  }

  /**
   Calling the unregister closure of the item with identity `token`: removes
   the first item with that identity and reports `true`, or, when no item has
   it, leaves the registry as it is and reports `false`.
   */
  function Unregister(r: Registry, token: Token): (res: (Registry, bool))
    ensures res.1 <==> Holds(r.entries, token)
    ensures !res.1 ==> res.0 == r
    ensures res.1 ==> |res.0.entries| == |r.entries| - 1
    ensures res.0.nextId == r.nextId
    ensures forall t :: Issued(res.0, t) <==> Issued(r, t)
    ensures Valid(r) ==> Valid(res.0) && !Holds(res.0.entries, token)
    ensures Valid(r) ==> res.0.entries == Without(r.entries, token)
  {
    var index := FindIndex(r.entries, token);
    if index >= 0 then
      var rest := r.entries[..index] + r.entries[index + 1..];
      assert forall j :: 0 <= j < |rest| ==> rest[j] == r.entries[if j < index then j else j + 1];
      SpliceWhenUnique(r.entries, index, token);
      (Registry(rest, r.nextId), true)
    else
      WithoutAbsent(r.entries, token);
      (r, false)
  }

  /** `clear()`: the list becomes empty; identities already handed out stay used. */
  function Clear(r: Registry): (r': Registry)
    ensures Valid(r')
    ensures r'.nextId == r.nextId
    ensures forall t :: Issued(r', t) <==> Issued(r, t)
    ensures forall s: Shape, now: int :: Resolve(r'.entries, s, now) == DefaultMeta(now)
  {
    Registry([], r.nextId)
  }

  /** Taking out an identity the list does not hold leaves it unchanged. */
  lemma {:induction false} WithoutAbsent(es: seq<Entry>, token: Token)
    requires !Holds(es, token)
    ensures Without(es, token) == es
  {
    if |es| > 0 {
      forall j | 0 <= j < |es[1..]|
        ensures es[1..][j].id != token
      {
        assert es[1..][j] == es[j + 1];
      }
      WithoutAbsent(es[1..], token);
      assert es == [es[0]] + es[1..];
    }
  }

  /** Splicing out the item at `i` takes out its identity whenever the list has no duplicates. */
  lemma SpliceWhenUnique(es: seq<Entry>, i: nat, token: Token)
    requires i < |es| && es[i].id == token
    ensures UniqueIds(es) ==> es[..i] + es[i + 1..] == Without(es, token)
  {
    if UniqueIds(es) {
      SpliceIsWithout(es, i, token);
    }
  }

  /** In a list without duplicates, splicing out the item at `i` is taking out its identity. */
  lemma {:induction false} SpliceIsWithout(es: seq<Entry>, i: nat, token: Token)
    requires UniqueIds(es)
    requires i < |es| && es[i].id == token
    ensures es[..i] + es[i + 1..] == Without(es, token)
  {
    if i == 0 {
      forall j | 0 <= j < |es[1..]|
        ensures es[1..][j].id != token
      {
        assert es[1..][j] == es[j + 1];
      }
      WithoutAbsent(es[1..], token);
    } else {
      assert es[0].id != token;
      SpliceIsWithout(es[1..], i - 1, token);
      assert es[..i] == [es[0]] + es[1..][..i - 1];
      assert es[i + 1..] == es[1..][i..];
    }
  }
}
