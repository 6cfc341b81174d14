/**
 The card and iframe listeners registered side by side. Their type tags
 are disjoint, so each claims only its own shapes, and the order in which
 the two utils registered makes no difference to any answer.
 */
module Contributors {
  import opened Tldraw
  import opened InitialMeta
  import Card
  import Iframe

  /** The action is one of the two shape utils' listeners. */
  ghost predicate IsContributor(a: Action) {
    a == Card.Listener || a == Iframe.Listener
  }

  /** Some item of the list carries action `a`. */
  ghost predicate Present(es: seq<Entry>, a: Action) {
    exists i :: 0 <= i < |es| && es[i].action == a
  }

  /**
   In a list made only of card and iframe listeners, a card shape gets card
   metadata when a card listener is present, an iframe shape gets iframe
   metadata when an iframe listener is present, and every shape gets the
   default otherwise, whatever the order of the items.
   */
  lemma {:induction false} ResolveContributors(es: seq<Entry>, s: Shape, now: int)
    requires forall i :: 0 <= i < |es| ==> IsContributor(es[i].action)
    ensures s.shapeType == Card.Type && Present(es, Card.Listener) ==>
              Resolve(es, s, now) == Card.Listener(s, now).value
    ensures s.shapeType == Iframe.Type && Present(es, Iframe.Listener) ==>
              Resolve(es, s, now) == Iframe.Listener(s, now).value
    ensures !(s.shapeType == Card.Type && Present(es, Card.Listener)) &&
            !(s.shapeType == Iframe.Type && Present(es, Iframe.Listener)) ==>
              Resolve(es, s, now) == DefaultMeta(now)
  {
    if |es| > 0 {
      ResolveContributors(es[1..], s, now);
      forall a | Present(es, a) && es[0].action != a
        ensures Present(es[1..], a)
      {
        var i :| 0 <= i < |es| && es[i].action == a;
        assert es[1..][i - 1] == es[i];
      }
      forall a | Present(es[1..], a)
        ensures Present(es, a)
      {
        var i :| 0 <= i < |es[1..]| && es[1..][i].action == a;
        assert es[i + 1] == es[1..][i];
      }
      assert Present(es, es[0].action) by {
        assert es[0].action == es[0].action;
      }
    }
  }

  /**
   The concrete session: a fresh registry, then the card listener and the
   iframe listener in either order. Card and iframe shapes get their own
   metadata; a shape of any other type gets `{createAt: now}`.
   */
  lemma BothRegistered(cardFirst: bool, s: Shape, now: int)
    ensures
      var r0 := New();
      var r2 := if cardFirst then AddListener(AddListener(r0, Card.Listener).0, Iframe.Listener).0
                else AddListener(AddListener(r0, Iframe.Listener).0, Card.Listener).0;
      && (s.shapeType == "card" ==>
            Resolve(r2.entries, s, now) == map["typeName" := JStr("CardShape"), "createAt" := JNum(now)])
      && (s.shapeType == "iframe" ==>
            Resolve(r2.entries, s, now) ==
              map["typeName" := JStr("IframeShapeUtil"), "createAt" := JNum(now), "updateAt" := JNum(now)])
      && (s.shapeType != "card" && s.shapeType != "iframe" ==>
            Resolve(r2.entries, s, now) == map["createAt" := JNum(now)])
  {
    var r0 := New();
    var r2 := if cardFirst then AddListener(AddListener(r0, Card.Listener).0, Iframe.Listener).0
              else AddListener(AddListener(r0, Iframe.Listener).0, Card.Listener).0;
    assert |r2.entries| == 2;
    var ci := if cardFirst then 0 else 1;
    assert r2.entries[ci].action == Card.Listener;
    assert r2.entries[1 - ci].action == Iframe.Listener;
    assert Present(r2.entries, Card.Listener);
    assert Present(r2.entries, Iframe.Listener);
    ResolveContributors(r2.entries, s, now);
  }
}
