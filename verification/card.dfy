/**
 The card shape util: the listener it registers on every registry it is
 handed, and its default props.
 */
module Card {
  import opened Wrappers
  import opened Tldraw
  import opened InitialMeta
  import InitialMetaLaws
  import Subscription

  /** `CardShapeUtil.type`. */
  const Type: string := "card"

  /** The card listener: metadata for card shapes, `undefined` for every other shape. */
  function Listener(s: Shape, now: int): (m: Option<JsonObject>)
    ensures m.Some? <==> s.shapeType == Type
    ensures m.Some? ==>
              && m.value.Keys == {"typeName", "createAt"}
              && m.value["typeName"] == JStr("CardShape")
              && m.value["createAt"] == JNum(now)
  {
    if s.shapeType == Type then Some(map["typeName" := JStr("CardShape"), "createAt" := JNum(now)])
    else None
  }

  /** The props of a card shape. */
  datatype Props = Props(w: int, h: int)

  /** `getDefaultProps()`: a 100 by 100 card. */
  function DefaultProps(): (p: Props)
    ensures p.w == 100 && p.h == 100
  {
    Props(100, 100)
  }

  /**
   Once the card listener is added to a registry, that registry answers a
   card shape with card metadata unless an earlier listener claims it, and
   answers every other shape exactly as before.
   */
  lemma NextRegistersCard(sub: Subscription.Subscriber, heap: Subscription.Heap, instance: nat, s: Shape, now: int)
    requires instance < |heap|
    ensures
      var after := Subscription.OnNext(sub, heap, instance, Listener).1[instance].entries;
      && (s.shapeType == Type && NoMatch(heap[instance].entries, s, now) ==>
            Resolve(after, s, now) == map["typeName" := JStr("CardShape"), "createAt" := JNum(now)])
      && (s.shapeType != Type ==> Resolve(after, s, now) == Resolve(heap[instance].entries, s, now))
  {
    InitialMetaLaws.AddListenerResolve(heap[instance], Listener, 0, s, now);
    if s.shapeType != Type {
      ResolveSpec(heap[instance].entries, s, now);
    }
  }
}
