/**
 The iframe shape util: the listener it registers on every registry it is
 handed, and its default props.
 */
module Iframe {
  import opened Wrappers
  import opened Tldraw
  import opened InitialMeta
  import InitialMetaLaws
  import Subscription

  /** `IframeShapeUtil.type`. */
  const Type: string := "iframe"

  /**
   The iframe listener: metadata for iframe shapes, `undefined` for every
   other shape. The clock is read once, so creation and update time agree.
   */
  function Listener(s: Shape, now: int): (m: Option<JsonObject>)
    ensures m.Some? <==> s.shapeType == Type
    ensures m.Some? ==>
              && m.value.Keys == {"typeName", "createAt", "updateAt"}
              && m.value["typeName"] == JStr("IframeShapeUtil")
              && m.value["createAt"] == m.value["updateAt"] == JNum(now)
  {
    if s.shapeType == Type then
      Some(map["typeName" := JStr("IframeShapeUtil"), "createAt" := JNum(now), "updateAt" := JNum(now)])
    else None
  }

  /** The props of an iframe shape. */
  datatype Props = Props(url: string, w: int, h: int)

  /** `getDefaultProps()`: a 1250 by 726 frame showing the default page. */
  function DefaultProps(): (p: Props)
    ensures p.url == "https://www.baidu.com/"
    ensures p.w == 1250 && p.h == 726
  {
    Props("https://www.baidu.com/", 1250, 726)
  }

  /**
   Once the iframe listener is added to a registry, that registry answers
   an iframe shape with iframe metadata unless an earlier listener claims
   it, and answers every other shape exactly as before.
   */
  lemma NextRegistersIframe(sub: Subscription.Subscriber, heap: Subscription.Heap, instance: nat, s: Shape, now: int)
    requires instance < |heap|
    ensures
      var after := Subscription.OnNext(sub, heap, instance, Listener).1[instance].entries;
      && (s.shapeType == Type && NoMatch(heap[instance].entries, s, now) ==>
            Resolve(after, s, now) == map["typeName" := JStr("IframeShapeUtil"), "createAt" := JNum(now), "updateAt" := JNum(now)])
      && (s.shapeType != Type ==> Resolve(after, s, now) == Resolve(heap[instance].entries, s, now))
  {
    InitialMetaLaws.AddListenerResolve(heap[instance], Listener, 0, s, now);
    if s.shapeType != Type {
      ResolveSpec(heap[instance].entries, s, now);
    }
  }
}
