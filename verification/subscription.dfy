/**
 The subscription each shape util opens in its constructor on the stream
 of `InitialMeta` objects. On every delivered registry it adds its listener
 and keeps the unregister closure in one variable, replacing the previous
 one; when the stream errors or completes it calls the closure it holds,
 if any.

 An unregister closure acts on the registry object it came from, so a
 closure is modelled as a `Handle`: the position of that registry among
 all registry objects created so far (the `Heap`) and the identity of its
 item.
 */
module Subscription {
  import opened Wrappers
  import opened Tldraw
  import opened InitialMeta

  /** An unregister closure: the registry it was made by and the item it removes. */
  datatype Handle = Handle(instance: nat, token: Token)

  /** Every `InitialMeta` object created so far, in creation order. */
  type Heap = seq<Registry>

  /** The constructor's `subscription` variable: `null`, or the latest unregister closure. */
  datatype Subscriber = Subscriber(held: Option<Handle>)

  /** Every registry object is in a valid state. */
  ghost predicate HeapValid(heap: Heap) {
    forall i :: 0 <= i < |heap| ==> Valid(heap[i])
  }

  /** The held closure refers to a registry object that exists. */
  predicate Refers(sub: Subscriber, heap: Heap) {
    sub.held.Some? ==> sub.held.value.instance < |heap|
  }

  /** `let subscription = null`. */
  function Start(): (sub: Subscriber)
    ensures sub.held.None?
    ensures forall heap: Heap :: Refers(sub, heap)
  {
    Subscriber(None)
  }

  /** Calling an unregister closure: the registry it belongs to is updated, every other one is left alone. */
  function Call(heap: Heap, h: Handle): (res: (Heap, bool))
    requires h.instance < |heap|
    ensures |res.0| == |heap|
    ensures res.1 <==> Holds(heap[h.instance].entries, h.token)
    ensures res.0[h.instance] == Unregister(heap[h.instance], h.token).0
    ensures forall i :: 0 <= i < |heap| && i != h.instance ==> res.0[i] == heap[i]
    ensures HeapValid(heap) ==> HeapValid(res.0)
  {
    var (r', removed) := Unregister(heap[h.instance], h.token);
    (heap[h.instance := r'], removed)
  }

  /**
   `next(meta)`: exactly one listener is added, at the end of the delivered
   registry, and the held closure is overwritten with the one for it.
   */
  function OnNext(sub: Subscriber, heap: Heap, instance: nat, action: Action): (res: (Subscriber, Heap))
    requires instance < |heap|
    ensures |res.1| == |heap|
    ensures res.0.held.Some? && res.0.held.value.instance == instance
    ensures res.1[instance].entries == heap[instance].entries + [Entry(res.0.held.value.token, action, 0)]
    ensures forall i :: 0 <= i < |heap| && i != instance ==> res.1[i] == heap[i]
    ensures Refers(res.0, res.1)
    ensures HeapValid(heap) ==> HeapValid(res.1) && !Holds(heap[instance].entries, res.0.held.value.token)
  {
    var (r', token) := AddListener(heap[instance], action);
    (Subscriber(Some(Handle(instance, token))), heap[instance := r'])
  }

  /**
   `error()` and `complete()`: `subscription?.()`. The held closure is called
   when there is one; with none, nothing changes. The variable itself is not
   reset.
   */
  function OnEnd(sub: Subscriber, heap: Heap): (heap': Heap)
    requires Refers(sub, heap)
    ensures sub.held.None? ==> heap' == heap
    ensures sub.held.Some? ==> heap' == Call(heap, sub.held.value).0
    ensures |heap'| == |heap|
    ensures HeapValid(heap) ==> HeapValid(heap')
  {
    match sub.held
    case None => heap
    case Some(h) => Call(heap, h).0
  }

  /** Ending right after a delivery takes back exactly the listener that delivery added. */
  lemma NextThenEnd(sub: Subscriber, heap: Heap, instance: nat, action: Action)
    requires instance < |heap| && HeapValid(heap)
    ensures
      var (sub', heap') := OnNext(sub, heap, instance, action);
      && OnEnd(sub', heap')[instance] == Registry(heap[instance].entries, heap'[instance].nextId)
      && forall i :: 0 <= i < |heap| && i != instance ==> OnEnd(sub', heap')[i] == heap[i]
  {
  }

  /**
   Ending right after a delivery undoes it for resolution: the registry
   answers every shape as it did before the listener was added.
   */
  lemma EndRestoresResolution(sub: Subscriber, heap: Heap, instance: nat, action: Action, s: Shape, now: int)
    requires instance < |heap| && HeapValid(heap)
    ensures
      var (sub', heap') := OnNext(sub, heap, instance, action);
      Resolve(OnEnd(sub', heap')[instance].entries, s, now) == Resolve(heap[instance].entries, s, now)
  {
    NextThenEnd(sub, heap, instance, action);
  }

  /**
   Only the latest closure is kept: after deliveries of two different
   registries, ending removes the listener from the second and leaves the
   one added to the first in place.
   */
  lemma OnlyLatestIsCalled(sub: Subscriber, heap: Heap, first: nat, second: nat, action: Action)
    requires first < |heap| && second < |heap| && first != second && HeapValid(heap)
    ensures
      var (sub1, heap1) := OnNext(sub, heap, first, action);
      var (sub2, heap2) := OnNext(sub1, heap1, second, action);
      && OnEnd(sub2, heap2)[first] == heap1[first]
      && |OnEnd(sub2, heap2)[first].entries| == |heap[first].entries| + 1
      && OnEnd(sub2, heap2)[second].entries == heap[second].entries
  {
  }

  /** Ending twice does no more than ending once. */
  lemma EndTwice(sub: Subscriber, heap: Heap)
    requires Refers(sub, heap) && HeapValid(heap)
    ensures OnEnd(sub, OnEnd(sub, heap)) == OnEnd(sub, heap)
  {
  }
}
