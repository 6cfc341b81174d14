# InitialMeta: the ordered metadata listener registry of tldraw-iframe

This project models, in Dafny, how the tldraw-iframe customisation layer
decides the initial metadata of a newly created shape.

Each editor session gets one `InitialMeta` registry. The registry installs
itself as the editor's `getInitialMetaForShape` hook. It keeps an ordered
list of `{action, order}` items. To resolve a shape, it tries the actions in
insertion order and returns the first result it gets. When every action
declines, it returns `{createAt: now}`. `addListener` appends an item and
returns an unregister closure. That closure removes exactly its own item,
matched by identity. It returns `true` the first time and `false` once the
item is gone. `clear` empties the list.

Two shape utils contribute listeners:

- The card util answers `card` shapes with `{typeName: "CardShape", createAt}`.
- The iframe util answers `iframe` shapes with `{typeName: "IframeShapeUtil", createAt, updateAt}`.

Each util subscribes to the stream of registries. On every registry it adds
its listener and keeps the latest unregister closure. When the stream errors
or completes, it calls that closure. The two utils do this with identical
code (src/shapes/card.tsx:16-34 and src/shapes/iframe.tsx:25-45), so the
`Subscription` module models it once, parameterised by the listener.

Modelling choices:

- JavaScript object identity of an item is a `Token`, a `nat` taken from a
  counter in the registry. `Clear` does not reset the counter, so a closure
  handed out before a clear can never remove an item added after it.
- `Date.now()` is the parameter `now`. Every resolution reads the clock at most once, whichever
  path it takes (the card listener, the iframe listener or the default), so
  one `now` per resolution is exact.
- `JsonObject | undefined` is `Option<JsonObject>`. The source tests `if (res)`,
  and every object is truthy, even `{}`, so "answers" means `Some`.
- A listener is a function value `(Shape, int) -> Option<JsonObject>`.
- An unregister closure acts on the registry object that created it. In
  `Subscription` it is a `Handle`: the position of that registry among all
  registries created so far (the `Heap`) and the item's token.

Files, one module each: `wrappers.dfy` (Option), `tldraw.dfy` (shapes and
JSON values), `initial_meta.dfy` (the registry), `initial_meta_laws.dfy`
(laws relating its operations), `subscription.dfy` (the shared
next/error/complete logic of the shape utils), `card.dfy`, `iframe.dfy`, and
`contributors.dfy` (both listeners together).

## Model

| member | source | states |
|---|---|---|
| InitialMeta.New | src/utils/initial-meta.ts:9-11 | a new registry is valid and resolves every shape, at every time, to `{createAt: now}` |
| InitialMeta.ResolveSpec | src/utils/initial-meta.ts:12-19 | the installed hook `Resolve` answers `{createAt: now}` when every action declines, and item k's result when item k is the first to answer, whatever later items would say |
| InitialMeta.GetInitialMetaForShape | src/utils/initial-meta.ts:12-19 | the hook's loop returns the first answer in list order, or the default, and invokes exactly k+1 actions when item k is the first to answer (all of them when none answers) |
| InitialMeta.ResolveCases | src/utils/initial-meta.ts:13-18 | every resolution is either the default with all actions declining, or the answer of a first answering item; it never fails |
| InitialMeta.ResolveAppendAfterMatch | src/utils/initial-meta.ts:13-16 | once some item answers, items appended after the list are never consulted and do not change the answer |
| InitialMeta.ResolveAppendAfterDecline | src/utils/initial-meta.ts:13-18 | items that all decline are passed over: the answer is that of the items after them |
| InitialMeta.FindIndex | src/utils/initial-meta.ts:27 | `findIndex` returns -1 exactly when no item has the identity, else the first position holding it |
| InitialMeta.AddListener | src/utils/initial-meta.ts:22-24 | appends exactly one item `{action, order}` at the end, leaves earlier items unchanged and in order, and gives it an identity never handed out before, which counts as handed out from then on |
| InitialMeta.Unregister | src/utils/initial-meta.ts:26-33 | reports `true` iff an item with the identity is present; then removes it and keeps the rest in order, otherwise changes nothing; the identity is gone afterwards, and the set of identities handed out is unchanged |
| InitialMeta.SpliceIsWithout | src/utils/initial-meta.ts:27-29 | splicing out the found position equals filtering out the identity, when identities are unique |
| InitialMeta.Clear | src/utils/initial-meta.ts:36-38 | after `clear` every shape resolves to the default, and identities already handed out stay used |
| InitialMetaLaws.AddListenerResolve | src/utils/initial-meta.ts:13-24 | a newly added listener is consulted only when every earlier one declines; otherwise the answer is unchanged |
| InitialMetaLaws.ResolveIgnoresOrder | src/utils/initial-meta.ts:13-16 | resolution depends on the actions and their positions only, never on the `order` tags |
| InitialMetaLaws.AddListenerIgnoresOrder | src/utils/initial-meta.ts:22-24 | the `order` argument changes neither the token handed out nor any later resolution |
| InitialMetaLaws.AddThenUnregister | src/utils/initial-meta.ts:22-33 | the closure of a just-added item removes it, reports `true` and restores the previous list |
| InitialMetaLaws.UnregisterTwice | src/utils/initial-meta.ts:26-33 | a second call of the same closure reports `false` and leaves the registry as the first call left it |
| InitialMetaLaws.SameActionTwice | src/utils/initial-meta.ts:22-29 | adding one action twice gives two distinct identities; removing the first leaves the second in place |
| InitialMetaLaws.AddTwiceRemoveFirst | src/utils/initial-meta.ts:22-33 | adding a1 then a2 and removing a1 leaves a2 at the end of the original list, resolving as if only a2 had been added |
| InitialMetaLaws.UnregisterAfterClear | src/utils/initial-meta.ts:26-38 | after `clear`, any closure reports `false` and changes nothing |
| InitialMetaLaws.GoneStaysGone | src/utils/initial-meta.ts:22-38 | an identity handed out whose item has left the list stays absent across any add, removal or clear |
| InitialMetaLaws.GoneAfterAnyOps | src/utils/initial-meta.ts:26-33 | once its item is gone, a closure reports `false` and changes nothing after any sequence of adds, removals and clears |
| InitialMetaLaws.LaterCallsReportFalse | src/utils/initial-meta.ts:22-33 | a closure whose item is in the list reports `true` on its call; every later call, whatever adds, removals and clears happened in between, reports `false` and changes nothing |
| InitialMetaLaws.StaleCloseAfterClear | src/utils/initial-meta.ts:22-38 | a closure handed out before a clear removes nothing even after new items are added |
| Subscription.Start | src/shapes/card.tsx:16 | a new subscriber holds no closure, so it refers to no registry |
| Subscription.Call | src/utils/initial-meta.ts:26-33 | calling a closure updates only the registry it came from, as `Unregister` does, and reports whether its item was there |
| Subscription.OnNext | src/shapes/card.tsx:18-27 | each delivered registry gets exactly one listener appended, every other registry is untouched, and the held closure is replaced by the one for the new item |
| Subscription.OnEnd | src/shapes/card.tsx:28-33 | on error or complete the held closure is called when there is one; with none, nothing changes |
| Subscription.NextThenEnd | src/shapes/card.tsx:16-33 | ending right after a delivery removes exactly the listener that delivery added |
| Subscription.OnlyLatestIsCalled | src/shapes/card.tsx:16-33 | after two deliveries only the latest closure is called; the listener added to the first registry stays |
| Subscription.EndRestoresResolution | src/shapes/card.tsx:16-33 | ending right after a delivery leaves the registry answering every shape as it did before the delivery |
| Subscription.EndTwice | src/shapes/iframe.tsx:39-44 | an `error` followed by a `complete` (or any second end) does no more than the first |
| Card.Listener | src/shapes/card.tsx:19-26 | answers iff the shape's type is `card`, with exactly `typeName = "CardShape"` and `createAt = now` |
| Card.DefaultProps | src/shapes/card.tsx:37-42 | the default card is 100 wide and 100 high |
| Card.NextRegistersCard | src/shapes/card.tsx:18-27 | after a delivery, the registry answers card shapes with exactly `{typeName: "CardShape", createAt: now}` unless an earlier listener claims them, and other shapes as before |
| Iframe.Listener | src/shapes/iframe.tsx:28-37 | answers iff the shape's type is `iframe`, with exactly `typeName`, `createAt` and `updateAt`, and `createAt == updateAt == now` |
| Iframe.DefaultProps | src/shapes/iframe.tsx:48-54 | the default iframe shows `https://www.baidu.com/` and is 1250 wide and 726 high |
| Iframe.NextRegistersIframe | src/shapes/iframe.tsx:25-38 | after a delivery, the registry answers iframe shapes with exactly `{typeName: "IframeShapeUtil", createAt: now, updateAt: now}` unless an earlier listener claims them, and other shapes as before |
| Contributors.ResolveContributors | src/utils/initial-meta.ts:13-18 | in any list of card and iframe listeners, in any order, card shapes get card metadata when a card listener is present, iframe shapes get iframe metadata when an iframe listener is present, and everything else gets the default |
| Contributors.BothRegistered | src/utils/initial-meta.ts:12-24 | with both listeners on a new registry in either order, `card` and `iframe` shapes get their own metadata and any other type gets `{createAt: now}` |

## Left out

- src/constants.ts: the rxjs stream that clears the previous registry and creates a new one per editor. Its meaning rests on rxjs operator semantics. The `Heap` of registries stands in for it; it is assumed that a registry is cleared before its successor is delivered.
- Rendering (`component`, `indicator`), geometry (`getGeometry`), `onResize`, `canBind`, `canResize` and `canRotate`: these call into the editor library and have no local logic.
- The popover, portal, toolbar form, app wiring and the observable hooks: UI and timer code outside this component.
- A listener that throws: the exception would pass through to the editor. Listeners here are total functions.
- Re-entrant changes to the list while a resolution runs: the source does not guard against them.
- JavaScript numbers are floating point. The model uses `int`, which is exact for the millisecond clock readings and the prop sizes the code uses.
- JSON values other than numbers and strings: no listener here produces them.
- Shape fields other than `type`: `Shape.id` stands in for the rest of the record, which is passed through untouched.
