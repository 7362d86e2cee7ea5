# Event emitter: listener registry and dispatch

A model of the listener registry and dispatch engine of a TypeScript event
emitter library. The library has three layers:

- **`ListenersSetAdapter`** is the listener store: an insertion-ordered,
  duplicate-free set of listener references. On top of the inherited set
  operations (`add`, `delete`, `has`, `clear`, `size`, `forEach`) it offers:
  - `once(...listeners)`, which stores a fresh self-removing wrapper for
    each listener and throws when the listener itself is already a member;
  - `snapshot()`, an ordered copy of the members.
- **`EventEmitterBase`** is a single-channel emitter: one store and one
  `paused` flag.
- **`NamedEventEmitterBase`** is a multi-channel emitter:
  - a `Map` from event name to store, whose stores are created lazily;
  - a separate set of paused event names.

## Representation

A listener is an opaque function compared by reference. It is modelled as
a `ListenerId`.

A stored reference is a `Listener`:
- `Plain(id)` is the caller's function itself;
- `OnceWrapper(n, id)` is the wrapper closure that `once` created for `id`.

Each store numbers its wrappers with a counter `nextWrapper`. A new wrapper
is therefore a reference different from everything already in that store.

Stores are objects (`class ListenersSetAdapter`). Their members are a
`seq<Listener>` with no repeated element. The emitters hold stores by
reference and change them in place:
- `EventEmitterBase` keeps one store;
- `NamedEventEmitterBase` keeps a `map<EventName, ListenersSetAdapter>`. It
  also keeps the `Map`'s key order in `names` and the paused names in
  `pausedEvents`. The ghost function `Stores()` reads each store's current
  members as values, so changes made through the live store that
  `listeners(event)` returns are changes to the emitter. The ghost function
  `NextWrapper(event)` reads the store's wrapper counter, 0 for an unknown
  event. `Valid()` requires every store to be well formed and no two names
  to share one store object. Every operation that creates or adds listeners
  states that each name known before keeps its store object, so a store
  handed out earlier stays the live one.

## Dispatch

Invoking a stored reference produces a `Call(listener, args)`: the caller's
function and the arguments it received. A dispatch method returns the
calls it made, in order, as its trace.

- `emit` is a `forEach` over the live store (`Dispatch`). When a wrapper
  fires, it deletes itself, and the members after it shift one place back
  under the cursor. The loop is proved to call every member present at the
  start exactly once, in insertion order. The store left behind is
  `Survivors` of the original: the plain listeners, in their order.
- `emitAsync` first takes a snapshot and then calls every reference of the
  snapshot (`DispatchRound`). This is proved for any store contents at
  invocation time, so listeners added or removed after the snapshot do not
  change the round. The store ends as `Discard(store, round)`.
  `DiscardCovering` shows this equals `Survivors` when nothing else ran in
  between.

## Model

| member | source | states |
|---|---|---|
| Listeners.Insert | src/adapter/lib/listeners-set.adapter.ts:17 | `add`: the result holds exactly the old members plus the new one; a present member leaves the store unchanged; otherwise it is appended at the end; no duplicates arise |
| Listeners.Remove | src/adapter/lib/listeners-set.adapter.ts:13 | `delete`: exactly that reference goes and every other member stays; the size drops by one exactly when it was a member |
| Listeners.RemoveAbsent | src/lib/event-emitter.base.ts:155-157 | deleting an absent reference leaves the store unchanged |
| Listeners.RemoveAt | src/adapter/lib/listeners-set.adapter.ts:12-15 | in a duplicate-free store, deleting the member at position k removes that position only; the members around it keep their order |
| Listeners.InsertAll | src/lib/event-emitter.base.ts:59 | adding listeners in turn: the members are the old ones plus every listed listener; no duplicates |
| Listeners.InsertAllDistinct | src/lib/event-emitter.base.ts:59 | a list without repeats is stored exactly in the given order |
| Listeners.Calls | src/lib/event-emitter.base.ts:88 | a round makes one call per reference, every call carries the emitted arguments, and every reference's target is called |
| Listeners.Survivors | src/adapter/lib/listeners-set.adapter.ts:12-15 | after a round over the whole store, a reference remains exactly when it was a member and is a plain listener; no duplicates |
| Listeners.Discard | src/lib/event-emitter.base.ts:122-123 | after a round over a snapshot, a reference remains exactly when it is a member and is not a wrapper of that snapshot |
| Listeners.SurvivorsAppend | src/lib/event-emitter.base.ts:87-90 | the survivors of a round keep their relative order: the survivors of a concatenation are those of each part, in turn |
| Listeners.DiscardAppend | src/lib/event-emitter.base.ts:122-123 | the members a snapshot round leaves keep their relative order |
| Listeners.LiveStep | src/lib/event-emitter.base.ts:87-90 | one step of a live `forEach`: the cursor stands on the next unvisited original member; a plain listener moves it on; a firing wrapper removes exactly its own position and leaves the cursor in place |
| Listeners.LiveDistinct | src/lib/event-emitter.base.ts:87-90 | mid-round, the live store (survivors of the visited part, then the unvisited rest) has no duplicates |
| Listeners.DiscardStep | src/lib/named-event-emitter.base.ts:158 | firing one more reference of a round: a wrapper deletes itself, a plain listener changes nothing |
| Listeners.DiscardCovering | src/lib/event-emitter.base.ts:117-125 | a round that covers every wrapper of the store leaves exactly the survivors, as a live `emit` does |
| Listeners.SurvivorsOfPlain | src/adapter/lib/listeners-set.adapter.ts:12-15 | a store of plain listeners only is left unchanged by a round |
| Listeners.EmitTwice | src/lib/named-event-emitter.base.ts:108-111 | after a round no wrapper is left, so a second round that starts after the first finished leaves the store unchanged; for rounds run one after the other a `once` listener fires at most once |
| Listeners.SnapshotRefires | src/lib/event-emitter.base.ts:117-125 | a wrapper held by a pending `emitAsync` snapshot that a live round fired and removed in between is called again by the snapshot round, whose self-deletion then finds nothing to delete |
| Listeners.FirstPresent | src/adapter/lib/listeners-set.adapter.ts:7-10 | the number of listeners before the first one whose own reference is a member (or all of them); none before it is a member and the one at it is |
| Listeners.Wrappers | src/adapter/lib/listeners-set.adapter.ts:12-17 | the closures `once` creates: one per listener, all distinct, each forwarding to its listener, numbered from the store's counter |
| Listeners.OnceAppendsFresh | src/adapter/lib/listeners-set.adapter.ts:12-17 | appending fresh wrappers adds one member per listener, keeps the store duplicate-free and keeps every listener itself a non-member |
| Listeners.OnceIgnoresWrappers | src/adapter/lib/listeners-set.adapter.ts:8-17 | the duplicate check of `once` is unaffected by wrappers already stored |
| Listeners.OnceTwice | src/adapter/lib/listeners-set.adapter.ts:8-17 | `once(L)` twice succeeds both times and stores two distinct wrappers of L, never L itself |
| ListenersSet.ListenersSetAdapter.constructor | src/adapter/lib/listeners-set.adapter.ts:4 | a new store holds the given listeners added in turn |
| ListenersSet.ListenersSetAdapter.Add | src/adapter/lib/listeners-set.adapter.ts:17 | `add` updates the store to `Insert` of the old members |
| ListenersSet.ListenersSetAdapter.Delete | src/adapter/lib/listeners-set.adapter.ts:13 | `delete` updates the store to `Remove` of the old members |
| ListenersSet.ListenersSetAdapter.Has | src/adapter/lib/listeners-set.adapter.ts:8 | `has` is true exactly for members |
| ListenersSet.ListenersSetAdapter.Clear | src/lib/event-emitter.base.ts:70 | `clear` empties the store |
| ListenersSet.ListenersSetAdapter.Size | src/lib/event-emitter.base.ts:79 | `size` is the number of members |
| ListenersSet.ListenersSetAdapter.Snapshot | src/adapter/lib/listeners-set.adapter.ts:23-25 | `snapshot` is the members in insertion order, as a value later store changes cannot reach |
| ListenersSet.ListenersSetAdapter.Once | src/adapter/lib/listeners-set.adapter.ts:6-21 | `once(L1..Ln)` appends fresh wrappers for the listeners before the first one already present; it fails with that listener's error when there is one, otherwise returns the same adapter; wrappers added before the failure stay |
| ListenersSet.ListenersSetAdapter.Invoke | src/adapter/lib/listeners-set.adapter.ts:12-15 | invoking a wrapper deletes that wrapper and calls its target with the same arguments; a plain listener is called directly and nothing changes |
| ListenersSet.ListenersSetAdapter.Dispatch | src/lib/event-emitter.base.ts:88 | live `forEach`: calls every original member once, in insertion order, with the arguments; the store ends as its survivors |
| ListenersSet.ListenersSetAdapter.DispatchRound | src/lib/event-emitter.base.ts:122-123 | calls every reference of the snapshot in order, whatever the store holds; the store ends with the snapshot's wrappers discarded |
| EventEmitter.EventEmitterBase.constructor | src/lib/event-emitter.base.ts:54-62 | the store is seeded from nothing, one listener or an array (duplicates collapsed, order kept); the emitter starts unpaused |
| EventEmitter.EventEmitterBase.Clear | src/lib/event-emitter.base.ts:69-71 | the store becomes empty; the pause flag is unchanged |
| EventEmitter.EventEmitterBase.Count | src/lib/event-emitter.base.ts:78-80 | the count is the store's size |
| EventEmitter.EventEmitterBase.Emit | src/lib/event-emitter.base.ts:87-90 | paused: no call and no change; otherwise every member is called once in order and the fired wrappers are gone |
| EventEmitter.EventEmitterBase.IsPaused | src/lib/event-emitter.base.ts:97-99 | reports the pause flag |
| EventEmitter.EventEmitterBase.Listeners | src/lib/event-emitter.base.ts:106-108 | returns the live store object itself |
| EventEmitter.EventEmitterBase.EmitAsync | src/lib/event-emitter.base.ts:117-125 | paused: no call; otherwise exactly the call-time snapshot is called, in order, and the store ends as after `emit` |
| EventEmitter.EventEmitterBase.On | src/lib/event-emitter.base.ts:133-136 | adds the listener if absent; a present listener leaves the store unchanged |
| EventEmitter.EventEmitterBase.Once | src/lib/event-emitter.base.ts:144-147 | fails and changes nothing when the listener is a member; otherwise appends one fresh wrapper of it and returns the emitter |
| EventEmitter.EventEmitterBase.Off | src/lib/event-emitter.base.ts:155-157 | removes exactly the caller's listener; a no-op when absent (a wrapper stored for it by `once` stays) |
| EventEmitter.EventEmitterBase.Pause | src/lib/event-emitter.base.ts:164-166 | the emitter is paused; the listeners are unchanged |
| EventEmitter.EventEmitterBase.Resume | src/lib/event-emitter.base.ts:173-175 | the emitter is not paused; the listeners are unchanged |
| NamedEventEmitter.ConfigNames | src/lib/named-event-emitter.base.ts:62-63 | the key order after the constructor: no name twice, and exactly the configured names |
| NamedEventEmitter.ConfigStores | src/lib/named-event-emitter.base.ts:62-67 | the stores the constructor fills: exactly the configured names, and each name's store holds the listeners of its last entry added in turn |
| NamedEventEmitter.ConfigStep | src/lib/named-event-emitter.base.ts:62-67 | one more configuration entry appends a new name (a repeated one keeps its place) and gives it a fresh store of its listeners |
| NamedEventEmitter.ConfigNamesFromObject | src/lib/named-event-emitter.base.ts:62-63 | without repeated names, the key order is the configuration's order |
| NamedEventEmitter.ConfigFromObject | src/lib/named-event-emitter.base.ts:62-67 | for a configuration without repeated names, the names are the keys in order and each name's store holds its listed listeners in order with duplicates collapsed, an empty store for an empty list |
| NamedEventEmitter.NamedEventEmitterBase.constructor | src/lib/named-event-emitter.base.ts:55-68 | every store is a new object; the names and stores are those of the configuration; nothing is paused |
| NamedEventEmitter.NamedEventEmitterBase.SetEvent | src/lib/named-event-emitter.base.ts:63-66 | one configuration entry: the name gets a new store object holding its listeners; every other name keeps its store object; the key order is kept or extended |
| NamedEventEmitter.NamedEventEmitterBase.SetNewStore | src/lib/named-event-emitter.base.ts:63 | `Map.set` of a new store: the name maps to a new empty store; a new name goes to the end of the key order, a present one keeps its place |
| NamedEventEmitter.NamedEventEmitterBase.AddListeners | src/lib/named-event-emitter.base.ts:64-66 | the listeners are added in turn to that name's store; nothing else changes |
| NamedEventEmitter.NamedEventEmitterBase.Clear | src/lib/named-event-emitter.base.ts:77-79 | a known event's store becomes empty and keeps its name; an unknown event changes nothing; paused names and every store's wrapper counter unchanged |
| NamedEventEmitter.NamedEventEmitterBase.ClearAll | src/lib/named-event-emitter.base.ts:86-88 | no event is known any more; paused names unchanged |
| NamedEventEmitter.NamedEventEmitterBase.Count | src/lib/named-event-emitter.base.ts:97-99 | 0 for an unknown event, the store's size otherwise |
| NamedEventEmitter.NamedEventEmitterBase.Emit | src/lib/named-event-emitter.base.ts:108-111 | paused or unknown: no call and no change; otherwise every member of that store is called once in order, its fired wrappers are gone and no other store changes; wrapper counters unchanged |
| NamedEventEmitter.NamedEventEmitterBase.EventNames | src/lib/named-event-emitter.base.ts:118-120 | the known events in key order, each once |
| NamedEventEmitter.NamedEventEmitterBase.IsPaused | src/lib/named-event-emitter.base.ts:128-130 | true exactly for paused names |
| NamedEventEmitter.NamedEventEmitterBase.Listeners | src/lib/named-event-emitter.base.ts:139-141 | the live store of a known event, nothing for an unknown one |
| NamedEventEmitter.NamedEventEmitterBase.EmitAsync | src/lib/named-event-emitter.base.ts:152-160 | paused or unknown: no call; otherwise exactly the call-time snapshot of that store is called in order, and the store ends as after `emit`; wrapper counters unchanged |
| NamedEventEmitter.NamedEventEmitterBase.OpenEvent | src/lib/named-event-emitter.base.ts:171 | an unknown event gets an empty store and goes to the end of the key order; a known one is untouched; every known name keeps its store object; wrapper counters unchanged |
| NamedEventEmitter.NamedEventEmitterBase.AddListener | src/lib/named-event-emitter.base.ts:172 | adds the listener to a known event's store; no other store changes; wrapper counters unchanged |
| NamedEventEmitter.NamedEventEmitterBase.On | src/lib/named-event-emitter.base.ts:170-174 | creates the store only for an unknown event, appending its name, then adds the listener if absent; every known name keeps its store object; no other event changes; wrapper counters unchanged |
| NamedEventEmitter.NamedEventEmitterBase.OnceListener | src/lib/named-event-emitter.base.ts:186 | `once` on a known event's store: fails and changes nothing when the listener is a member, otherwise appends one fresh wrapper of it and raises that store's counter by one; other counters unchanged |
| NamedEventEmitter.NamedEventEmitterBase.Once | src/lib/named-event-emitter.base.ts:184-188 | creates the store if needed; fails and changes nothing when the listener is a member of it, otherwise appends the wrapper numbered by that store's counter (0 for a new store), which was not in the store, and raises the counter by one; every known name keeps its store object; no other event changes or counter changes |
| NamedEventEmitter.NamedEventEmitterBase.Off | src/lib/named-event-emitter.base.ts:198-200 | removes exactly the caller's listener from a known event's store; an unknown event changes nothing; the name stays known; wrapper counters unchanged |
| NamedEventEmitter.NamedEventEmitterBase.Pause | src/lib/named-event-emitter.base.ts:209-211 | adds the name to the paused set, known or not; idempotent; no store changes |
| NamedEventEmitter.NamedEventEmitterBase.Resume | src/lib/named-event-emitter.base.ts:220-222 | removes the name from the paused set, known or not; idempotent; no store changes |

## Left out

- `Promise.all`: awaiting, settlement order and rejection propagation in
  `emitAsync` are asynchronous scheduling. The model states only which
  listeners the round calls and what the store holds afterwards.
- The gap between taking the snapshot and invoking its members:
  `DispatchRound` is proved for any store contents at that point. The
  stated final store assumes nothing else ran in between.
- Listener bodies are opaque. Their only modelled effect is a wrapper
  deleting itself. Re-entrant `on`/`off`/`emit` from inside a listener is
  not modelled.
- The `@typescript-package/listeners` `Listeners` class and the
  `@typescript-package/collection-adapter` `SetAdapter` are not part of
  this model. Their behaviour is modelled as an ordered set with add,
  delete, has, clear, size and forEach, following JavaScript `Set`
  semantics.
- Adding a wrapper reference back into a store through `add` or `on` is
  not modelled: `add` and `on` take the caller's own listener ids.
- The `!listeners` test in `EventEmitterBase.emitAsync` is left out: the
  store always exists there.
- Fluent `return this`: only `once` returns a value in the model (the
  adapter or emitter on success, the duplicate-listener error otherwise).
  The other operations return their computed value or nothing.
- The `async` flag, the `value`/`T` type parameter and the adapter class
  argument are type-level only. The adapter is always `ListenersSetAdapter`.
- `src/lib/event-emitter.class.ts` and `src/lib/named-event-emitter.class.ts`
  only pick the default adapter. The type and re-export files are not
  modelled either.
- `Object.entries` key order: the initial configuration is taken as the
  already-ordered list of name/listener pairs that `Object.entries` yields.
  The ordering rule for integer-like keys is not modelled.
- Listener arguments are integers. They are forwarded untouched, so their
  type does not matter.
- Listeners.EmitTwice: at most one call per `once` registration holds only
  for rounds that run one after the other. An `emit` (or another round)
  that runs while an `emitAsync` snapshot is pending fires a wrapper the
  snapshot still holds, and the snapshot round calls its target again.
  `Listeners.SnapshotRefires` states this behaviour of the source.
- ListenersSet.ListenersSetAdapter.Delete: wrapper numbers are per store, so
  a wrapper read from one store compares equal to the same-numbered wrapper
  of another store. Handing one store's wrapper to another store's `delete`
  or `has` is therefore not modelled. In JavaScript the two closures are
  different references. The emitters' `off` takes the caller's own
  listener, so it never passes a wrapper.
