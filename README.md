# EventBus registry and dispatch, modelled in Dafny

`irontomato.eventbus.EventBus` is an in-process publish/subscribe dispatcher.
It keeps a `HashMap` from an event class to a bucket (an `ArrayList`) of the
listeners that declared that class as their `EventListener<T>` type argument.
`register` appends a listener to the bucket of each declared type, creating
the bucket if it is missing. `remove` takes the listener out of every bucket
and drops the buckets left empty. `selectListeners` flattens the buckets of
every key the event is an instance of. `onEvent` calls the selected listeners
one after another on the calling thread. `onEventAsync` hands one task per
selected listener to an `Executor`.

The model has two modules:

- `Registry` (registry.dfy): the registry as a value
  (`map<TypeKey, seq<Listener>>`). Every operation has a specification
  function here: `Registered`, `Removed`, `Select`, with the single-bucket
  steps `AddToBucket` and `RemoveFirst`. `Matching` is an order-free
  reference for the selection: the multiset union of the matching buckets.
  The properties of the bus are proved as lemmas about these functions.
- `Bus` (bus.dfy): the class `EventBus`, whose `registry` field `Register`
  and `Remove` update in place with loops, plus the dispatch methods. Each
  method is proved against the functions of `Registry`. It also has the
  class `Executor`, a log of submitted tasks.

How the model stands in for things the Dafny code cannot see:

- `TypeKey`, `Listener` and `Event` are opaque types. They stand for
  `java.lang.Class`, a listener reference and an event object.
- `Class.isInstance` is the parameter `isInstance: (Event, TypeKey) -> bool`.
- The reflection in `register` that finds the declared event types is the
  explicit argument `declared: seq<TypeKey>`. Java lets a class list
  `EventListener<T>` only once among its interfaces, so in practice
  `declared` has at most one element. The model allows any sequence.
- `HashMap` iteration order is unspecified. `selectListeners` and the two
  dispatch methods take an `order` argument, which must list every key
  exactly once (`IsEnumeration`). Selection results are stated as multisets,
  which do not depend on that order (`SelectOrderIrrelevant`). The sweep in
  `remove` picks its next key with `:|`, so it is proved for every visiting
  order.
- A listener's `onEvent` is modelled only by whether that call throws. That
  is the parameter `fails: nat -> bool`: `fails(k)` says whether the `k`-th
  call of the dispatch throws. Outcomes are indexed by call, not by listener,
  so a stateful listener selected twice can throw on one call and not the
  other.

Two behaviours of the code are easy to misread, and the model follows the
code:

- `remove` calls `ArrayList.remove(Object)`, which deletes only the **first**
  equal element of each bucket, not every occurrence as the name `remove`
  might suggest. A listener registered twice under one type, by two calls of
  `register`, is still in that bucket after one `remove`
  (`RemoveLeavesSecondRegistration`). A listener that sat at most once in
  each bucket is selected by no event afterwards (`RemovedNeverSelected`).
  One that sat at least twice in the bucket of `c` is still selected by every
  instance of `c` (`RemovedStillSelected`).
- `onEvent` does not catch listener exceptions. The first exception ends the
  loop and propagates to the caller of `onEvent`. Later listeners are not
  called (`OnEvent`).
- `EventBus.java` has no `clear`, no completion callback and no event
  chains, so none of these are modelled.

## Model

| member | source | states |
|---|---|---|
| `Registry.AddToBucket` | src/main/java/irontomato/eventbus/EventBus.java:29-33 | one declared type `c`: the key set gains `c`, the bucket of `c` is its old bucket (or empty) with `l` appended, and every other bucket is unchanged |
| `Registry.RegisteredKeys` | src/main/java/irontomato/eventbus/EventBus.java:28-34 | after `register`, the key set is the old key set plus exactly the declared types |
| `Registry.RegisteredBuckets` | src/main/java/irontomato/eventbus/EventBus.java:28-34 | after `register`, every bucket is its old contents followed by one copy of `l` per time its key was declared; undeclared buckets are untouched |
| `Registry.RegisterEffect` | src/main/java/irontomato/eventbus/EventBus.java:28-34 | with distinct declared types: each declared bucket becomes old bucket + `[l]`, or `[l]` if the key was missing; every other key keeps its presence and its bucket |
| `Registry.RegisterTwice` | src/main/java/irontomato/eventbus/EventBus.java:29-30 | registration is not idempotent: registering twice leaves two copies of `l` per declaration in each declared bucket |
| `Registry.RegisteredNoEmptyBuckets` | src/main/java/irontomato/eventbus/EventBus.java:29-32 | `register` preserves the invariant that no key maps to an empty bucket |
| `Registry.Registered` | src/main/java/irontomato/eventbus/EventBus.java:28-34 | the registry after `register`: no old key is lost, every declared key has a nonempty bucket, and every key is old or declared; `RegisteredKeys` and `RegisteredBuckets` give the exact key set and buckets |
| `Registry.AddToBucketAt` | src/main/java/irontomato/eventbus/EventBus.java:29-33 | one registration step seen from a single key: the bucket of the declared type gains `l` at its end, every other bucket (present or not) is unchanged |
| `Registry.RemoveFirst` | src/main/java/irontomato/eventbus/EventBus.java:41 | `ArrayList.remove(Object)`: the bucket shrinks by one exactly when it held `l`, and is unchanged when it did not |
| `Registry.RemoveFirstMultiset` | src/main/java/irontomato/eventbus/EventBus.java:41 | removal takes away exactly one `l` if there is one, and no other element |
| `Registry.RemoveFirstAt` | src/main/java/irontomato/eventbus/EventBus.java:41 | the occurrence removed is the first one: the elements before and after it stay in order |
| `Registry.Removed` | src/main/java/irontomato/eventbus/EventBus.java:37-48 | the registry after `remove` has no empty bucket, whatever the registry before |
| `Registry.RemovedKeys` | src/main/java/irontomato/eventbus/EventBus.java:42-47 | under the invariant, the keys `remove` drops are exactly those whose bucket was the singleton `[l]` |
| `Registry.RemovedBuckets` | src/main/java/irontomato/eventbus/EventBus.java:40-45 | each surviving bucket has lost exactly one `l`, or nothing if it held none; a bucket without `l` survives unchanged |
| `Registry.RemovedAfterSweep` | src/main/java/irontomato/eventbus/EventBus.java:38-48 | the two phases of `remove` (first sweep the buckets, then drop the empty keys) give exactly `Removed` |
| `Registry.RemoveAbsent` | src/main/java/irontomato/eventbus/EventBus.java:41-47 | under the invariant, removing a listener that sits in no bucket leaves the registry unchanged |
| `Registry.RemoveUndoesRegister` | src/main/java/irontomato/eventbus/EventBus.java:23-48 | under the invariant, with distinct declared types (a Java class declares at most one), `remove(l)` after `register(l)` of a listener that was nowhere gives back the original registry |
| `Registry.RemoveLeavesSecondRegistration` | src/main/java/irontomato/eventbus/EventBus.java:23-48 | a listener registered twice under `c`, by two calls of `register`, keeps one copy in the bucket of `c` after one `remove` |
| `Registry.Select` | src/main/java/irontomato/eventbus/EventBus.java:62-66 | the flattened selection in a given key order: every selected listener comes from the bucket of a visited key the event is an instance of, and every such bucket is selected in full; `SelectMatches` gives its exact multiset |
| `Registry.MatchingMembers` | src/main/java/irontomato/eventbus/EventBus.java:63-65 | a listener is in the union of matching buckets exactly when some bucket of a key the event is an instance of holds it |
| `Registry.SelectMatches` | src/main/java/irontomato/eventbus/EventBus.java:62-66 | for any iteration order of the keys, the flattened selection as a multiset is the union of the matching buckets, so each listener is counted once per occurrence in a matching bucket |
| `Registry.SelectMembers` | src/main/java/irontomato/eventbus/EventBus.java:63-65 | a listener is selected iff a matching bucket holds it; a listener only in non-matching buckets is never selected |
| `Registry.SelectOrderIrrelevant` | src/main/java/irontomato/eventbus/EventBus.java:62-66 | two iteration orders of the same map select the same multiset of listeners |
| `Registry.SelectAfterAdd` | src/main/java/irontomato/eventbus/EventBus.java:29-33 | adding `l` under `d` makes every event that is an instance of `d` select `l` once more; all other selection counts are unchanged |
| `Registry.SelectAfterRegister` | src/main/java/irontomato/eventbus/EventBus.java:23-35 | after `register(l)`, an event selects `l` once more per declared type it is an instance of, and every other listener as often as before |
| `Registry.RemovedNeverSelected` | src/main/java/irontomato/eventbus/EventBus.java:37-66 | after `remove(l)`, a listener that was at most once in each bucket is selected by no event |
| `Registry.RemovedStillSelected` | src/main/java/irontomato/eventbus/EventBus.java:37-66 | the converse: after `remove(l)`, a listener that was at least twice in the bucket of `c` is still selected by every instance of `c` |
| `Bus.Executor.Execute` | src/main/java/irontomato/eventbus/EventBus.java:58-59 | `Executor.execute` seen as a log: the task (the runnable `() -> l.onEvent(event)`, the datatype `Task`) is appended to the submitted tasks |
| `Bus.EventBus.constructor` | src/main/java/irontomato/eventbus/EventBus.java:15-17 | a new bus has an empty registry and a fresh executor of its own with no tasks |
| `Bus.EventBus.WithExecutor` | src/main/java/irontomato/eventbus/EventBus.java:19-21 | a new bus has an empty registry and uses the given executor |
| `Bus.EventBus.Register` | src/main/java/irontomato/eventbus/EventBus.java:23-35 | the in-place loop leaves the registry equal to `Registered(old registry, l, declared)` and keeps the no-empty-bucket invariant |
| `Bus.EventBus.Remove` | src/main/java/irontomato/eventbus/EventBus.java:37-49 | the registry becomes `Removed(old registry, l)` and satisfies the invariant |
| `Bus.EventBus.SweepBuckets` | src/main/java/irontomato/eventbus/EventBus.java:38-45 | in any visiting order, each bucket loses its first `l`, the key set is unchanged, and the returned list holds exactly the keys whose bucket is now empty |
| `Bus.EventBus.RemoveKeys` | src/main/java/irontomato/eventbus/EventBus.java:46-48 | exactly the listed keys are gone; all other buckets are unchanged |
| `Bus.EventBus.SelectListeners` | src/main/java/irontomato/eventbus/EventBus.java:62-66 | as a multiset, the selection is the union of the buckets of all keys the event is an instance of, and a listener is selected iff a matching bucket holds it |
| `Bus.EventBus.OnEvent` | src/main/java/irontomato/eventbus/EventBus.java:51-54 | listeners are called in selection order, once per entry. With no failure, all of them are called. The loop stops right after the first call that throws, and the exception propagates to the caller (`threw`); each call's outcome may differ, even for the same listener |
| `Bus.EventBus.OnEventAsync` | src/main/java/irontomato/eventbus/EventBus.java:56-60 | exactly one task per selected listener is appended to the executor's log, in selection order, after the earlier tasks; the registry is unchanged |

## Left out

- `EventBusFactoryBean.java`: Spring glue that builds the bus and calls `register` for each listener bean. It depends on Spring classes that are not part of this model.
- Reflection in `register` (EventBus.java:24-27): the declared types are the `declared` argument.
- Bus.EventBus.Register: the `ClassCastException` is not modelled. The `(ParameterizedType)` cast at line 25 throws it when the listener's class implements raw `EventListener` or any other non-generic interface. The `(Class)` cast at line 27 throws it when the type argument of `EventListener` is a type variable or a parameterised type (`class F<T> implements EventListener<T>`). The stream is lazy, so when `EventListener<T>` comes before the offending interface, `register` first records its one declared type and then throws; otherwise nothing is registered.
- The cached thread pool and concurrent execution of tasks (EventBus.java:13-21, 58): the executor is only a log of submitted tasks. Whether and when a task runs is not modelled.
- Bus.EventBus.OnEvent: a listener's side effects are not modelled beyond whether it throws. This includes a listener that changes the registry while the lazy stream is still being read. In Java that may skip listeners, call a listener added during the dispatch, or end in a `ConcurrentModificationException` or a `NullPointerException`. The model takes the selection once, before the first call.
- Bus.EventBus.OnEvent: the actual exception object is not modelled; only the fact that one was thrown (`threw`) and which call threw it.
- `null` is not modelled: `Listener` and `Executor` values are never null. In Java, `register(null)` throws `NullPointerException` at `listener.getClass()` (line 24), and after `new EventBus(null)` the first selected listener makes `onEventAsync` throw `NullPointerException` at line 58.
- Bus.EventBus.OnEventAsync: `executor.execute` is assumed to accept every task and never to throw. The executor given to the constructor at lines 19-21 is arbitrary code. It may throw (`RejectedExecutionException`, say), which would end the loop early. It may also run tasks inline, so that a throwing listener stops the rest as in `onEvent`. The promise of exactly one task per selected listener holds only for the model's own `Executor`, which is a log.
- `HashMap` iteration order: the model never states a concrete order across keys. The dispatch methods take the order as an argument, constrained only to list each key once.
- `clear`, the completion callback, counters and event chains do not exist in `EventBus.java`, so nothing models them.
