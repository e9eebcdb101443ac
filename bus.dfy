/**
  The event bus object: its registry field, updated in place by `Register`
  and `Remove`, and the two dispatch operations. Every method is proved
  against the functions of module `Registry`.
 */
module Bus {
  import opened Registry

  /** A task handed to the executor: the runnable `() -> l.onEvent(event)`. */
  datatype Task = Task(listener: Listener, event: Event)

  /** The executor, seen only through the tasks submitted to it, in order. */
  class Executor {
    var submitted: seq<Task>

    constructor ()
      ensures submitted == []
    {
      submitted := [];
    }

    /** `Executor.execute`: accept one task. */
    method Execute(t: Task)
      modifies this
      ensures submitted == old(submitted) + [t]
    {
      submitted := submitted + [t];
    }
  }

  class EventBus {
    /** `registry`: event type key to the bucket of listeners declared for it. */
    var registry: Buckets
    const executor: Executor

    /** The object invariant: no key maps to an empty bucket. */
    ghost predicate Valid()
      reads this
    {
      NoEmptyBuckets(registry)
    }

    /** `new EventBus()`: an empty registry and a fresh executor of its own
        (a cached thread pool in the source). */
    constructor ()
      ensures Valid() && registry == map[]
      ensures fresh(executor) && executor.submitted == []
    {
      registry := map[];
      executor := new Executor();
    }

    /** `new EventBus(executor)`: an empty registry and the given executor. */
    constructor WithExecutor(executor: Executor)
      ensures Valid() && registry == map[]
      ensures this.executor == executor
    {
      registry := map[];
      this.executor := executor;
    }

    /** `register(listener)`, with the event types the listener declares
        through its `EventListener<T>` interfaces given as `declared`. */
    method Register(l: Listener, declared: seq<TypeKey>)
      requires Valid()
      modifies this
      ensures Valid()
      ensures registry == Registered(old(registry), l, declared)
    {
      var i := 0;
      while i < |declared|
        invariant 0 <= i <= |declared|
        invariant registry == Registered(old(registry), l, declared[..i])
      {
        var c := declared[i];
        if c in registry {
          registry := registry[c := registry[c] + [l]];
        } else {
          registry := registry[c := [l]];
        }
        assert declared[..i + 1][..i] == declared[..i];
        i := i + 1;
      }
      assert declared[..|declared|] == declared;
      RegisteredNoEmptyBuckets(old(registry), l, declared);
    }

    /** `remove(listener)`: remove the first occurrence of `l` from every
        bucket, collecting the keys whose bucket became empty, then drop
        those keys. */
    method Remove(l: Listener)
      modifies this
      ensures Valid()
      ensures registry == Removed(old(registry), l)
    {
      var emptyBuckets := SweepBuckets(l);
      ghost var swept := registry;
      if emptyBuckets != [] {
        RemoveKeys(emptyBuckets);
      }
      RemovedAfterSweep(old(registry), l, swept, registry);
    }

    /** The first phase of `remove`, and only that: the `forEach` over the
        entries, which removes the first `l` from each bucket and lists the
        keys of the buckets left empty. The entries are visited in whatever
        order the map presents them. On its own it may leave empty buckets
        behind (it does not keep `Valid()`); `Remove` follows it with
        `RemoveKeys`. */
    method SweepBuckets(l: Listener) returns (emptyBuckets: seq<TypeKey>)
      modifies this
      ensures registry.Keys == old(registry).Keys
      ensures forall c :: c in registry ==> registry[c] == RemoveFirst(old(registry)[c], l)
      ensures forall c :: c in emptyBuckets <==> c in registry && registry[c] == []
    {
      emptyBuckets := [];
      var pending := registry.Keys;
      while pending != {}
        invariant registry.Keys == old(registry).Keys
        invariant pending <= registry.Keys
        invariant forall c :: c in registry ==>
          registry[c] == if c in pending then old(registry)[c] else RemoveFirst(old(registry)[c], l)
        invariant forall c :: c in emptyBuckets <==> c in registry && c !in pending && registry[c] == []
        decreases pending
      {
        var c :| c in pending;
        registry := registry[c := RemoveFirst(registry[c], l)];
        if registry[c] == [] {
          emptyBuckets := emptyBuckets + [c];
        }
        pending := pending - {c};
      }
    }

    /** The second phase of `remove`, and only that: `registry.remove(c)` for
        every listed key. `Remove` calls it with the keys `SweepBuckets`
        emptied, which restores `Valid()`. */
    method RemoveKeys(keys: seq<TypeKey>)
      modifies this
      ensures forall c :: c in registry <==> c in old(registry) && c !in keys
      ensures forall c :: c in registry ==> registry[c] == old(registry)[c]
    {
      var j := 0;
      while j < |keys|
        invariant 0 <= j <= |keys|
        invariant forall c :: c in registry <==> c in old(registry) && c !in keys[..j]
        invariant forall c :: c in registry ==> registry[c] == old(registry)[c]
      {
        registry := registry - {keys[j]};
        j := j + 1;
      }
      assert keys[..j] == keys;
    }

    /** `selectListeners(event)`: the buckets of every key `e` is an instance
        of, flattened, visiting the keys in the map's iteration `order`. */
    function SelectListeners(e: Event, order: seq<TypeKey>, isInstance: (Event, TypeKey) -> bool): (r: seq<Listener>)
      reads this
      requires IsEnumeration(order, registry.Keys)
      ensures multiset(r) == Matching(registry, registry.Keys, e, isInstance)
      ensures forall l :: l in r <==> exists c :: c in registry && isInstance(e, c) && l in registry[c]
    {
      SelectMatches(registry, order, registry.Keys, e, isInstance);
      SelectMembers(registry, order, e, isInstance);
      Select(registry, order, e, isInstance)
    }

    /** `onEvent(event)`: call every selected listener in selection order on
        the calling thread. A call that throws ends the loop: the exception
        propagates out of `onEvent` and the remaining listeners are not
        called. `fails(k)` says whether the `k`-th call (from 0) throws, so a
        listener selected twice may throw on one call and not the other.
        `invoked` lists the calls made; `threw` says whether one threw. */
    method OnEvent(e: Event, order: seq<TypeKey>, isInstance: (Event, TypeKey) -> bool, fails: nat -> bool)
      returns (invoked: seq<Listener>, threw: bool)
      requires IsEnumeration(order, registry.Keys)
      ensures var sel := SelectListeners(e, order, isInstance);
        && |invoked| <= |sel| && invoked == sel[..|invoked|]
        && (!threw <==> forall k :: 0 <= k < |sel| ==> !fails(k))
        && (!threw ==> invoked == sel)
        && (threw ==> invoked != [] && fails(|invoked| - 1))
        && (forall k :: 0 <= k < |invoked| - 1 ==> !fails(k))
    {
      var sel := SelectListeners(e, order, isInstance);
      invoked, threw := [], false;
      var i := 0;
      while i < |sel| && !threw
        invariant 0 <= i <= |sel|
        invariant invoked == sel[..i]
        invariant threw ==> i > 0
        invariant forall k :: 0 <= k < i ==> (fails(k) <==> threw && k == i - 1)
      {
        invoked := invoked + [sel[i]];
        threw := fails(i);
        i := i + 1;
      }
      if threw {
        assert fails(i - 1);
      }
    }

    /** `onEventAsync(event)`: submit one task per selected listener to the
        executor, in selection order; the registry is left as it was. */
    method OnEventAsync(e: Event, order: seq<TypeKey>, isInstance: (Event, TypeKey) -> bool)
      requires IsEnumeration(order, registry.Keys)
      modifies executor
      ensures registry == old(registry)
      ensures var sel := SelectListeners(e, order, isInstance);
        && |executor.submitted| == |old(executor.submitted)| + |sel|
        && executor.submitted[..|old(executor.submitted)|] == old(executor.submitted)
        && forall k :: 0 <= k < |sel| ==> executor.submitted[|old(executor.submitted)| + k] == Task(sel[k], e)
    {
      var sel := SelectListeners(e, order, isInstance);
      var i := 0;
      while i < |sel|
        invariant 0 <= i <= |sel|
        invariant executor.submitted == old(executor.submitted) + seq(i, k requires 0 <= k < i => Task(sel[k], e))
      {
        executor.Execute(Task(sel[i], e));
        i := i + 1;
      }
    }
  }
}
