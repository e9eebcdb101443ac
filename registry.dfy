/**
  The listener registry of the event bus as values: a map from an event type
  key to its bucket, the list of listeners registered under exactly that key.
  Each operation of the bus is specified here by a function on this map, and
  the properties the bus promises are proved as lemmas about those functions.
 */
module Registry {

  /** Stands for `java.lang.Class`, the key of a bucket; compared by identity. */
  type TypeKey(==)

  /** A listener reference; `ArrayList.remove(Object)` compares with `equals`. */
  type Listener(==, !new)

  /** An event instance; only the `isInstance` relation looks at it. */
  type Event

  /** The registry: event type key to bucket, in registration order. */
  type Buckets = map<TypeKey, seq<Listener>>

  /** The invariant the bus keeps: no key maps to an empty bucket. */
  predicate NoEmptyBuckets(reg: Buckets)
  {
    forall c :: c in reg ==> reg[c] != []
  }

  /** The bucket of `c`, or the empty list when `c` has none. */
  function Bucket(reg: Buckets, c: TypeKey): seq<Listener>
  {
    if c in reg then reg[c] else []
  }

  /** No key occurs twice. */
  predicate Distinct(s: seq<TypeKey>)
  {
    forall i, j :: 0 <= i < j < |s| ==> s[i] != s[j]
  }

  /** `order` lists every key of `keys` exactly once: one possible iteration
      order of a `HashMap` whose key set is `keys`. */
  predicate IsEnumeration(order: seq<TypeKey>, keys: set<TypeKey>)
  {
    && Distinct(order)
    && (forall i :: 0 <= i < |order| ==> order[i] in keys)
    && (forall k :: k in keys ==> k in order)
  }

  /** `n` copies of `l`. */
  function Repeat(l: Listener, n: nat): (r: seq<Listener>)
    ensures |r| == n
    ensures forall i :: 0 <= i < |r| ==> r[i] == l
  {
    if n == 0 then [] else Repeat(l, n - 1) + [l]
  }

  /** Runs of copies concatenate. */
  lemma {:induction false} RepeatAdd(l: Listener, a: nat, b: nat)
    ensures Repeat(l, a) + Repeat(l, b) == Repeat(l, a + b)
  {
    if b > 0 {
      RepeatAdd(l, a, b - 1);
      assert Repeat(l, a) + Repeat(l, b) == (Repeat(l, a) + Repeat(l, b - 1)) + [l];
    }
  }

  /** One more copy adds `l` once to the multiset. */
  lemma RepeatSucc(l: Listener, n: nat)
    ensures multiset(Repeat(l, n + 1)) == multiset(Repeat(l, n)) + multiset{l}
  {
    assert Repeat(l, n + 1) == Repeat(l, n) + [l];
  }

  /** In a sequence without repetitions every key occurs at most once. */
  lemma {:induction false} DistinctCount(s: seq<TypeKey>, c: TypeKey)
    requires Distinct(s)
    ensures multiset(s)[c] == if c in s then 1 else 0
  {
    if s != [] {
      assert s == [s[0]] + s[1..];
      assert Distinct(s[1..]) by {
        forall i, j | 0 <= i < j < |s[1..]| ensures s[1..][i] != s[1..][j] {
          assert s[1..][i] == s[i + 1] && s[1..][j] == s[j + 1];
        }
      }
      DistinctCount(s[1..], c);
      if c == s[0] {
        assert c !in s[1..] by {
          forall i | 0 <= i < |s[1..]| ensures s[1..][i] != c {
            assert s[1..][i] == s[i + 1];
          }
        }
      }
    }
  }

  // ---------------------------------------------------------------------------
  // register (EventBus.java, lines 23-35)
  // ---------------------------------------------------------------------------

  /** One step of `register` for one declared type `c`: append `l` to the
      bucket of `c`, or create the singleton bucket `[l]` if `c` has none. */
  function AddToBucket(reg: Buckets, c: TypeKey, l: Listener): (r: Buckets)
    ensures r.Keys == reg.Keys + {c}
    ensures r[c] == Bucket(reg, c) + [l]
    ensures forall k :: k in reg && k != c ==> r[k] == reg[k]
  {
    if c in reg then reg[c := reg[c] + [l]] else reg[c := [l]]
  }

  /** The registry after `register(l)` for a listener whose declared event
      types are `declared`, handled in that order. No key is lost, every
      declared key gets a nonempty bucket, and no key appears that is neither
      old nor declared. */
  function Registered(reg: Buckets, l: Listener, declared: seq<TypeKey>): (r: Buckets)
    ensures reg.Keys <= r.Keys
    ensures forall c :: c in declared ==> c in r && r[c] != []
    ensures forall c :: c in r ==> c in reg || c in declared
    decreases |declared|
  {
    if declared == [] then reg
    else AddToBucket(Registered(reg, l, declared[..|declared| - 1]), declared[|declared| - 1], l)
  }

  /** Registration adds exactly the declared keys. */
  lemma {:induction false} RegisteredKeys(reg: Buckets, l: Listener, declared: seq<TypeKey>)
    ensures Registered(reg, l, declared).Keys == reg.Keys + set k | k in declared
    decreases |declared|
  {
    if declared != [] {
      var init, d := declared[..|declared| - 1], declared[|declared| - 1];
      assert declared == init + [d];
      RegisteredKeys(reg, l, init);
      assert (set k | k in declared) == (set k | k in init) + {d};
    }
  }

  /** Each bucket gains one copy of `l` at its end for every time its key is
      declared. */
  lemma {:induction false} RegisteredBuckets(reg: Buckets, l: Listener, declared: seq<TypeKey>, c: TypeKey)
    ensures Bucket(Registered(reg, l, declared), c) == Bucket(reg, c) + Repeat(l, multiset(declared)[c])
    decreases |declared|
  {
    if declared == [] {
      assert Bucket(reg, c) + [] == Bucket(reg, c);
    } else {
      var init, d := declared[..|declared| - 1], declared[|declared| - 1];
      var n := multiset(init)[c];
      var m := multiset(declared)[c];
      assert m == n + (if c == d then 1 else 0) by {
        assert declared == init + [d];
      }
      RegisteredBuckets(reg, l, init, c);
      var before := Registered(reg, l, init);
      assert Registered(reg, l, declared) == AddToBucket(before, d, l);
      AddToBucketAt(before, d, l, c);
      assert Repeat(l, m) == Repeat(l, n) + (if c == d then [l] else []);
    }
  }

  /** One step of `register` seen from a single key `c`. */
  lemma AddToBucketAt(reg: Buckets, d: TypeKey, l: Listener, c: TypeKey)
    ensures Bucket(AddToBucket(reg, d, l), c) == Bucket(reg, c) + (if c == d then [l] else [])
  {
    if c != d {
      assert Bucket(reg, c) + [] == Bucket(reg, c);
    }
  }

  /** The effect of one `register(l)` whose declared types are distinct (a Java
      class names `EventListener` at most once among its interfaces): every
      declared bucket is the old one with `l` appended, or `[l]` if it was
      missing; every other key keeps its bucket and its presence. */
  lemma RegisterEffect(reg: Buckets, l: Listener, declared: seq<TypeKey>)
    requires Distinct(declared)
    ensures forall c :: c in declared ==>
      c in Registered(reg, l, declared) &&
      Registered(reg, l, declared)[c] == (if c in reg then reg[c] + [l] else [l])
    ensures forall c :: c !in declared ==>
      (c in Registered(reg, l, declared) <==> c in reg) &&
      (c in reg ==> Registered(reg, l, declared)[c] == reg[c])
  {
    var r := Registered(reg, l, declared);
    forall c | c in declared
      ensures c in r && r[c] == (if c in reg then reg[c] + [l] else [l])
    {
      RegisteredBuckets(reg, l, declared, c);
      DistinctCount(declared, c);
    }
    forall c | c !in declared
      ensures (c in r <==> c in reg) && (c in reg ==> r[c] == reg[c])
    {
      RegisteredBuckets(reg, l, declared, c);
      assert multiset(declared)[c] == 0;
    }
  }

  /** Registration is not idempotent: registering the same listener twice
      leaves two copies of it in every declared bucket. */
  lemma RegisterTwice(reg: Buckets, l: Listener, declared: seq<TypeKey>, c: TypeKey)
    ensures Bucket(Registered(Registered(reg, l, declared), l, declared), c)
         == Bucket(reg, c) + Repeat(l, 2 * multiset(declared)[c])
  {
    var n := multiset(declared)[c];
    RegisteredBuckets(reg, l, declared, c);
    RegisteredBuckets(Registered(reg, l, declared), l, declared, c);
    RepeatAdd(l, n, n);
  }

  /** `register` keeps the invariant: every bucket it touches ends in `l`. */
  lemma {:induction false} RegisteredNoEmptyBuckets(reg: Buckets, l: Listener, declared: seq<TypeKey>)
    requires NoEmptyBuckets(reg)
    ensures NoEmptyBuckets(Registered(reg, l, declared))
    decreases |declared|
  {
    if declared != [] {
      RegisteredNoEmptyBuckets(reg, l, declared[..|declared| - 1]);
    }
  }

  // ---------------------------------------------------------------------------
  // remove (EventBus.java, lines 37-49)
  // ---------------------------------------------------------------------------

  /** `ArrayList.remove(Object)`: drop the first occurrence of `l`, if any. */
  function RemoveFirst(s: seq<Listener>, l: Listener): (r: seq<Listener>)
    ensures |r| == if l in s then |s| - 1 else |s|
    ensures l !in s ==> r == s
  {
    if s == [] then []
    else if s[0] == l then assert s == [s[0]] + s[1..]; s[1..]
    else assert s == [s[0]] + s[1..]; [s[0]] + RemoveFirst(s[1..], l)
  }

  /** `RemoveFirst` takes away exactly one `l` if there is one, and nothing
      else. */
  lemma {:induction false} RemoveFirstMultiset(s: seq<Listener>, l: Listener)
    ensures multiset(RemoveFirst(s, l)) == multiset(s) - multiset{l}
  {
    if s != [] {
      assert s == [s[0]] + s[1..];
      if s[0] != l {
        RemoveFirstMultiset(s[1..], l);
      }
    }
  }

  /** The occurrence `RemoveFirst` drops is the first one. */
  lemma {:induction false} RemoveFirstAt(s: seq<Listener>, l: Listener, i: nat)
    requires i < |s| && s[i] == l && l !in s[..i]
    ensures RemoveFirst(s, l) == s[..i] + s[i + 1..]
  {
    if i > 0 {
      assert s[1..][..i - 1] == s[1..i];
      assert l !in s[1..i] by {
        assert forall k :: 0 <= k < i - 1 ==> s[1..i][k] == s[..i][k + 1];
      }
      RemoveFirstAt(s[1..], l, i - 1);
      assert s[..i] == [s[0]] + s[1..][..i - 1];
      assert s[i + 1..] == s[1..][i..];
    }
  }

  /** The registry after `remove(l)`: every bucket loses its first `l`, and
      every bucket left empty is dropped with its key. */
  function Removed(reg: Buckets, l: Listener): (r: Buckets)
    ensures NoEmptyBuckets(r)
  {
    map c | c in reg && RemoveFirst(reg[c], l) != [] :: RemoveFirst(reg[c], l)
  }

  /** A bucket is emptied by `RemoveFirst` exactly when it was empty or `[l]`. */
  lemma RemoveFirstEmpties(s: seq<Listener>, l: Listener)
    ensures RemoveFirst(s, l) == [] <==> s == [] || s == [l]
  {
    if |s| == 1 && l in s {
      assert s == [s[0]];
    }
  }

  /** Appending `l` to a bucket without `l` is undone by `RemoveFirst`. */
  lemma RemoveFirstAppended(b: seq<Listener>, l: Listener)
    requires l !in b
    ensures RemoveFirst(b + [l], l) == b
  {
    assert (b + [l])[..|b|] == b;
    RemoveFirstAt(b + [l], l, |b|);
    assert (b + [l])[|b| + 1..] == [];
  }

  /** Under the invariant, the keys that `remove(l)` drops are exactly those
      whose bucket was the singleton `[l]`. */
  lemma RemovedKeys(reg: Buckets, l: Listener)
    requires NoEmptyBuckets(reg)
    ensures Removed(reg, l).Keys == reg.Keys - set c | c in reg && reg[c] == [l]
  {
    var dropped := set c | c in reg && reg[c] == [l];
    forall c ensures c in Removed(reg, l) <==> c in reg && c !in dropped {
      if c in reg {
        RemoveFirstEmpties(reg[c], l);
      }
    }
  }

  /** A bucket that survives `remove(l)` has lost exactly one `l`, or nothing
      if it held none; a bucket without `l` survives unchanged. */
  lemma RemovedBuckets(reg: Buckets, l: Listener)
    requires NoEmptyBuckets(reg)
    ensures forall c :: c in Removed(reg, l) ==>
      c in reg && multiset(Removed(reg, l)[c]) == multiset(reg[c]) - multiset{l}
    ensures forall c :: c in reg && l !in reg[c] ==> c in Removed(reg, l) && Removed(reg, l)[c] == reg[c]
  {
    forall c | c in Removed(reg, l)
      ensures c in reg && multiset(Removed(reg, l)[c]) == multiset(reg[c]) - multiset{l}
    {
      RemoveFirstMultiset(reg[c], l);
    }
  }

  /** The two phases of `remove`: once every bucket has lost its first `l`
      (`swept`) and the keys of the buckets left empty are gone (`reg`), the
      registry is `Removed(prior, l)`. */
  lemma RemovedAfterSweep(prior: Buckets, l: Listener, swept: Buckets, reg: Buckets)
    requires swept.Keys == prior.Keys
    requires forall c :: c in swept ==> swept[c] == RemoveFirst(prior[c], l)
    requires forall c :: c in reg <==> c in swept && swept[c] != []
    requires forall c :: c in reg ==> reg[c] == swept[c]
    ensures reg == Removed(prior, l)
  {
    assert reg.Keys == Removed(prior, l).Keys;
  }

  /** Under the invariant, removing a listener that sits in no bucket leaves
      the registry exactly as it was. */
  lemma RemoveAbsent(reg: Buckets, l: Listener)
    requires NoEmptyBuckets(reg)
    requires forall c :: c in reg ==> l !in reg[c]
    ensures Removed(reg, l) == reg
  {
    assert Removed(reg, l).Keys == reg.Keys;
  }

  /** Per key: `RemoveFirst` takes back the copy of `l` that a `register`
      with distinct declared types appended. */
  lemma RemoveUndoesRegisterAt(reg: Buckets, l: Listener, declared: seq<TypeKey>, c: TypeKey)
    requires l !in Bucket(reg, c)
    requires Distinct(declared)
    ensures RemoveFirst(Bucket(Registered(reg, l, declared), c), l) == Bucket(reg, c)
  {
    RegisteredBuckets(reg, l, declared, c);
    DistinctCount(declared, c);
    if c in declared {
      assert Repeat(l, 1) == [l];
      RemoveFirstAppended(Bucket(reg, c), l);
    } else {
      assert Bucket(reg, c) + Repeat(l, 0) == Bucket(reg, c);
    }
  }

  /** `remove` undoes a `register` of a listener that was nowhere before. */
  lemma RemoveUndoesRegister(reg: Buckets, l: Listener, declared: seq<TypeKey>)
    requires NoEmptyBuckets(reg)
    requires forall c :: c in reg ==> l !in reg[c]
    requires Distinct(declared)
    ensures Removed(Registered(reg, l, declared), l) == reg
  {
    var r := Registered(reg, l, declared);
    RegisteredKeys(reg, l, declared);
    forall c | c in r
      ensures RemoveFirst(r[c], l) == Bucket(reg, c)
    {
      RemoveUndoesRegisterAt(reg, l, declared, c);
    }
    RemovedRestores(reg, r, l);
  }

  /** `Removed` gives back `reg` when removal from each bucket of `r` gives
      back the bucket `reg` has for that key. */
  lemma RemovedRestores(reg: Buckets, r: Buckets, l: Listener)
    requires NoEmptyBuckets(reg)
    requires reg.Keys <= r.Keys
    requires forall c :: c in r ==> RemoveFirst(r[c], l) == Bucket(reg, c)
    ensures Removed(r, l) == reg
  {
    var back := Removed(r, l);
    forall c ensures c in back <==> c in reg {
      if c in r {
        assert RemoveFirst(r[c], l) == Bucket(reg, c);
      }
    }
    assert back.Keys == reg.Keys;
  }

  /** `remove` takes out one registration per bucket, not every occurrence:
      a listener registered twice under `c`, by two calls of `register`, is
      still in that bucket afterwards. */
  lemma RemoveLeavesSecondRegistration(reg: Buckets, l: Listener, c: TypeKey)
    requires l !in Bucket(reg, c)
    ensures c in Removed(Registered(Registered(reg, l, [c]), l, [c]), l)
    ensures Removed(Registered(Registered(reg, l, [c]), l, [c]), l)[c] == Bucket(reg, c) + [l]
  {
    var b := Bucket(reg, c);
    var r := Registered(Registered(reg, l, [c]), l, [c]);
    RegisterTwice(reg, l, [c], c);
    assert multiset([c])[c] == 1;
    assert Repeat(l, 2) == [l, l];
    assert r[c] == b + [l, l];
    RemoveFirstAt(b + [l, l], l, |b|);
    assert (b + [l, l])[..|b|] == b;
    assert (b + [l, l])[|b| + 1..] == [l];
  }

  // ---------------------------------------------------------------------------
  // selectListeners (EventBus.java, lines 62-66)
  // ---------------------------------------------------------------------------

  /** What key `c` contributes to the selection of `e`: its whole bucket when
      `e` is an instance of `c`, nothing otherwise. */
  function Contribution(reg: Buckets, c: TypeKey, e: Event, isInstance: (Event, TypeKey) -> bool): seq<Listener>
  {
    if c in reg && isInstance(e, c) then reg[c] else []
  }

  /** The flattened selection when the keys are visited in `order`: every
      selected listener comes from the bucket of a visited key the event is an
      instance of, and every such bucket is selected in full. */
  function Select(reg: Buckets, order: seq<TypeKey>, e: Event, isInstance: (Event, TypeKey) -> bool): (r: seq<Listener>)
    ensures forall x :: x in r ==> exists c :: c in order && c in reg && isInstance(e, c) && x in reg[c]
    ensures forall c :: c in order && c in reg && isInstance(e, c) ==> multiset(reg[c]) <= multiset(r)
  {
    if order == [] then []
    else
      assert order == [order[0]] + order[1..];
      Contribution(reg, order[0], e, isInstance) + Select(reg, order[1..], e, isInstance)
  }

  /** Order-free reference for the selection: the multiset union of what every
      key of `keys` contributes. */
  ghost function Matching(reg: Buckets, keys: set<TypeKey>, e: Event, isInstance: (Event, TypeKey) -> bool): multiset<Listener>
    decreases keys
  {
    if keys == {} then multiset{}
    else
      var c :| c in keys;
      multiset(Contribution(reg, c, e, isInstance)) + Matching(reg, keys - {c}, e, isInstance)
  }

  /** `Matching` may split off any key, not only the one it picks itself. */
  lemma {:induction false} MatchingSplit(reg: Buckets, keys: set<TypeKey>, c: TypeKey, e: Event, isInstance: (Event, TypeKey) -> bool)
    requires c in keys
    ensures Matching(reg, keys, e, isInstance)
         == multiset(Contribution(reg, c, e, isInstance)) + Matching(reg, keys - {c}, e, isInstance)
    decreases keys
  {
    var d :| d in keys && Matching(reg, keys, e, isInstance)
          == multiset(Contribution(reg, d, e, isInstance)) + Matching(reg, keys - {d}, e, isInstance);
    if d != c {
      MatchingSplit(reg, keys - {d}, c, e, isInstance);
      MatchingSplit(reg, keys - {c}, d, e, isInstance);
      assert keys - {d} - {c} == keys - {c} - {d};
    }
  }

  /** A listener is in `Matching` exactly when some matching bucket holds it. */
  lemma {:induction false} MatchingMembers(reg: Buckets, keys: set<TypeKey>, e: Event, isInstance: (Event, TypeKey) -> bool, l: Listener)
    ensures l in Matching(reg, keys, e, isInstance)
        <==> exists c :: c in keys && c in reg && isInstance(e, c) && l in reg[c]
    decreases keys
  {
    if keys != {} {
      var c :| c in keys;
      MatchingSplit(reg, keys, c, e, isInstance);
      MatchingMembers(reg, keys - {c}, e, isInstance, l);
      if l in Matching(reg, keys - {c}, e, isInstance) {
        var k :| k in keys - {c} && k in reg && isInstance(e, k) && l in reg[k];
        assert k in keys;
      }
    }
  }

  /** Visiting the keys in any enumeration order selects, as a multiset,
      exactly the union of the matching buckets; each listener is selected
      once per occurrence in a matching bucket. */
  lemma {:induction false} SelectMatches(reg: Buckets, order: seq<TypeKey>, keys: set<TypeKey>, e: Event, isInstance: (Event, TypeKey) -> bool)
    requires IsEnumeration(order, keys)
    ensures multiset(Select(reg, order, e, isInstance)) == Matching(reg, keys, e, isInstance)
    decreases |order|
  {
    if order == [] {
      assert keys == {};
    } else {
      var c, rest := order[0], order[1..];
      assert c !in rest by {
        forall i | 0 <= i < |rest| ensures rest[i] != c {
          assert rest[i] == order[i + 1];
        }
      }
      assert IsEnumeration(rest, keys - {c}) by {
        forall i, j | 0 <= i < j < |rest| ensures rest[i] != rest[j] {
          assert rest[i] == order[i + 1] && rest[j] == order[j + 1];
        }
        forall k ensures k in rest <==> k in keys - {c} {
          assert order == [c] + rest;
        }
      }
      SelectMatches(reg, rest, keys - {c}, e, isInstance);
      MatchingSplit(reg, keys, c, e, isInstance);
    }
  }

  /** A listener is selected exactly when some bucket of a key that the
      event is an instance of holds it; a listener sitting only in buckets
      of non-matching keys is never selected. */
  lemma SelectMembers(reg: Buckets, order: seq<TypeKey>, e: Event, isInstance: (Event, TypeKey) -> bool)
    requires IsEnumeration(order, reg.Keys)
    ensures forall l ::
      l in Select(reg, order, e, isInstance) <==> exists c :: c in reg && isInstance(e, c) && l in reg[c]
  {
    var r := Select(reg, order, e, isInstance);
    forall l, c | c in reg && isInstance(e, c) && l in reg[c] ensures l in r {
      assert c in order;
      assert l in multiset(reg[c]);
      assert l in multiset(r);
    }
  }

  /** The selection does not depend, as a multiset, on the iteration order. */
  lemma SelectOrderIrrelevant(reg: Buckets, order1: seq<TypeKey>, order2: seq<TypeKey>, e: Event, isInstance: (Event, TypeKey) -> bool)
    requires IsEnumeration(order1, reg.Keys) && IsEnumeration(order2, reg.Keys)
    ensures multiset(Select(reg, order1, e, isInstance)) == multiset(Select(reg, order2, e, isInstance))
  {
    SelectMatches(reg, order1, reg.Keys, e, isInstance);
    SelectMatches(reg, order2, reg.Keys, e, isInstance);
  }

  /** `Matching` only looks at what each key of `keys` contributes. */
  lemma {:induction false} MatchingCongruent(reg1: Buckets, reg2: Buckets, keys: set<TypeKey>, e: Event, isInstance: (Event, TypeKey) -> bool)
    requires forall c :: c in keys ==> Contribution(reg1, c, e, isInstance) == Contribution(reg2, c, e, isInstance)
    ensures Matching(reg1, keys, e, isInstance) == Matching(reg2, keys, e, isInstance)
    decreases keys
  {
    if keys != {} {
      var c :| c in keys;
      MatchingSplit(reg1, keys, c, e, isInstance);
      MatchingSplit(reg2, keys, c, e, isInstance);
      MatchingCongruent(reg1, reg2, keys - {c}, e, isInstance);
    }
  }

  /** How many of the declared types `e` is an instance of. */
  function MatchCount(declared: seq<TypeKey>, e: Event, isInstance: (Event, TypeKey) -> bool): nat
  {
    if declared == [] then 0
    else MatchCount(declared[..|declared| - 1], e, isInstance) + (if isInstance(e, declared[|declared| - 1]) then 1 else 0)
  }

  /** One step of `register`: an event selects `l` once more if it is an
      instance of `d`, and every other listener as often as before. */
  lemma SelectAfterAdd(m: Buckets, d: TypeKey, l: Listener, e: Event, isInstance: (Event, TypeKey) -> bool)
    ensures Matching(AddToBucket(m, d, l), AddToBucket(m, d, l).Keys, e, isInstance)
         == Matching(m, m.Keys, e, isInstance) + (if isInstance(e, d) then multiset{l} else multiset{})
  {
    var a := AddToBucket(m, d, l);
    var rest := m.Keys - {d};
    assert a.Keys - {d} == rest;
    MatchingSplit(a, a.Keys, d, e, isInstance);
    forall c | c in rest
      ensures Contribution(a, c, e, isInstance) == Contribution(m, c, e, isInstance)
    {
    }
    MatchingCongruent(a, m, rest, e, isInstance);
    assert multiset(Contribution(a, d, e, isInstance))
        == multiset(Contribution(m, d, e, isInstance)) + (if isInstance(e, d) then multiset{l} else multiset{});
    if d in m {
      MatchingSplit(m, m.Keys, d, e, isInstance);
    } else {
      assert rest == m.Keys;
    }
  }

  /** After `register(l)`, an event selects `l` once more for every declared
      type it is an instance of, and selects every other listener as often
      as before. */
  lemma {:induction false} SelectAfterRegister(reg: Buckets, l: Listener, declared: seq<TypeKey>, e: Event, isInstance: (Event, TypeKey) -> bool)
    ensures Matching(Registered(reg, l, declared), Registered(reg, l, declared).Keys, e, isInstance)
         == Matching(reg, reg.Keys, e, isInstance) + multiset(Repeat(l, MatchCount(declared, e, isInstance)))
    decreases |declared|
  {
    if declared != [] {
      var init, d := declared[..|declared| - 1], declared[|declared| - 1];
      var before, n := Registered(reg, l, init), MatchCount(init, e, isInstance);
      SelectAfterRegister(reg, l, init, e, isInstance);
      SelectAfterRegisterStep(reg, before, d, l, n, e, isInstance);
      assert Registered(reg, l, declared) == AddToBucket(before, d, l);
      assert MatchCount(declared, e, isInstance) == n + if isInstance(e, d) then 1 else 0;
    }
  }

  /** The inductive step of `SelectAfterRegister`, on plain maps. */
  lemma SelectAfterRegisterStep(reg: Buckets, before: Buckets, d: TypeKey, l: Listener, n: nat, e: Event, isInstance: (Event, TypeKey) -> bool)
    requires Matching(before, before.Keys, e, isInstance) == Matching(reg, reg.Keys, e, isInstance) + multiset(Repeat(l, n))
    ensures Matching(AddToBucket(before, d, l), AddToBucket(before, d, l).Keys, e, isInstance)
         == Matching(reg, reg.Keys, e, isInstance) + multiset(Repeat(l, n + if isInstance(e, d) then 1 else 0))
  {
    SelectAfterAdd(before, d, l, e, isInstance);
    RepeatSucc(l, n);
  }

  /** After `remove(l)`, a listener that was registered at most once per
      bucket is selected by no event. */
  lemma RemovedNeverSelected(reg: Buckets, l: Listener, order: seq<TypeKey>, e: Event, isInstance: (Event, TypeKey) -> bool)
    requires forall c :: c in reg ==> multiset(reg[c])[l] <= 1
    requires IsEnumeration(order, Removed(reg, l).Keys)
    ensures l !in Select(Removed(reg, l), order, e, isInstance)
  {
    var r := Removed(reg, l);
    forall c | c in r ensures l !in r[c] {
      RemoveFirstMultiset(reg[c], l);
      assert multiset(r[c])[l] == 0;
    }
    SelectMatches(r, order, r.Keys, e, isInstance);
    MatchingMembers(r, r.Keys, e, isInstance, l);
    assert l !in multiset(Select(r, order, e, isInstance));
  }

  /** The converse of `RemovedNeverSelected`: a listener that sat at least
      twice in the bucket of `c` is still selected, after `remove(l)`, by
      every event that is an instance of `c`. */
  lemma RemovedStillSelected(reg: Buckets, l: Listener, c: TypeKey, order: seq<TypeKey>, e: Event, isInstance: (Event, TypeKey) -> bool)
    requires c in reg && multiset(reg[c])[l] >= 2 && isInstance(e, c)
    requires IsEnumeration(order, Removed(reg, l).Keys)
    ensures l in Select(Removed(reg, l), order, e, isInstance)
  {
    var r := Removed(reg, l);
    RemoveFirstMultiset(reg[c], l);
    assert l in RemoveFirst(reg[c], l) by {
      assert multiset(RemoveFirst(reg[c], l))[l] >= 1;
    }
    assert c in r;
    SelectMembers(r, order, e, isInstance);
  }
}
