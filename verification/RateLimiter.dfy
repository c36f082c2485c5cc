/**
 The in-memory rate limiter of lib/rate-limit.ts: one map, pruned and updated in place, with
 the order of insertion that a JavaScript Map keeps.
 Every call of `GetLocalRateLimit` extends a ghost run that satisfies `LocalStore.IsRun`,
 so the theorems about runs hold of the object.
 */
module RateLimiter {
  import opened Common
  import opened FixedWindow
  import opened LocalStore

  /** The part of the 429 response that the limiter computes. */
  datatype Refusal = Refusal(retryAfterSeconds: int, limit: int, remaining: int, reset: int)

  function Without(store: Store, keys: seq<string>): Store {
    map id | id in store && id !in keys :: store[id]
  }

  /** `keys` are keys of `store`, each once, smallest reset first. */
  ghost predicate Sorted(store: Store, keys: seq<string>) {
    && (forall i | 0 <= i < |keys| :: keys[i] in store)
    && (forall i, j | 0 <= i < j < |keys| :: keys[i] != keys[j])
    && (forall i, j | 0 <= i < j < |keys| && keys[i] in store && keys[j] in store ::
          store[keys[i]].reset <= store[keys[j]].reset)
  }

  /** The keys of the store in the order of insertion. */
  ghost predicate Ordered(store: Store, order: seq<string>) {
    && (forall i, j | 0 <= i < j < |order| :: order[i] != order[j])
    && (forall id :: id in store <==> id in order)
  }

  ghost predicate IsNewest(order: seq<string>, id: string) {
    order != [] && order[|order| - 1] == id
  }

  /** The keys that come after `id` have strictly larger resets. */
  ghost predicate LargerAfter(store: Store, keys: seq<string>, id: string) {
    id in store
    && forall i, j | 0 <= i < j < |keys| && keys[i] == id && keys[j] in store :: store[id].reset < store[keys[j]].reset
  }

  /** What is left of the order when keys have gone. */
  function Present(order: seq<string>, store: Store): seq<string> {
    if order == [] then []
    else
      var before, last := Present(order[..|order| - 1], store), order[|order| - 1];
      if last in store then before + [last] else before
  }

  lemma {:induction false} PresentIsOrdered(order: seq<string>, store: Store)
    requires forall i, j | 0 <= i < j < |order| :: order[i] != order[j]
    ensures forall id :: id in Present(order, store) <==> id in order && id in store
    ensures forall i, j | 0 <= i < j < |Present(order, store)| :: Present(order, store)[i] != Present(order, store)[j]
    ensures forall id | IsNewest(order, id) && id in store :: IsNewest(Present(order, store), id)
  {
    if order != [] {
      var before, last := order[..|order| - 1], order[|order| - 1];
      PresentIsOrdered(before, store);
      assert order == before + [last];
      assert last !in before;
    }
  }

  /** All of the keys. */
  ghost predicate ByReset(store: Store, keys: seq<string>) {
    Sorted(store, keys) && |keys| == |store| && forall id | id in store :: id in keys
  }

  function Insert(keys: seq<string>, at: nat, id: string): (r: seq<string>)
    requires at <= |keys|
    ensures |r| == |keys| + 1
    ensures forall i | 0 <= i < |r| :: r[i] == if i < at then keys[i] else if i == at then id else keys[i - 1]
  {
    keys[..at] + [id] + keys[at..]
  }

  lemma InsertedMembers(keys: seq<string>, at: nat, id: string)
    requires at <= |keys|
    ensures forall k :: k in Insert(keys, at, id) <==> k in keys || k == id
  {
    var r := Insert(keys, at, id);
    forall k | k in keys ensures k in r {
      var i :| 0 <= i < |keys| && keys[i] == k;
      assert r[if i < at then i else i + 1] == k;
    }
    assert r[at] == id;
  }

  lemma InsertedIsSorted(store: Store, keys: seq<string>, at: nat, id: string)
    requires Sorted(store, keys) && id in store && id !in keys && at <= |keys|
    requires forall i | 0 <= i < at :: store[keys[i]].reset <= store[id].reset
    requires forall i | at <= i < |keys| :: store[id].reset < store[keys[i]].reset
    ensures Sorted(store, Insert(keys, at, id)) && LargerAfter(store, Insert(keys, at, id), id)
  {
  }

  /** One key less in the store for each key dropped. */
  lemma WithoutOneMore(store: Store, keys: seq<string>, n: nat)
    requires Sorted(store, keys) && n < |keys|
    ensures keys[n] in Without(store, keys[..n])
    ensures Without(store, keys[..n + 1]) == Without(store, keys[..n]) - {keys[n]}
  {
    assert keys[n] !in keys[..n];
    assert forall k :: k in keys[..n + 1] <==> k in keys[..n] || k == keys[n];
  }

  lemma {:induction false} WithoutSize(store: Store, keys: seq<string>, n: nat)
    requires Sorted(store, keys) && n <= |keys|
    ensures |Without(store, keys[..n])| == |store| - n
  {
    if n == 0 {
      assert Without(store, keys[..0]) == store;
    } else {
      WithoutSize(store, keys, n - 1);
      WithoutOneMore(store, keys, n - 1);
      var before := Without(store, keys[..n - 1]);
      assert (before - {keys[n - 1]}).Keys == before.Keys - {keys[n - 1]};
    }
  }

  lemma EarliestAreGone(store: Store, keys: seq<string>, n: nat)
    requires ByReset(store, keys) && n <= |keys|
    ensures Retained(store, Without(store, keys[..n]))
    ensures |Without(store, keys[..n])| == |store| - n
  {
    WithoutSize(store, keys, n);
    var after := Without(store, keys[..n]);
    forall gone, kept | gone in store && gone !in after && kept in after
      ensures store[gone].reset <= store[kept].reset
    {
      var i :| 0 <= i < n && keys[i] == gone;
      var j :| 0 <= j < |keys| && keys[j] == kept;
      assert n <= j;
    }
  }

  /** The store once the expired ones among the `visited` keys have gone. */
  function Unexpired(store: Store, visited: seq<string>, now: int): Store {
    map id | id in store && (id !in visited || store[id].reset > now) :: store[id]
  }

  lemma OneMoreVisited(store: Store, entries: seq<string>, n: nat, now: int)
    requires Ordered(store, entries) && n < |entries|
    ensures entries[n] in store && entries[n] in Unexpired(store, entries[..n], now)
    ensures Unexpired(store, entries[..n + 1], now)
         == if store[entries[n]].reset <= now then Unexpired(store, entries[..n], now) - {entries[n]}
            else Unexpired(store, entries[..n], now)
  {
    assert entries[n] in entries && entries[n] !in entries[..n];
    assert forall id :: id in entries[..n + 1] <==> id in entries[..n] || id == entries[n];
  }

  lemma AllVisited(store: Store, entries: seq<string>, now: int)
    requires Ordered(store, entries)
    ensures Unexpired(store, entries[..|entries|], now) == Live(store, now)
  {
    assert entries[..|entries|] == entries;
  }

  /** If the newest key goes, everything that stays resets strictly later. */
  lemma NewestGoneLast(store: Store, keys: seq<string>, n: nat, id: string)
    requires ByReset(store, keys) && n <= |keys| && LargerAfter(store, keys, id)
    requires id !in Without(store, keys[..n])
    ensures forall kept | kept in Without(store, keys[..n]) :: store[id].reset < store[kept].reset
  {
    var i :| 0 <= i < n && keys[i] == id;
    forall kept | kept in Without(store, keys[..n]) ensures store[id].reset < store[kept].reset {
      var j :| 0 <= j < |keys| && keys[j] == kept;
      assert kept !in keys[..n] && n <= j;
    }
  }

  class LocalRateLimiter {
    var localWindowStore: Store
    var order: seq<string>
    ghost var run: Run
    ghost const policyOf: string -> Policy

    ghost predicate Valid()
      reads this
    {
      && IsRun(run, policyOf) && Ordered(localWindowStore, order)
      && run.stores[|run.calls|] == localWindowStore
    }

    constructor (ghost policyOf: string -> Policy)
      requires forall id: string :: policyOf(id).Sensible()
      ensures Valid() && this.policyOf == policyOf && run == Run([], [map[]], [])
    {
      this.policyOf := policyOf;
      localWindowStore, order := map[], [];
      run := Run([], [map[]], []);
    }

    /** `Map.delete`. */
    method Delete(key: string)
      requires Ordered(localWindowStore, order)
      modifies this`localWindowStore, this`order
      ensures localWindowStore == old(localWindowStore) - {key} && Ordered(localWindowStore, order)
      ensures forall id | IsNewest(old(order), id) && id != key :: IsNewest(order, id)
    {
      PresentIsOrdered(order, localWindowStore - {key});
      assert forall id | IsNewest(order, id) :: id in order;
      localWindowStore := localWindowStore - {key};
      order := Present(order, localWindowStore);
    }

    /** `Map.set`: a new key goes to the end of the order. */
    method Put(key: string, bucket: Bucket)
      requires Ordered(localWindowStore, order)
      modifies this`localWindowStore, this`order
      ensures localWindowStore == old(localWindowStore)[key := bucket] && Ordered(localWindowStore, order)
      ensures key !in old(localWindowStore) ==> IsNewest(order, key)
    {
      if key !in localWindowStore {
        order := order + [key];
      }
      localWindowStore := localWindowStore[key := bucket];
    }

    /** A key's place is behind all that reset no later. */
    method Inserted(keys: seq<string>, id: string) returns (more: seq<string>)
      requires Sorted(localWindowStore, keys) && id in localWindowStore && id !in keys
      ensures |more| == |keys| + 1 && Sorted(localWindowStore, more) && LargerAfter(localWindowStore, more, id)
      ensures forall k :: k in more <==> k in keys || k == id
    {
      var at := |keys|;
      while at > 0 && localWindowStore[id].reset < localWindowStore[keys[at - 1]].reset
        invariant 0 <= at <= |keys|
        invariant forall i | at <= i < |keys| :: localWindowStore[id].reset < localWindowStore[keys[i]].reset
      {
        at := at - 1;
      }
      InsertedIsSorted(localWindowStore, keys, at, id);
      InsertedMembers(keys, at, id);
      more := Insert(keys, at, id);
    }

    /** The stable sort of the entries: smallest reset first, equal resets in the order of insertion. */
    method KeysByReset() returns (keys: seq<string>)
      requires Ordered(localWindowStore, order)
      ensures ByReset(localWindowStore, keys)
      ensures forall id | IsNewest(order, id) :: LargerAfter(localWindowStore, keys, id)
    {
      keys := [];
      for n := 0 to |order|
        invariant |keys| == n && Sorted(localWindowStore, keys)
        invariant forall id :: id in keys <==> id in order[..n]
        invariant n > 0 ==> LargerAfter(localWindowStore, keys, order[n - 1])
      {
        assert order[n] in order && order[n] !in order[..n];
        keys := Inserted(keys, order[n]);
        assert order[..n + 1] == order[..n] + [order[n]];
      }
      AllKeys(localWindowStore, order, keys);
    }

    /** The first loop of the pruning pass, over the entries in their order. */
    method DropExpired(now: int)
      requires Ordered(localWindowStore, order)
      modifies this`localWindowStore, this`order
      ensures localWindowStore == Live(old(localWindowStore), now) && Ordered(localWindowStore, order)
      ensures forall id | IsNewest(old(order), id) && id in localWindowStore :: IsNewest(order, id)
    {
      var entries := order;
      for n := 0 to |entries|
        invariant Ordered(localWindowStore, order)
        invariant localWindowStore == Unexpired(old(localWindowStore), entries[..n], now)
        invariant forall id | IsNewest(entries, id) && id in localWindowStore :: IsNewest(order, id)
      {
        OneMoreVisited(old(localWindowStore), entries, n, now);
        if localWindowStore[entries[n]].reset <= now {
          Delete(entries[n]);
        }
      }
      AllVisited(old(localWindowStore), entries, now);
    }

    /** The second loop: delete the earliest resets until the store fits. */
    method EvictOverflow()
      requires |localWindowStore| > MAX_LOCAL_BUCKETS && Ordered(localWindowStore, order)
      modifies this`localWindowStore, this`order
      ensures Retained(old(localWindowStore), localWindowStore) && Ordered(localWindowStore, order)
      ensures |localWindowStore| == MAX_LOCAL_BUCKETS
      ensures forall id | IsNewest(old(order), id) && id !in localWindowStore ::
                LaterThan(localWindowStore, old(localWindowStore), id)
    {
      var keysByReset := KeysByReset();
      var overflow := |localWindowStore| - MAX_LOCAL_BUCKETS;
      ghost var live := localWindowStore;
      for i := 0 to overflow
        invariant localWindowStore == Without(live, keysByReset[..i]) && Ordered(localWindowStore, order)
      {
        WithoutOneMore(live, keysByReset, i);
        Delete(keysByReset[i]);
      }
      EarliestAreGone(live, keysByReset, overflow);
      forall id | IsNewest(old(order), id) && id !in localWindowStore ensures LaterThan(localWindowStore, live, id) {
        NewestGoneLast(live, keysByReset, overflow, id);
      }
    }

    method PruneLocalWindowStore(now: int)
      requires Ordered(localWindowStore, order)
      modifies this`localWindowStore, this`order
      ensures Pruned(old(localWindowStore), now, localWindowStore) && Ordered(localWindowStore, order)
      ensures forall id | IsNewest(old(order), id) && id in Live(old(localWindowStore), now) ::
                id in localWindowStore || LaterThan(localWindowStore, old(localWindowStore), id)
    {
      DropExpired(now);
      if |localWindowStore| <= MAX_LOCAL_BUCKETS {
        return;
      }
      EvictOverflow();
    }

    /** Open a window for the identifier, or count the call in the one that is open. */
    method CountCall(identifier: string, policy: Policy, now: int) returns (verdict: Verdict)
      requires Live(localWindowStore, now) == localWindowStore && Ordered(localWindowStore, order)
      modifies this`localWindowStore, this`order
      ensures localWindowStore == Touched(old(localWindowStore), Call(identifier, now), policy)
      ensures verdict == Answer(Find(old(localWindowStore), identifier), now, policy)
      ensures Ordered(localWindowStore, order)
      ensures identifier !in old(localWindowStore) ==> IsNewest(order, identifier)
    {
      var windowMs := WindowMs(policy.window);
      if identifier !in localWindowStore || localWindowStore[identifier].reset <= now {
        assert identifier !in Live(localWindowStore, now);
        var reset := now + windowMs;
        Put(identifier, Bucket(1, reset));
        verdict := Verdict(true, policy.limit, policy.limit - 1, reset);
      } else {
        var current := localWindowStore[identifier];
        current := Bucket(current.count + 1, current.reset);
        Put(identifier, current);
        verdict := Verdict(current.count <= policy.limit, policy.limit,
                           Max(policy.limit - current.count, 0), current.reset);
      }
    }

    /** Prune, count, prune again. */
    method PruneAndCount(identifier: string, policy: Policy, now: int) returns (verdict: Verdict)
      requires |localWindowStore| <= MAX_LOCAL_BUCKETS && Ordered(localWindowStore, order) && policy.Sensible()
      modifies this`localWindowStore, this`order
      ensures Step(old(localWindowStore), Call(identifier, now), policy, localWindowStore, verdict)
      ensures Ordered(localWindowStore, order)
    {
      ghost var before := localWindowStore;
      PruneLocalWindowStore(now);
      FirstPassIsLive(before, now, localWindowStore);
      verdict := CountCall(identifier, policy, now);
      ghost var touched := localWindowStore;
      PruneLocalWindowStore(now);
      SecondPassIsLast(before, Call(identifier, now), policy, touched, localWindowStore);
    }

    method GetLocalRateLimit(identifier: string, policy: Policy, now: int) returns (verdict: Verdict)
      requires Valid() && policy == policyOf(identifier)
      requires forall k | 0 <= k < |run.calls| :: run.calls[k].now <= now
      modifies this
      ensures Valid()
      ensures run.calls == old(run.calls) + [Call(identifier, now)]
      ensures run.verdicts == old(run.verdicts) + [verdict]
      ensures run.stores == old(run.stores) + [localWindowStore]
      ensures verdict.limit == policy.limit && (!verdict.success ==> verdict.remaining == 0)
    {
      StoreFits(run, policyOf);
      ghost var call := Call(identifier, now);
      verdict := PruneAndCount(identifier, policy, now);
      ExtendRun(run, policyOf, call, localWindowStore, verdict);
      run := Run(run.calls + [call], run.stores + [localWindowStore], run.verdicts + [verdict]);
    }

    /** `enforcePolicy` without Redis and without the bypasses; `later` is its second clock reading. */
    method EnforcePolicy(identifier: string, policy: Policy, now: int, later: int) returns (r: Option<Refusal>)
      requires Valid() && policy == policyOf(identifier)
      requires forall k | 0 <= k < |run.calls| :: run.calls[k].now <= now
      modifies this
      ensures Valid()
      ensures run.calls == old(run.calls) + [Call(identifier, now)]
      ensures var verdict := run.verdicts[|run.calls| - 1];
              r == if verdict.success then None
                   else Some(Refusal(RetryAfterSeconds(verdict.reset, later), policy.limit, 0, verdict.reset))
    {
      var verdict := GetLocalRateLimit(identifier, policy, now);
      if verdict.success {
        return None;
      }
      var retryAfterSeconds := Max(1, CeilDiv(verdict.reset - later, 1_000));
      return Some(Refusal(retryAfterSeconds, verdict.limit, verdict.remaining, verdict.reset));
    }
  }

  /** All that is left resets strictly later than `id` did. */
  ghost predicate LaterThan(left: Store, store: Store, id: string) {
    id in store && forall kept | kept in left :: store[id].reset < left[kept].reset
  }

  lemma {:induction false} AllKeys(store: Store, order: seq<string>, keys: seq<string>)
    requires Ordered(store, order) && Sorted(store, keys) && |keys| == |order|
    requires forall id :: id in keys <==> id in order[..|order|]
    ensures ByReset(store, keys)
  {
    assert order[..|order|] == order;
    DistinctSize(keys);
    assert (set id | id in keys) == store.Keys;
  }

  lemma {:induction false} DistinctSize(keys: seq<string>)
    requires forall i, j | 0 <= i < j < |keys| :: keys[i] != keys[j]
    ensures |(set id | id in keys)| == |keys|
  {
    if keys != [] {
      var before, last := keys[..|keys| - 1], keys[|keys| - 1];
      DistinctSize(before);
      assert keys == before + [last];
      assert (set id | id in keys) == (set id | id in before) + {last};
    }
  }

  /** The second pass evicts the bucket the call opened only after all that reset no later. */
  lemma SecondPassIsLast(before: Store, call: Call, policy: Policy, touched: Store, after: Store)
    requires |before| <= MAX_LOCAL_BUCKETS && policy.Sensible() && touched == Touched(before, call, policy)
    requires Pruned(touched, call.now, after)
    requires call.id !in Live(before, call.now) && call.id in Live(touched, call.now) && call.id !in after
             ==> LaterThan(after, touched, call.id)
    ensures NewestGoesLast(before, call, policy, after)
  {
    TouchedIsLive(before, call, policy);
    if call.id !in Live(before, call.now) && call.id !in after {
      NewestGoes(before, call, policy, after);
    }
  }

  lemma FirstPassIsLive(before: Store, now: int, after: Store)
    requires |before| <= MAX_LOCAL_BUCKETS && Pruned(before, now, after)
    ensures after == Live(before, now) && Live(after, now) == after
  {
    SubsetSize(Live(before, now).Keys, before.Keys);
    PrunedIsLive(before, now, after);
  }

  lemma StoreFits(run: Run, policyOf: string -> Policy)
    requires IsRun(run, policyOf)
    ensures |run.stores[|run.calls|]| <= MAX_LOCAL_BUCKETS
  {
    if |run.calls| > 0 {
      CapacityAndEviction(run, policyOf, |run.calls| - 1);
    }
  }

  lemma ExtendRun(run: Run, policyOf: string -> Policy, call: Call, after: Store, verdict: Verdict)
    requires IsRun(run, policyOf)
    requires forall k | 0 <= k < |run.calls| :: run.calls[k].now <= call.now
    requires Step(run.stores[|run.calls|], call, policyOf(call.id), after, verdict)
    ensures IsRun(Run(run.calls + [call], run.stores + [after], run.verdicts + [verdict]), policyOf)
  {
    var longer := Run(run.calls + [call], run.stores + [after], run.verdicts + [verdict]);
    forall i | 0 <= i < |longer.calls| ensures StepAt(longer, policyOf, i) {
      if i < |run.calls| { assert StepAt(run, policyOf, i); }
    }
  }
}
