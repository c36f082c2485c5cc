/**
 Runs of the bounded in-memory store of lib/rate-limit.ts.

 A run is a list of calls with the store after each of them. A step is a relation: when several
 older buckets share the smallest reset, any of them may be the one evicted, so what is proved
 here holds for every way of breaking such ties. The bucket that was just opened goes last,
 because the sort is stable and a Map iterates in the order of insertion.
 */
module LocalStore {
  import opened Common
  import opened FixedWindow

  type Store = map<string, Bucket>

  const MAX_LOCAL_BUCKETS: nat := 10_000

  datatype Call = Call(id: string, now: int)

  /** `stores[i]` is the store before `calls[i]`, and `verdicts[i]` the answer to it. */
  datatype Run = Run(calls: seq<Call>, stores: seq<Store>, verdicts: seq<Verdict>)

  function Find(store: Store, id: string): Option<Bucket> {
    if id in store then Some(store[id]) else None
  }

  function Live(store: Store, now: int): Store {
    map id | id in store && store[id].reset > now :: store[id]
  }

  /** Buckets may have gone, no bucket changed, and the resets that went are the earliest. */
  ghost predicate Retained(live: Store, after: Store) {
    && after.Keys <= live.Keys
    && (forall id | id in after :: after[id] == live[id])
    && (forall gone, kept | gone in live && gone !in after && kept in after ::
          live[gone].reset <= live[kept].reset)
  }

  /** What one pruning pass promises: what has expired goes, then the overflow. */
  ghost predicate Pruned(before: Store, now: int, after: Store) {
    && Retained(Live(before, now), after)
    && |after| == Min(|Live(before, now)|, MAX_LOCAL_BUCKETS)
  }

  /** The store once the call is counted and before it is pruned again. */
  function Touched(before: Store, call: Call, policy: Policy): Store {
    var live := Live(before, call.now);
    live[call.id := Counted(Find(live, call.id), call.now, policy)]
  }

  ghost predicate Step(before: Store, call: Call, policy: Policy, after: Store, verdict: Verdict) {
    && verdict == Answer(Find(Live(before, call.now), call.id), call.now, policy)
    && Pruned(Touched(before, call, policy), call.now, after)
    && NewestGoesLast(before, call, policy, after)
  }

  /** A bucket that was just opened is evicted only if all the others reset strictly later. */
  ghost predicate NewestGoesLast(before: Store, call: Call, policy: Policy, after: Store) {
    call.id in Live(before, call.now) || call.id in after || OutlastedByAll(before, call, policy)
  }

  ghost predicate OutlastedByAll(before: Store, call: Call, policy: Policy) {
    forall id | id in Live(before, call.now) :: before[id].reset > call.now + policy.Ms()
  }

  ghost predicate IsRun(run: Run, policyOf: string -> Policy) {
    && |run.stores| == |run.calls| + 1 && |run.verdicts| == |run.calls|
    && run.stores[0] == map[]
    && (forall i, j | 0 <= i <= j < |run.calls| :: run.calls[i].now <= run.calls[j].now)
    && (forall i | 0 <= i < |run.calls| :: StepAt(run, policyOf, i))
    && (forall id: string :: policyOf(id).Sensible())
  }

  ghost predicate StepAt(run: Run, policyOf: string -> Policy, i: nat)
    requires i < |run.calls| && |run.stores| == |run.calls| + 1 && |run.verdicts| == |run.calls|
  {
    Step(run.stores[i], run.calls[i], policyOf(run.calls[i].id), run.stores[i + 1], run.verdicts[i])
  }

  // ------------------------------------------------------- capacity and eviction

  lemma SubsetSize<T>(a: set<T>, b: set<T>)
    requires a <= b
    ensures |a| <= |b| && |b - a| == |b| - |a|
  {
    assert b == a + (b - a);
  }

  lemma SameSizeSubset<T>(a: set<T>, b: set<T>)
    requires a <= b && |a| == |b|
    ensures a == b
  {
    SubsetSize(a, b);
  }

  /** A pass over a store that fits is exactly the removal of what has expired. */
  lemma PrunedIsLive(before: Store, now: int, after: Store)
    requires Pruned(before, now, after) && |Live(before, now)| <= MAX_LOCAL_BUCKETS
    ensures after == Live(before, now)
  {
    var live := Live(before, now);
    SameSizeSubset(after.Keys, live.Keys);
  }

  /** Everything in a store that was just touched is live. */
  lemma TouchedIsLive(before: Store, call: Call, policy: Policy)
    requires policy.Sensible()
    ensures Live(Touched(before, call, policy), call.now) == Touched(before, call, policy)
  {
  }

  ghost function Evicted(before: Store, call: Call, policy: Policy, after: Store): set<string> {
    Touched(before, call, policy).Keys - after.Keys
  }

  /** A call adds at most one bucket to the live ones. */
  lemma TouchedSize(before: Store, call: Call, policy: Policy)
    ensures |Touched(before, call, policy)| <= |before| + 1
  {
    var live := Live(before, call.now);
    SubsetSize(live.Keys, before.Keys);
    assert Touched(before, call, policy).Keys == live.Keys + {call.id};
  }

  /** One call on a store within its cap. */
  lemma StepCapacity(before: Store, call: Call, policy: Policy, after: Store, verdict: Verdict)
    requires Step(before, call, policy, after, verdict) && policy.Sensible()
    requires |before| <= MAX_LOCAL_BUCKETS
    ensures |after| <= MAX_LOCAL_BUCKETS && Live(after, call.now) == after
    ensures |Evicted(before, call, policy, after)|
         == if |Touched(before, call, policy)| > MAX_LOCAL_BUCKETS then 1 else 0
    ensures forall gone, kept | gone in Evicted(before, call, policy, after) && kept in after ::
              Touched(before, call, policy)[gone].reset <= after[kept].reset
  {
    var touched := Touched(before, call, policy);
    TouchedIsLive(before, call, policy);
    TouchedSize(before, call, policy);
    SubsetSize(after.Keys, touched.Keys);
  }

  /**
   After every call the store is within its cap and holds live buckets only. A call evicts
   at most one live bucket, only when the store is over the cap, and the evicted reset is
   no later than any that stays.
   */
  lemma {:induction false} CapacityAndEviction(run: Run, policyOf: string -> Policy, i: nat)
    requires IsRun(run, policyOf) && i < |run.calls|
    ensures |run.stores[i]| <= 10_000 && |run.stores[i + 1]| <= 10_000
    ensures Live(run.stores[i + 1], run.calls[i].now) == run.stores[i + 1]
    ensures var (before, call, after) := (run.stores[i], run.calls[i], run.stores[i + 1]);
            var policy := policyOf(call.id);
            && |Evicted(before, call, policy, after)|
               == (if |Touched(before, call, policy)| > 10_000 then 1 else 0)
            && (forall gone, kept | gone in Evicted(before, call, policy, after) && kept in after ::
                  Touched(before, call, policy)[gone].reset <= after[kept].reset)
  {
    if i > 0 { CapacityAndEviction(run, policyOf, i - 1); }
    assert StepAt(run, policyOf, i);
    StepCapacity(run.stores[i], run.calls[i], policyOf(run.calls[i].id), run.stores[i + 1], run.verdicts[i]);
  }

  /**
   When the store is full of other callers' live buckets, a new caller is admitted and its own
   bucket may be the one evicted, leaving no trace of the call: exactly if all the others reset
   strictly later.
   */
  lemma NewcomerInAFullStore(before: Store, call: Call, policy: Policy, after: Store, verdict: Verdict)
    requires Step(before, call, policy, after, verdict) && policy.Sensible()
    requires call.id !in Live(before, call.now) && |Live(before, call.now)| == MAX_LOCAL_BUCKETS
    ensures verdict.success
    ensures call.id !in after <==> forall id | id in Live(before, call.now) :: before[id].reset > call.now + policy.Ms()
    ensures call.id !in after ==> after == Live(before, call.now)
  {
    if call.id in after {
      NewcomerStays(before, call, policy, after, verdict);
    } else {
      NewcomerGoes(before, call, policy, after, verdict);
    }
  }

  /** The store is full, and all its buckets outlast the window this call would open. */
  ghost predicate CrowdedOut(before: Store, call: Call, policy: Policy) {
    |Live(before, call.now)| == MAX_LOCAL_BUCKETS && OutlastedByAll(before, call, policy)
  }

  lemma NewcomerStays(before: Store, call: Call, policy: Policy, after: Store, verdict: Verdict)
    requires Step(before, call, policy, after, verdict) && policy.Sensible() && call.id in after
    requires call.id !in Live(before, call.now) && |Live(before, call.now)| == MAX_LOCAL_BUCKETS
    ensures exists id | id in Live(before, call.now) :: before[id].reset <= call.now + policy.Ms()
  {
    var live, touched := Live(before, call.now), Touched(before, call, policy);
    TouchedIsLive(before, call, policy);
    assert touched.Keys == live.Keys + {call.id};
    SubsetSize(after.Keys, touched.Keys);
    assert |touched.Keys - after.Keys| == 1;
    var gone :| gone in touched.Keys - after.Keys;
    assert gone in live && before[gone].reset <= call.now + policy.Ms();
  }

  lemma NewcomerGoes(before: Store, call: Call, policy: Policy, after: Store, verdict: Verdict)
    requires Step(before, call, policy, after, verdict) && policy.Sensible() && call.id !in after
    requires call.id !in Live(before, call.now) && |Live(before, call.now)| == MAX_LOCAL_BUCKETS
    ensures after == Live(before, call.now) && OutlastedByAll(before, call, policy)
  {
    var live, touched := Live(before, call.now), Touched(before, call, policy);
    TouchedIsLive(before, call, policy);
    assert touched.Keys == live.Keys + {call.id};
    SameSizeSubset(after.Keys, live.Keys);
  }

  /** If call `i` is one of `id`, the store is crowded then. */
  /** If the bucket just opened goes when the store is pruned, and all that stay reset later, it goes last. */
  lemma NewestGoes(before: Store, call: Call, policy: Policy, after: Store)
    requires policy.Sensible() && |before| <= MAX_LOCAL_BUCKETS
    requires Pruned(Touched(before, call, policy), call.now, after)
    requires call.id !in Live(before, call.now) && call.id !in after
    requires forall kept | kept in after :: after[kept].reset > call.now + policy.Ms()
    ensures OutlastedByAll(before, call, policy)
  {
    var live, touched := Live(before, call.now), Touched(before, call, policy);
    TouchedIsLive(before, call, policy);
    SubsetSize(live.Keys, before.Keys);
    assert touched.Keys == live.Keys + {call.id};
    if |touched| <= MAX_LOCAL_BUCKETS {
      PrunedIsLive(touched, call.now, after);
    }
    SameSizeSubset(after.Keys, live.Keys);
  }

  ghost predicate CrowdedOutAt(run: Run, policyOf: string -> Policy, id: string, i: nat)
    requires i < |run.calls| && |run.stores| == |run.calls| + 1
  {
    run.calls[i].id == id ==> CrowdedOut(run.stores[i], run.calls[i], policyOf(id))
  }

  /** If call `i` is one of `id`, it is admitted like a first one. */
  ghost predicate AdmittedAnew(run: Run, policyOf: string -> Policy, id: string, i: nat)
    requires i < |run.calls| == |run.verdicts|
  {
    run.calls[i].id == id ==>
      run.verdicts[i].success && run.verdicts[i] == Answer(None, run.calls[i].now, policyOf(id))
  }

  /**
   As long as the store is crowded whenever it calls, a caller without a bucket is never
   counted: each of its calls, however many and however soon, is admitted like a first one.
   */
  lemma {:induction false} CrowdedOutIsUnlimited(run: Run, policyOf: string -> Policy, id: string, m: nat, n: nat)
    requires IsRun(run, policyOf) && m <= n <= |run.calls| && id !in run.stores[m]
    requires forall i | m <= i < n :: CrowdedOutAt(run, policyOf, id, i)
    ensures id !in run.stores[n]
    ensures forall i | m <= i < n :: AdmittedAnew(run, policyOf, id, i)
    decreases n
  {
    if m < n {
      CrowdedOutIsUnlimited(run, policyOf, id, m, n - 1);
      UncountedAt(run, policyOf, id, n - 1);
    }
  }

  lemma UncountedAt(run: Run, policyOf: string -> Policy, id: string, i: nat)
    requires IsRun(run, policyOf) && i < |run.calls| && id !in run.stores[i] && CrowdedOutAt(run, policyOf, id, i)
    ensures id !in run.stores[i + 1] && AdmittedAnew(run, policyOf, id, i)
  {
    assert StepAt(run, policyOf, i);
    UncountedCall(run.stores[i], run.calls[i], policyOf(run.calls[i].id), run.stores[i + 1], run.verdicts[i], id);
  }

  lemma UncountedCall(before: Store, call: Call, policy: Policy, after: Store, verdict: Verdict, id: string)
    requires Step(before, call, policy, after, verdict) && policy.Sensible() && id !in before
    requires call.id == id ==> CrowdedOut(before, call, policy)
    ensures id !in after
    ensures call.id == id ==> verdict == Answer(None, call.now, policy)
  {
    if call.id == id { NewcomerInAFullStore(before, call, policy, after, verdict); }
  }

  // ------------------------------------------------ agreement with the plain counter

  /** The times at which one identifier called. */
  function TimesOf(calls: seq<Call>, id: string): seq<int> {
    if calls == [] then []
    else
      var earlier, last := TimesOf(calls[..|calls| - 1], id), calls[|calls| - 1];
      if last.id == id then earlier + [last.now] else earlier
  }

  /** The identifier's bucket was never evicted while live by the first `n` calls. */
  ghost predicate NeverEvicted(run: Run, policyOf: string -> Policy, id: string, n: nat)
    requires IsRun(run, policyOf) && n <= |run.calls|
  {
    forall i | 0 <= i < n ::
      id in Touched(run.stores[i], run.calls[i], policyOf(run.calls[i].id)) ==> id in run.stores[i + 1]
  }

  /** One call, as the bucket of some identifier sees it at a later instant `t`. */
  lemma StepOnOneBucket(before: Store, call: Call, policy: Policy, after: Store, verdict: Verdict, id: string, t: int)
    requires Step(before, call, policy, after, verdict) && policy.Sensible() && call.now <= t
    requires id in Touched(before, call, policy) ==> id in after
    ensures var seen := IfLive(Find(before, id), call.now);
            IfLive(Find(after, id), t)
            == IfLive(if id == call.id then Some(Counted(seen, call.now, policy)) else seen, t)
  {
    TouchedIsLive(before, call, policy);
    assert Find(Touched(before, call, policy), id) == Find(after, id);
  }

  lemma RunOnOneBucket(run: Run, policyOf: string -> Policy, i: nat, id: string, t: int)
    requires IsRun(run, policyOf) && i < |run.calls| && NeverEvicted(run, policyOf, id, i + 1)
    requires run.calls[i].now <= t
    ensures NeverEvicted(run, policyOf, id, i)
    ensures var call, seen := run.calls[i], IfLive(Find(run.stores[i], id), run.calls[i].now);
            IfLive(Find(run.stores[i + 1], id), t)
            == IfLive(if id == call.id then Some(Counted(seen, call.now, policyOf(id))) else seen, t)
  {
    var call := run.calls[i];
    assert StepAt(run, policyOf, i);
    StepOnOneBucket(run.stores[i], call, policyOf(call.id), run.stores[i + 1], run.verdicts[i], id, t);
  }

  lemma TimesOfOneMore(calls: seq<Call>, n: nat, id: string)
    requires n < |calls|
    ensures TimesOf(calls[..n + 1], id)
         == if calls[n].id == id then TimesOf(calls[..n], id) + [calls[n].now] else TimesOf(calls[..n], id)
  {
    assert calls[..n + 1][..n] == calls[..n];
  }

  lemma SoloOneMore(times: seq<int>, now: int, policy: Policy)
    ensures Solo(times + [now], policy) == Some(Counted(IfLive(Solo(times, policy), now), now, policy))
  {
    assert (times + [now])[..|times|] == times;
  }

  /** As long as its bucket is not evicted, the store holds an identifier's plain counter. */
  lemma {:induction false} StoreHoldsTheCounter(run: Run, policyOf: string -> Policy, id: string, n: nat, t: int)
    requires IsRun(run, policyOf) && n <= |run.calls| && NeverEvicted(run, policyOf, id, n)
    requires n > 0 ==> run.calls[n - 1].now <= t
    ensures IfLive(Find(run.stores[n], id), t)
         == IfLive(Solo(TimesOf(run.calls[..n], id), policyOf(id)), t)
  {
    if n > 0 {
      var m, call := n - 1, run.calls[n - 1];
      RunOnOneBucket(run, policyOf, m, id, t);
      StoreHoldsTheCounter(run, policyOf, id, m, call.now);
      TimesOfOneMore(run.calls, m, id);
      SoloOneMore(TimesOf(run.calls[..m], id), call.now, policyOf(id));
    }
  }

  /**
   Isolation. Until its bucket is evicted, an identifier gets exactly the answers of a
   counter that sees its own calls alone: success, remaining and reset.
   */
  lemma CallersAreIsolated(run: Run, policyOf: string -> Policy, i: nat)
    requires IsRun(run, policyOf) && i < |run.calls|
    requires NeverEvicted(run, policyOf, run.calls[i].id, i)
    ensures run.verdicts[i] == SoloVerdict(TimesOf(run.calls[..i], run.calls[i].id), run.calls[i].now,
                                           policyOf(run.calls[i].id))
  {
    var call := run.calls[i];
    StoreHoldsTheCounter(run, policyOf, call.id, i, call.now);
    assert StepAt(run, policyOf, i);
    assert Find(Live(run.stores[i], call.now), call.id) == IfLive(Find(run.stores[i], call.id), call.now);
  }

  /** The identifiers whose plain counter has a window open at `now`. */
  ghost function OpenWindows(calls: seq<Call>, policyOf: string -> Policy, now: int): set<string> {
    set call | call in calls && IfLive(Solo(TimesOf(calls, call.id), policyOf(call.id)), now).Some? :: call.id
  }

  /** No more than 10,000 windows are open once call `i` is counted. */
  ghost predicate FitsAt(run: Run, policyOf: string -> Policy, i: nat)
    requires i < |run.calls|
  {
    |OpenWindows(run.calls[..i + 1], policyOf, run.calls[i].now)| <= MAX_LOCAL_BUCKETS
  }

  ghost predicate NeverOverfull(run: Run, policyOf: string -> Policy) {
    forall i | 0 <= i < |run.calls| :: FitsAt(run, policyOf, i)
  }

  lemma {:induction false} CallersAppear(calls: seq<Call>, id: string)
    requires TimesOf(calls, id) != []
    ensures exists call | call in calls :: call.id == id
  {
    var last := calls[|calls| - 1];
    assert last in calls;
    if last.id != id {
      CallersAppear(calls[..|calls| - 1], id);
      var call :| call in calls[..|calls| - 1] && call.id == id;
      assert call in calls;
    }
  }

  lemma TouchedIsOpen(run: Run, policyOf: string -> Policy, n: nat, id: string)
    requires IsRun(run, policyOf) && n < |run.calls| && NeverEvicted(run, policyOf, id, n)
    requires id in Touched(run.stores[n], run.calls[n], policyOf(run.calls[n].id))
    ensures TimesOf(run.calls[..n + 1], id) != []
    ensures IfLive(Solo(TimesOf(run.calls[..n + 1], id), policyOf(id)), run.calls[n].now).Some?
  {
    var call := run.calls[n];
    StoreHoldsTheCounter(run, policyOf, id, n, call.now);
    TimesOfOneMore(run.calls, n, id);
    if id == call.id {
      SoloOneMore(TimesOf(run.calls[..n], id), call.now, policyOf(id));
      assert policyOf(id).Sensible();
    } else {
      assert id in Live(run.stores[n], call.now);
    }
  }

  /** The store just after a call, before pruning, holds open windows only. */
  lemma TouchedWithinOpenWindows(run: Run, policyOf: string -> Policy, n: nat, id: string)
    requires IsRun(run, policyOf) && n < |run.calls| && NeverEvicted(run, policyOf, id, n)
    requires id in Touched(run.stores[n], run.calls[n], policyOf(run.calls[n].id))
    ensures id in OpenWindows(run.calls[..n + 1], policyOf, run.calls[n].now)
  {
    TouchedIsOpen(run, policyOf, n, id);
    CallersAppear(run.calls[..n + 1], id);
  }

  function TouchedAt(run: Run, policyOf: string -> Policy, i: nat): Store
    requires i < |run.calls| && i < |run.stores|
  {
    Touched(run.stores[i], run.calls[i], policyOf(run.calls[i].id))
  }

  /** Call `i` evicts nothing at all. */
  ghost predicate KeepsAll(run: Run, policyOf: string -> Policy, i: nat)
    requires i < |run.calls| && |run.stores| == |run.calls| + 1
  {
    TouchedAt(run, policyOf, i).Keys <= run.stores[i + 1].Keys
  }

  /** The first `n` calls evict nothing at all. */
  ghost predicate NoEvictions(run: Run, policyOf: string -> Policy, n: nat)
    requires n <= |run.calls| && |run.stores| == |run.calls| + 1
  {
    forall i | 0 <= i < n :: KeepsAll(run, policyOf, i)
  }

  lemma NoEvictionsOf(run: Run, policyOf: string -> Policy, n: nat, id: string)
    requires IsRun(run, policyOf) && n <= |run.calls| && NoEvictions(run, policyOf, n)
    ensures NeverEvicted(run, policyOf, id, n)
  {
    forall i | 0 <= i < n
      ensures id in Touched(run.stores[i], run.calls[i], policyOf(run.calls[i].id)) ==> id in run.stores[i + 1]
    {
      assert KeepsAll(run, policyOf, i);
    }
  }

  /** A call that leaves no more than 10,000 windows open evicts nothing. */
  lemma RoomForAll(run: Run, policyOf: string -> Policy, m: nat)
    requires IsRun(run, policyOf) && m < |run.calls| && NoEvictions(run, policyOf, m)
    requires FitsAt(run, policyOf, m)
    ensures KeepsAll(run, policyOf, m)
  {
    var call, touched := run.calls[m], TouchedAt(run, policyOf, m);
    var open := OpenWindows(run.calls[..m + 1], policyOf, call.now);
    forall id | id in touched ensures id in open {
      NoEvictionsOf(run, policyOf, m, id);
      TouchedWithinOpenWindows(run, policyOf, m, id);
    }
    SubsetSize(touched.Keys, open);
    assert StepAt(run, policyOf, m);
    TouchedIsLive(run.stores[m], call, policyOf(call.id));
    PrunedIsLive(touched, call.now, run.stores[m + 1]);
  }

  /** A run that never has more than 10,000 windows open evicts nothing. */
  lemma {:induction false} NothingIsEvicted(run: Run, policyOf: string -> Policy, n: nat)
    requires IsRun(run, policyOf) && n <= |run.calls| && NeverOverfull(run, policyOf)
    ensures NoEvictions(run, policyOf, n)
  {
    if n > 0 {
      NothingIsEvicted(run, policyOf, n - 1);
      NoneMoreIsEvicted(run, policyOf, n - 1);
    }
  }

  lemma NoneMoreIsEvicted(run: Run, policyOf: string -> Policy, m: nat)
    requires IsRun(run, policyOf) && m < |run.calls| && NoEvictions(run, policyOf, m)
    requires FitsAt(run, policyOf, m)
    ensures NoEvictions(run, policyOf, m + 1)
  {
    RoomForAll(run, policyOf, m);
  }

  /**
   Refinement. In a run that never has more than 10,000 windows open, pruning and the cap
   are invisible: every call gets the answer of its identifier's own unbounded counter.
   */
  lemma PruningIsInvisible(run: Run, policyOf: string -> Policy, i: nat)
    requires IsRun(run, policyOf) && NeverOverfull(run, policyOf) && i < |run.calls|
    ensures run.verdicts[i] == SoloVerdict(TimesOf(run.calls[..i], run.calls[i].id), run.calls[i].now,
                                           policyOf(run.calls[i].id))
  {
    NothingIsEvicted(run, policyOf, i);
    NoEvictionsOf(run, policyOf, i, run.calls[i].id);
    CallersAreIsolated(run, policyOf, i);
  }

  // -------------------------------------------------------------- counting in a run

  /** How many of the calls from index `from` up to `till` were admissions of `id` at an instant in [lo, hi). */
  function AdmittedIn(run: Run, id: string, from: nat, till: nat, lo: int, hi: int): nat
    requires from <= till <= |run.calls| && |run.verdicts| == |run.calls|
    decreases till
  {
    if from == till then 0
    else
      AdmittedIn(run, id, from, till - 1, lo, hi)
      + if run.calls[till - 1].id == id && run.verdicts[till - 1].success && lo <= run.calls[till - 1].now < hi
        then 1 else 0
  }

  /** Where a bucket after a call comes from, and what the call itself was told. */
  lemma RunBucketOrigin(run: Run, policyOf: string -> Policy, m: nat, id: string)
    requires IsRun(run, policyOf) && m < |run.calls| && id in run.stores[m + 1]
    ensures var call, seen := run.calls[m], IfLive(Find(run.stores[m], id), run.calls[m].now);
            && (id == call.id ==> run.stores[m + 1][id] == Counted(seen, call.now, policyOf(id)))
            && (id != call.id ==> Some(run.stores[m + 1][id]) == seen)
            && (id == call.id ==> run.verdicts[m] == Answer(seen, call.now, policyOf(id)))
            && policyOf(id).Sensible()
            && run.stores[m + 1][id].reset > call.now
  {
    assert StepAt(run, policyOf, m);
    var call := run.calls[m];
    TouchedIsLive(run.stores[m], call, policyOf(call.id));
    assert id in Touched(run.stores[m], call, policyOf(call.id));
  }

  lemma ClockIsMonotone(run: Run, policyOf: string -> Policy, i: nat, j: nat)
    requires IsRun(run, policyOf) && i <= j < |run.calls|
    ensures run.calls[i].now <= run.calls[j].now
  {
  }

  /**
   Every bucket in the store was opened by an admitted call of its own identifier, and since
   that call exactly min(count, limit) calls of the identifier were admitted.
   */
  lemma {:induction false} BucketHistory(run: Run, policyOf: string -> Policy, n: nat, id: string) returns (j: nat)
    requires IsRun(run, policyOf) && n <= |run.calls| && id in run.stores[n]
    ensures j < n && run.calls[j].id == id && run.verdicts[j].success
    ensures run.stores[n][id].reset == run.calls[j].now + policyOf(id).Ms()
    ensures 1 <= run.stores[n][id].count
    ensures AdmittedIn(run, id, j, n, run.calls[j].now, run.stores[n][id].reset)
         == Min(run.stores[n][id].count, policyOf(id).limit)
  {
    var m, call := n - 1, run.calls[n - 1];
    RunBucketOrigin(run, policyOf, m, id);
    if IfLive(Find(run.stores[m], id), call.now).Some? {
      j := BucketHistory(run, policyOf, m, id);
      ClockIsMonotone(run, policyOf, j, m);
    } else {
      j := m;
      assert AdmittedIn(run, id, j, m, call.now, run.stores[n][id].reset) == 0;
    }
  }

  /**
   Refusals are justified, evictions or not: a refused call comes less than a window after an
   admitted call of the same identifier that opened the window, and exactly `limit` calls of
   the identifier have been admitted since that one.
   */
  lemma RefusalsAreJustified(run: Run, policyOf: string -> Policy, i: nat) returns (j: nat)
    requires IsRun(run, policyOf) && i < |run.calls| && !run.verdicts[i].success
    ensures j < i && run.calls[j].id == run.calls[i].id && run.verdicts[j].success
    ensures run.calls[j].now <= run.calls[i].now < run.calls[j].now + policyOf(run.calls[i].id).Ms()
    ensures run.verdicts[i].reset == run.calls[j].now + policyOf(run.calls[i].id).Ms()
    ensures AdmittedIn(run, run.calls[i].id, j, i, run.calls[j].now, run.verdicts[i].reset)
         == policyOf(run.calls[i].id).limit
    ensures run.verdicts[i].remaining == 0
  {
    assert StepAt(run, policyOf, i);
    j := BucketHistory(run, policyOf, i, run.calls[i].id);
  }

  /**
   An admitted call whose bucket stays is told how many more its window admits: the limit less
   the admissions of its identifier since the call that opened the window, itself included.
   */
  lemma RemainingCountsDown(run: Run, policyOf: string -> Policy, i: nat) returns (j: nat)
    requires IsRun(run, policyOf) && i < |run.calls| && run.verdicts[i].success
    requires run.calls[i].id in run.stores[i + 1]
    ensures j <= i && run.calls[j].id == run.calls[i].id && run.verdicts[j].success
    ensures run.verdicts[i].reset == run.calls[j].now + policyOf(run.calls[i].id).Ms() > run.calls[i].now
    ensures run.verdicts[i].remaining == policyOf(run.calls[i].id).limit
              - AdmittedIn(run, run.calls[i].id, j, i + 1, run.calls[j].now, run.verdicts[i].reset)
  {
    RunBucketOrigin(run, policyOf, i, run.calls[i].id);
    j := BucketHistory(run, policyOf, i + 1, run.calls[i].id);
  }

  // ------------------------------------------------------- bursts, evictions or not

  /** Call `i` evicts the identifier's bucket. */
  predicate EvictedAt(run: Run, policyOf: string -> Policy, id: string, i: nat)
    requires i < |run.calls| && |run.stores| == |run.calls| + 1
  {
    id in TouchedAt(run, policyOf, i) && id !in run.stores[i + 1]
  }

  /** How often the first `n` calls evicted the identifier's bucket at an instant in [lo, hi). */
  function EvictionsIn(run: Run, policyOf: string -> Policy, id: string, n: nat, lo: int, hi: int): nat
    requires n <= |run.calls| && |run.stores| == |run.calls| + 1
  {
    if n == 0 then 0
    else
      EvictionsIn(run, policyOf, id, n - 1, lo, hi)
      + if EvictedAt(run, policyOf, id, n - 1) && lo <= run.calls[n - 1].now < hi then 1 else 0
  }

  /** What may have been admitted since `lo`, less than a window later, going by the bucket alone. */
  function Allowance(b: Option<Bucket>, policy: Policy, lo: int): int {
    match b
    case None => policy.limit - 1
    case Some(b) => Min(b.count, policy.limit) - 1 + if b.reset - policy.Ms() < lo then 0 else policy.limit
  }

  /** A call admitted in that time uses up some of it, and an eviction grants another limit. */
  lemma AllowanceOfOneCall(b: Option<Bucket>, policy: Policy, lo: int, now: int)
    requires policy.Sensible() && lo <= now < lo + policy.Ms()
    ensures var seen := IfLive(b, now);
            && Allowance(b, policy, lo) <= Allowance(seen, policy, lo)
            && Allowance(seen, policy, lo) + (if Answer(seen, now, policy).success then 1 else 0)
               <= Allowance(Some(Counted(seen, now, policy)), policy, lo)
  {
  }

  lemma AllowanceIsBounded(b: Option<Bucket>, policy: Policy, lo: int)
    requires policy.Sensible()
    ensures Allowance(b, policy, lo) <= 2 * policy.limit - 1 == policy.limit + Allowance(None, policy, lo)
  {
  }

  lemma AllowanceInARun(run: Run, policyOf: string -> Policy, id: string, m: nat, lo: int)
    requires IsRun(run, policyOf) && m < |run.calls|
    requires policyOf(id).Sensible() && lo <= run.calls[m].now < lo + policyOf(id).Ms()
    ensures Allowance(Find(run.stores[m], id), policyOf(id), lo)
            + (if run.calls[m].id == id && run.verdicts[m].success then 1 else 0)
         <= Allowance(Find(run.stores[m + 1], id), policyOf(id), lo)
            + (if EvictedAt(run, policyOf, id, m) then policyOf(id).limit else 0)
  {
    var call, policy := run.calls[m], policyOf(id);
    var seen := IfLive(Find(run.stores[m], id), call.now);
    AllowanceOfOneCall(Find(run.stores[m], id), policy, lo, call.now);
    AllowanceIsBounded(Find(TouchedAt(run, policyOf, m), id), policy, lo);
    assert StepAt(run, policyOf, m);
    assert Find(Live(run.stores[m], call.now), id) == seen;
    assert Find(TouchedAt(run, policyOf, m), id)
        == if id == call.id then Some(Counted(seen, call.now, policy)) else seen;
    TouchedIsLive(run.stores[m], call, policyOf(call.id));
  }

  lemma {:induction false} NoneAdmittedBefore(run: Run, policyOf: string -> Policy, id: string, n: nat,
                                              lo: int, hi: int)
    requires IsRun(run, policyOf) && n <= |run.calls| && (n > 0 ==> run.calls[n - 1].now < lo)
    ensures AdmittedIn(run, id, 0, n, lo, hi) == 0
  {
    if n > 0 {
      if n > 1 { ClockIsMonotone(run, policyOf, n - 2, n - 1); }
      NoneAdmittedBefore(run, policyOf, id, n - 1, lo, hi);
    }
  }

  lemma AllowanceIsNonnegative(run: Run, policyOf: string -> Policy, id: string, n: nat, lo: int)
    requires IsRun(run, policyOf) && n <= |run.calls| && policyOf(id).Sensible()
    ensures 0 <= Allowance(Find(run.stores[n], id), policyOf(id), lo)
  {
    if id in run.stores[n] {
      var j := BucketHistory(run, policyOf, n, id);
    }
  }

  lemma {:induction false} AdmittedWithinAllowance(run: Run, policyOf: string -> Policy, id: string, n: nat, lo: int)
    requires IsRun(run, policyOf) && n <= |run.calls| && policyOf(id).Sensible()
    requires n > 0 ==> run.calls[n - 1].now < lo + policyOf(id).Ms()
    ensures AdmittedIn(run, id, 0, n, lo, lo + policyOf(id).Ms())
         <= policyOf(id).limit * EvictionsIn(run, policyOf, id, n, lo, lo + policyOf(id).Ms())
            + Allowance(Find(run.stores[n], id), policyOf(id), lo)
  {
    var hi := lo + policyOf(id).Ms();
    if n == 0 || run.calls[n - 1].now < lo {
      NoneAdmittedBefore(run, policyOf, id, n, lo, hi);
      AllowanceIsNonnegative(run, policyOf, id, n, lo);
    } else {
      if n > 1 { ClockIsMonotone(run, policyOf, n - 2, n - 1); }
      AdmittedWithinAllowance(run, policyOf, id, n - 1, lo);
      AllowanceInARun(run, policyOf, id, n - 1, lo);
      OneMoreTimes(policyOf(id).limit, EvictionsIn(run, policyOf, id, n - 1, lo, hi));
    }
  }

  lemma OneMoreTimes(a: int, b: int)
    ensures a * (b + 1) == a * b + a
  {
  }

  /**
   The burst bound for every run: an interval of the window's length holds at most
   2 * limit - 1 admissions of an identifier, and another `limit` for each time its bucket was
   evicted in that interval.
   */
  lemma BurstBoundOfRuns(run: Run, policyOf: string -> Policy, id: string, lo: int)
    requires IsRun(run, policyOf)
    ensures AdmittedIn(run, id, 0, |run.calls|, lo, lo + policyOf(id).Ms())
         <= 2 * policyOf(id).limit - 1
            + policyOf(id).limit * EvictionsIn(run, policyOf, id, |run.calls|, lo, lo + policyOf(id).Ms())
  {
    assert policyOf(id).Sensible();
    BurstBoundUpTo(run, policyOf, id, lo, |run.calls|);
  }

  lemma {:induction false} BurstBoundUpTo(run: Run, policyOf: string -> Policy, id: string, lo: int, n: nat)
    requires IsRun(run, policyOf) && n <= |run.calls| && policyOf(id).Sensible()
    ensures AdmittedIn(run, id, 0, n, lo, lo + policyOf(id).Ms())
         <= 2 * policyOf(id).limit - 1
            + policyOf(id).limit * EvictionsIn(run, policyOf, id, n, lo, lo + policyOf(id).Ms())
  {
    if n > 0 && run.calls[n - 1].now >= lo + policyOf(id).Ms() {
      BurstBoundUpTo(run, policyOf, id, lo, n - 1);
    } else {
      AdmittedWithinAllowance(run, policyOf, id, n, lo);
      AllowanceIsBounded(Find(run.stores[n], id), policyOf(id), lo);
    }
  }

  lemma {:induction false} NoneIsEvicted(run: Run, policyOf: string -> Policy, id: string, n: nat, lo: int, hi: int)
    requires IsRun(run, policyOf) && n <= |run.calls| && NeverEvicted(run, policyOf, id, n)
    ensures EvictionsIn(run, policyOf, id, n, lo, hi) == 0
  {
    if n > 0 { NoneIsEvicted(run, policyOf, id, n - 1, lo, hi); }
  }

  /** So without evictions a run keeps the bound of the plain counter. */
  lemma BurstBoundWithoutEvictions(run: Run, policyOf: string -> Policy, id: string, lo: int)
    requires IsRun(run, policyOf) && NeverEvicted(run, policyOf, id, |run.calls|)
    ensures AdmittedIn(run, id, 0, |run.calls|, lo, lo + policyOf(id).Ms()) <= 2 * policyOf(id).limit - 1
  {
    BurstBoundOfRuns(run, policyOf, id, lo);
    NoneIsEvicted(run, policyOf, id, |run.calls|, lo, lo + policyOf(id).Ms());
  }

  // -------------------------------------------------------------------- Retry-After

  function CeilDiv(a: int, b: int): int
    requires b > 0
  {
    (a + b - 1) / b
  }

  /** The Retry-After header of a refusal, computed at `later`. */
  function RetryAfterSeconds(reset: int, later: int): int {
    Max(1, CeilDiv(reset - later, 1_000))
  }

  /** The fewest whole seconds, and at least one, that reach the reset. */
  lemma RetryAfterIsLeast(reset: int, later: int)
    ensures RetryAfterSeconds(reset, later) >= 1 && later + 1_000 * RetryAfterSeconds(reset, later) >= reset
    ensures RetryAfterSeconds(reset, later) > 1 ==>
              later + 1_000 * (RetryAfterSeconds(reset, later) - 1) < reset
  {
  }

  /** While an identifier is quiet its bucket is either gone or unchanged. */
  lemma {:induction false} QuietBucket(run: Run, policyOf: string -> Policy, id: string, m: nat, n: nat)
    requires IsRun(run, policyOf) && m <= n <= |run.calls|
    requires forall k | m <= k < n :: run.calls[k].id != id
    ensures id in run.stores[n] ==> id in run.stores[m] && run.stores[n][id] == run.stores[m][id]
    decreases n
  {
    if m < n {
      QuietBucket(run, policyOf, id, m, n - 1);
      assert StepAt(run, policyOf, n - 1);
    }
  }

  /**
   Retry-After is sufficient: a caller that was refused, stays quiet and comes back after the
   announced number of seconds is admitted, whatever the other callers did.
   */
  lemma RetryAfterIsSufficient(run: Run, policyOf: string -> Policy, i: nat, k: nat, later: int)
    requires IsRun(run, policyOf) && i < k < |run.calls|
    requires !run.verdicts[i].success && run.calls[i].id == run.calls[k].id
    requires forall m | i < m < k :: run.calls[m].id != run.calls[i].id
    requires later + 1_000 * RetryAfterSeconds(run.verdicts[i].reset, later) <= run.calls[k].now
    ensures run.verdicts[k].success
  {
    var id := run.calls[i].id;
    assert StepAt(run, policyOf, i) && StepAt(run, policyOf, k);
    QuietBucket(run, policyOf, id, i + 1, k);
    RetryAfterIsLeast(run.verdicts[i].reset, later);
    assert id in run.stores[i + 1] ==> run.stores[i + 1][id].reset == run.verdicts[i].reset;
    assert id !in Live(run.stores[k], run.calls[k].now);
  }

  lemma OneCallOnlyFills(run: Run, policyOf: string -> Policy, id: string, m: nat)
    requires IsRun(run, policyOf) && m < |run.calls| && NeverEvicted(run, policyOf, id, m + 1)
    requires id in run.stores[m] && run.calls[m].now < run.stores[m][id].reset
    ensures id in run.stores[m + 1] && run.stores[m + 1][id].reset == run.stores[m][id].reset
    ensures run.stores[m][id].count <= run.stores[m + 1][id].count
  {
    assert StepAt(run, policyOf, m);
    assert id in Touched(run.stores[m], run.calls[m], policyOf(run.calls[m].id));
  }

  lemma {:induction false} BucketOnlyFills(run: Run, policyOf: string -> Policy, id: string, m: nat, n: nat)
    requires IsRun(run, policyOf) && m <= n < |run.calls| && NeverEvicted(run, policyOf, id, n)
    requires id in run.stores[m] && run.calls[n].now < run.stores[m][id].reset
    ensures id in run.stores[n] && run.stores[n][id].reset == run.stores[m][id].reset
    ensures run.stores[m][id].count <= run.stores[n][id].count
    decreases n
  {
    if m < n {
      ClockIsMonotone(run, policyOf, n - 1, n);
      BucketOnlyFills(run, policyOf, id, m, n - 1);
      OneCallOnlyFills(run, policyOf, id, n - 1);
    }
  }

  /**
   Retry-After is not too long either: unless its bucket is evicted, a refused caller that
   comes back before the reset, and so a second earlier than announced, is refused again.
   */
  lemma RefusedUntilTheReset(run: Run, policyOf: string -> Policy, i: nat, k: nat)
    requires IsRun(run, policyOf) && i < k < |run.calls|
    requires !run.verdicts[i].success && run.calls[i].id == run.calls[k].id
    requires NeverEvicted(run, policyOf, run.calls[i].id, k)
    requires run.calls[k].now < run.verdicts[i].reset
    ensures !run.verdicts[k].success && run.verdicts[k].reset == run.verdicts[i].reset
  {
    var id := run.calls[i].id;
    assert StepAt(run, policyOf, i) && StepAt(run, policyOf, k);
    assert id in Touched(run.stores[i], run.calls[i], policyOf(id));
    BucketOnlyFills(run, policyOf, id, i + 1, k);
  }

  // -------------------------------------------------------- a run without a limit

  function Name(i: nat): (id: string)
    ensures |id| == i + 1
  {
    seq(i + 1, _ => 'a')
  }

  function Names(k: nat): set<string> {
    set i | 0 <= i < k :: Name(i)
  }

  lemma {:induction false} NamesAreDistinct(k: nat)
    ensures |Names(k)| == k && "" !in Names(k)
    ensures Names(k + 1) == Names(k) + {Name(k)} && Name(k) !in Names(k)
  {
    assert |Name(k)| == k + 1;
    assert Name(k) !in Names(k);
    if k > 0 { NamesAreDistinct(k - 1); }
  }

  function Filled(ids: set<string>, reset: int): Store {
    map id | id in ids :: Bucket(1, reset)
  }

  /** One more caller while there is room. */
  lemma FillingStep(ids: set<string>, id: string, policy: Policy)
    requires |ids| < MAX_LOCAL_BUCKETS && id !in ids && policy.Sensible()
    ensures Step(Filled(ids, policy.Ms()), Call(id, 0), policy, Filled(ids + {id}, policy.Ms()),
                 Answer(None, 0, policy))
  {
    var before, after := Filled(ids, policy.Ms()), Filled(ids + {id}, policy.Ms());
    assert Live(before, 0) == before && Find(before, id) == None;
    assert Touched(before, Call(id, 0), policy) == after && Live(after, 0) == after;
    assert after.Keys == ids + {id};
  }

  /** One more caller when there is none. */
  lemma FloodingStep(ids: set<string>, id: string, policy: Policy, reset: int)
    requires |ids| == MAX_LOCAL_BUCKETS && id !in ids && policy.Sensible() && policy.Ms() < reset
    ensures CrowdedOut(Filled(ids, reset), Call(id, 0), policy)
    ensures Step(Filled(ids, reset), Call(id, 0), policy, Filled(ids, reset), Answer(None, 0, policy))
  {
    var full, call := Filled(ids, reset), Call(id, 0);
    assert full.Keys == ids && Live(full, 0) == full && Find(full, id) == None;
    TouchedIsLive(full, call, policy);
    assert Touched(full, call, policy).Keys == ids + {id};
    assert |Touched(full, call, policy).Keys| == MAX_LOCAL_BUCKETS + 1;
  }

  function FloodPolicy(policy: Policy, others: Policy): string -> Policy {
    id => if id == "" then policy else others
  }

  function FloodCall(k: nat): Call {
    Call(if k < MAX_LOCAL_BUCKETS then Name(k) else "", 0)
  }

  function FloodStore(k: nat, others: Policy): Store {
    Filled(Names(if k < MAX_LOCAL_BUCKETS then k else MAX_LOCAL_BUCKETS), others.Ms())
  }

  function FloodVerdict(k: nat, policy: Policy, others: Policy): (v: Verdict)
    ensures v.success
  {
    Answer(None, 0, if k < MAX_LOCAL_BUCKETS then others else policy)
  }

  /** 10,000 others fill the store at instant 0, and then "" calls `n` times. */
  function Flood(n: nat, policy: Policy, others: Policy): (run: Run)
    ensures |run.calls| == |run.verdicts| == MAX_LOCAL_BUCKETS + n && |run.stores| == |run.calls| + 1
    ensures forall k | 0 <= k < |run.calls| ::
              run.calls[k] == FloodCall(k) && run.verdicts[k] == FloodVerdict(k, policy, others)
    ensures forall k | 0 <= k < |run.stores| :: run.stores[k] == FloodStore(k, others)
  {
    var length := MAX_LOCAL_BUCKETS + n;
    Run(seq(length, k requires 0 <= k < length => FloodCall(k)),
        seq(length + 1, k requires 0 <= k <= length => FloodStore(k, others)),
        seq(length, k requires 0 <= k < length => FloodVerdict(k, policy, others)))
  }

  lemma FloodStep(k: nat, policy: Policy, others: Policy)
    requires policy.Sensible() && others.Sensible() && policy.Ms() < others.Ms()
    ensures Step(FloodStore(k, others), FloodCall(k), FloodPolicy(policy, others)(FloodCall(k).id),
                 FloodStore(k + 1, others), FloodVerdict(k, policy, others))
  {
    if k < MAX_LOCAL_BUCKETS {
      NamesAreDistinct(k);
      FillingStep(Names(k), Name(k), others);
      assert FloodStore(k + 1, others) == Filled(Names(k) + {Name(k)}, others.Ms());
    } else {
      NamesAreDistinct(MAX_LOCAL_BUCKETS);
      FloodingStep(Names(MAX_LOCAL_BUCKETS), "", policy, others.Ms());
    }
  }

  /**
   So the burst bound needs the term for evictions: whatever the limit, if other callers have a
   longer window, there is a run that admits any number of calls of one caller in one instant.
   */
  lemma NoLimitInAFullStore(n: nat, policy: Policy, others: Policy)
    requires policy.Sensible() && others.Sensible() && policy.Ms() < others.Ms()
    ensures var run := Flood(n, policy, others);
            IsRun(run, FloodPolicy(policy, others)) && AdmittedIn(run, "", 0, |run.calls|, 0, 1) == n
  {
    var run, policyOf := Flood(n, policy, others), FloodPolicy(policy, others);
    forall k | 0 <= k < |run.calls| ensures StepAt(run, policyOf, k) {
      FloodStep(k, policy, others);
    }
    assert run.stores[0] == map[];
    FloodIsAdmitted(run, n, policy, others, |run.calls|);
  }

  lemma {:induction false} FloodIsAdmitted(run: Run, n: nat, policy: Policy, others: Policy, k: nat)
    requires run == Flood(n, policy, others) && k <= |run.calls|
    ensures AdmittedIn(run, "", 0, k, 0, 1) == Max(0, k - MAX_LOCAL_BUCKETS)
  {
    if k > 0 {
      FloodIsAdmitted(run, n, policy, others, k - 1);
      assert run.calls[k - 1] == FloodCall(k - 1) && run.verdicts[k - 1] == FloodVerdict(k - 1, policy, others);
      assert |Name(k - 1)| == k;
    }
  }
}
