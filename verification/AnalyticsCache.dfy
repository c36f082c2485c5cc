/**
 The two-level cache of lib/analytics-cache.ts: a value in process memory behind a Redis key
 that expires. The setter writes memory at once and then sends a Redis command, which lands at
 any later instant, after any other calls, more than once if it is sent again, or never. Times
 are milliseconds, lifetimes seconds.
 */
module AnalyticsCache {
  import opened Common

  type Payload = string

  datatype Entry = Entry(payload: Payload, expiresAt: int)

  /**
   What happens, in order: a call of the setter up to its wait, the landing of the command of the
   setter call that is event number `call`, a read at the instant it is answered.
   */
  datatype Event =
    | SetStarts(at: int, payload: Payload, ttlSeconds: int)
    | Lands(at: int, call: nat)
    | Reads(at: int, fromRedis: bool)

  datatype Cells = Cells(memory: Option<Entry>, redis: Option<Entry>)

  /** Redis refuses a lifetime that is not positive. */
  predicate Possible(events: seq<Event>, redisConfigured: bool, i: nat)
    requires i < |events|
  {
    match events[i]
    case SetStarts(_, _, _) => true
    case Lands(_, call) => redisConfigured && call < i && events[call].SetStarts? && 0 < events[call].ttlSeconds
    case Reads(_, fromRedis) => fromRedis ==> redisConfigured
  }

  ghost predicate InOrder(events: seq<Event>) {
    forall i, j | 0 <= i <= j < |events| :: events[i].at <= events[j].at
  }

  /** Any interleaving of setter calls, landings and reads. */
  ghost predicate IsTrace(events: seq<Event>, redisConfigured: bool) {
    InOrder(events) && forall i | 0 <= i < |events| :: Possible(events, redisConfigured, i)
  }

  /** Memory counts the lifetime from the setter's clock reading, Redis from the landing. */
  function EntryFrom(call: Event, start: int): Entry
    requires call.SetStarts?
  {
    Entry(call.payload, start + call.ttlSeconds * 1_000)
  }

  function Unexpired(entry: Option<Entry>, now: int): Option<Payload> {
    if entry.Some? && now < entry.value.expiresAt then Some(entry.value.payload) else None
  }

  /** A read that Redis does not answer clears what has expired. */
  function Next(events: seq<Event>, redisConfigured: bool, i: nat, cells: Cells): Cells
    requires i < |events| && Possible(events, redisConfigured, i)
  {
    match events[i]
    case SetStarts(at, _, _) => cells.(memory := Some(EntryFrom(events[i], at)))
    case Lands(at, call) => cells.(redis := Some(EntryFrom(events[call], at)))
    case Reads(at, fromRedis) =>
      if !fromRedis && Unexpired(cells.memory, at).None? then cells.(memory := None) else cells
  }

  /** The two cells after the first `n` events. */
  function After(events: seq<Event>, redisConfigured: bool, n: nat): Cells
    requires n <= |events| && IsTrace(events, redisConfigured)
  {
    if n == 0 then Cells(None, None)
    else Next(events, redisConfigured, n - 1, After(events, redisConfigured, n - 1))
  }

  /** What the read that is event number `i` gives. */
  function Answer(events: seq<Event>, redisConfigured: bool, i: nat): Option<Payload>
    requires i < |events| && events[i].Reads? && IsTrace(events, redisConfigured)
  {
    var cells := After(events, redisConfigured, i);
    Unexpired(if events[i].fromRedis then cells.redis else cells.memory, events[i].at)
  }

  // -------------------------------------------------------------- what the cells hold

  lemma {:induction false} RedisHoldsTheLastLanding(events: seq<Event>, redisConfigured: bool, n: nat)
    returns (l: nat)
    requires IsTrace(events, redisConfigured) && n <= |events| && After(events, redisConfigured, n).redis.Some?
    ensures l < n && IsLastLanding(events, l, n)
    ensures events[l].call < l && events[events[l].call].SetStarts?
    ensures After(events, redisConfigured, n).redis == Some(EntryFrom(events[events[l].call], events[l].at))
  {
    assert Possible(events, redisConfigured, n - 1);
    if events[n - 1].Lands? {
      l := n - 1;
    } else {
      l := RedisHoldsTheLastLanding(events, redisConfigured, n - 1);
    }
  }

  predicate IsLastLanding(events: seq<Event>, l: nat, n: nat)
    requires l < n <= |events|
  {
    events[l].Lands? && forall k | l < k < n :: !events[k].Lands?
  }

  predicate IsLatestSet(events: seq<Event>, s: nat, n: nat)
    requires s < n <= |events|
  {
    events[s].SetStarts? && forall k | s < k < n :: !events[k].SetStarts?
  }

  lemma {:induction false} RedisIsNotEmpty(events: seq<Event>, redisConfigured: bool, l: nat, n: nat)
    requires IsTrace(events, redisConfigured) && l < n <= |events| && events[l].Lands?
    ensures After(events, redisConfigured, n).redis.Some?
    decreases n
  {
    assert Possible(events, redisConfigured, n - 1);
    if l < n - 1 { RedisIsNotEmpty(events, redisConfigured, l, n - 1); }
  }

  lemma {:induction false} MemoryHoldsTheLatest(events: seq<Event>, redisConfigured: bool, n: nat) returns (s: nat)
    requires IsTrace(events, redisConfigured) && n <= |events| && After(events, redisConfigured, n).memory.Some?
    ensures s < n && IsLatestSet(events, s, n)
    ensures After(events, redisConfigured, n).memory == Some(EntryFrom(events[s], events[s].at))
  {
    assert Possible(events, redisConfigured, n - 1);
    if events[n - 1].SetStarts? {
      s := n - 1;
    } else {
      s := MemoryHoldsTheLatest(events, redisConfigured, n - 1);
    }
  }

  /** Reads in between do not clear what has not expired. */
  lemma {:induction false} MemoryKeepsTheLatest(events: seq<Event>, redisConfigured: bool, s: nat, n: nat)
    requires IsTrace(events, redisConfigured) && s < n <= |events| && IsLatestSet(events, s, n)
    requires events[n - 1].at < events[s].at + events[s].ttlSeconds * 1_000
    ensures After(events, redisConfigured, n).memory == Some(EntryFrom(events[s], events[s].at))
    decreases n
  {
    assert Possible(events, redisConfigured, n - 1);
    if s < n - 1 {
      assert events[n - 2].at <= events[n - 1].at;
      MemoryKeepsTheLatest(events, redisConfigured, s, n - 1);
    }
  }

  // ------------------------------------------------------------------------ theorems

  /**
   Freshness for every interleaving and every pattern of faults. A read that memory answers
   gives the latest setter call, made less than its own lifetime before. A read that Redis
   answers gives the setter call whose command landed last, less than its lifetime before.
   */
  lemma AnswersAreFresh(events: seq<Event>, redisConfigured: bool, i: nat) returns (s: nat, l: nat)
    requires IsTrace(events, redisConfigured) && i < |events| && events[i].Reads?
    requires Answer(events, redisConfigured, i).Some?
    ensures s < i && events[s].SetStarts? && Answer(events, redisConfigured, i) == Some(events[s].payload)
    ensures events[s].at <= events[i].at
    ensures if events[i].fromRedis
            then s < l < i && IsLastLanding(events, l, i) && events[l].call == s
                 && events[i].at < events[l].at + events[s].ttlSeconds * 1_000
            else IsLatestSet(events, s, i) && events[i].at < events[s].at + events[s].ttlSeconds * 1_000
  {
    if events[i].fromRedis {
      l := RedisHoldsTheLastLanding(events, redisConfigured, i);
      s := events[l].call;
    } else {
      s := MemoryHoldsTheLatest(events, redisConfigured, i);
      l := s;
    }
  }

  /**
   While the latest value lasts and differs from the earlier ones, a read that memory answers
   gives it, and a read that Redis answers gives it if and only if the command that landed last
   is its own.
   */
  lemma RedisGivesTheLatest(events: seq<Event>, redisConfigured: bool, s: nat, i: nat)
    requires IsTrace(events, redisConfigured) && s < i < |events| && events[i].Reads? && IsLatestSet(events, s, i)
    requires events[i].at < events[s].at + events[s].ttlSeconds * 1_000
    requires forall k | 0 <= k < s && events[k].SetStarts? :: events[k].payload != events[s].payload
    ensures Answer(events, redisConfigured, i) == Some(events[s].payload)
       <==> !events[i].fromRedis || exists l | s < l < i :: IsLastLanding(events, l, i) && events[l].call == s
  {
    if !events[i].fromRedis {
      assert events[i - 1].at <= events[i].at;
      MemoryKeepsTheLatest(events, redisConfigured, s, i);
    } else {
      if l :| s < l < i && IsLastLanding(events, l, i) && events[l].call == s {
        RedisIsNotEmpty(events, redisConfigured, l, i);
        assert events[s].at <= events[l].at;
      }
      if After(events, redisConfigured, i).redis.Some? {
        var last := RedisHoldsTheLastLanding(events, redisConfigured, i);
        assert forall l | s < l < i && IsLastLanding(events, l, i) :: l == last;
      }
    }
  }

  /**
   Two setter calls that overlap: if the first one's command lands last, Redis gives the older
   value, for its whole lifetime from then on.
   */
  lemma OverlapHidesTheNewerValue(older: Event, newer: Event, first: int, second: int, now: int)
    requires older.SetStarts? && newer.SetStarts? && 0 < older.ttlSeconds && 0 < newer.ttlSeconds
    requires older.at <= newer.at <= first <= second <= now < second + older.ttlSeconds * 1_000
    ensures var events := [older, newer, Lands(first, 1), Lands(second, 0), Reads(now, true)];
            IsTrace(events, true) && Answer(events, true, 4) == Some(older.payload)
  {
    var events := [older, newer, Lands(first, 1), Lands(second, 0), Reads(now, true)];
    assert IsTrace(events, true);
    RedisIsNotEmpty(events, true, 3, 4);
    var l := RedisHoldsTheLastLanding(events, true, 4);
  }

  /** A command that never lands leaves the older value in front as well. */
  lemma RedisHidesTheNewerValue(older: Event, newer: Event, landed: int, now: int)
    requires older.SetStarts? && newer.SetStarts? && 0 < older.ttlSeconds
    requires older.at <= landed <= newer.at <= now < landed + older.ttlSeconds * 1_000
    ensures var events := [older, Lands(landed, 0), newer, Reads(now, true)];
            IsTrace(events, true) && Answer(events, true, 3) == Some(older.payload)
  {
    var events := [older, Lands(landed, 0), newer, Reads(now, true)];
    assert IsTrace(events, true);
    RedisIsNotEmpty(events, true, 1, 3);
    var l := RedisHoldsTheLastLanding(events, true, 3);
  }

  // ---------------------------------------------------------------------- the object

  ghost predicate NotBefore(events: seq<Event>, now: int) {
    forall i | 0 <= i < |events| :: events[i].at <= now
  }

  lemma {:induction false} PrefixAfter(events: seq<Event>, e: Event, redisConfigured: bool, n: nat)
    requires IsTrace(events, redisConfigured) && IsTrace(events + [e], redisConfigured) && n <= |events|
    ensures After(events + [e], redisConfigured, n) == After(events, redisConfigured, n)
  {
    if n > 0 {
      PrefixAfter(events, e, redisConfigured, n - 1);
      assert Possible(events, redisConfigured, n - 1) && (events + [e])[n - 1] == events[n - 1];
    }
  }

  /** One more event. */
  lemma Extended(events: seq<Event>, e: Event, redisConfigured: bool)
    requires IsTrace(events, redisConfigured) && NotBefore(events, e.at)
    requires Possible(events + [e], redisConfigured, |events|)
    ensures IsTrace(events + [e], redisConfigured)
    ensures After(events + [e], redisConfigured, |events|) == After(events, redisConfigured, |events|)
    ensures After(events + [e], redisConfigured, |events| + 1)
         == Next(events + [e], redisConfigured, |events|, After(events, redisConfigured, |events|))
  {
    forall i | 0 <= i < |events| ensures Possible(events + [e], redisConfigured, i) {
      assert Possible(events, redisConfigured, i) && (events + [e])[i] == events[i];
    }
    PrefixAfter(events, e, redisConfigured, |events|);
  }

  class Cache {
    const redisConfigured: bool
    var memoryCache: Option<Entry>
    var redisCell: Option<Entry>
    ghost var trace: seq<Event>

    ghost predicate Valid()
      reads this
    {
      IsTrace(trace, redisConfigured) && Cells(memoryCache, redisCell) == After(trace, redisConfigured, |trace|)
    }

    constructor (redisConfigured: bool)
      ensures Valid() && this.redisConfigured == redisConfigured && trace == []
    {
      this.redisConfigured := redisConfigured;
      memoryCache, redisCell, trace := None, None, [];
    }

    /** A Redis answer is final, even when it is that there is nothing. */
    method GetCachedPlatformAnalytics(now: int, readFails: bool) returns (r: Option<Payload>)
      requires Valid() && NotBefore(trace, now)
      modifies this`memoryCache, this`trace
      ensures Valid() && trace == old(trace) + [Reads(now, redisConfigured && !readFails)]
      ensures r == Answer(trace, redisConfigured, |trace| - 1)
    {
      ghost var read := Reads(now, redisConfigured && !readFails);
      Extended(trace, read, redisConfigured);
      trace := trace + [read];
      if redisConfigured && !readFails {
        return if redisCell.Some? && now < redisCell.value.expiresAt then Some(redisCell.value.payload) else None;
      }
      if memoryCache.Some? && memoryCache.value.expiresAt > now {
        return Some(memoryCache.value.payload);
      }
      memoryCache := None;
      return None;
    }

    /** The setter up to the point where it waits for Redis; `sent` says whether it does. */
    method SetCachedPlatformAnalytics(now: int, payload: Payload, ttlSeconds: int) returns (sent: bool)
      requires Valid() && NotBefore(trace, now)
      modifies this`memoryCache, this`trace
      ensures Valid() && trace == old(trace) + [SetStarts(now, payload, ttlSeconds)]
      ensures sent == redisConfigured
    {
      Extended(trace, SetStarts(now, payload, ttlSeconds), redisConfigured);
      trace := trace + [SetStarts(now, payload, ttlSeconds)];
      memoryCache := Some(Entry(payload, now + ttlSeconds * 1_000));
      sent := redisConfigured;
    }

    /** The command of an earlier call reaches Redis, whatever was called in between. */
    method CommandLands(now: int, payload: Payload, ttlSeconds: int, ghost call: nat)
      requires Valid() && NotBefore(trace, now) && redisConfigured && 0 < ttlSeconds
      requires call < |trace| && trace[call] == SetStarts(trace[call].at, payload, ttlSeconds)
      modifies this`redisCell, this`trace
      ensures Valid() && trace == old(trace) + [Lands(now, call)]
    {
      Extended(trace, Lands(now, call), redisConfigured);
      trace := trace + [Lands(now, call)];
      redisCell := Some(Entry(payload, now + ttlSeconds * 1_000));
    }
  }
}
