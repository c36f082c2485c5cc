/**
 Cycles of scripts/price-oracle-keeper.ts and whole runs of them. What the network returns in a
 cycle (quotes, TWAP readings, which publishes fail) is the cycle's input.
 */
module OracleCycles {
  import opened Common
  import opened PriceAggregation

  datatype Config = Config(maxStalenessMs: int, assetAddresses: map<Symbol, string>)

  /** A TWAP that is missing stands for a reading that was null or threw. */
  datatype Input = Input(now: int, quotes: seq<Quote>, twaps: map<Symbol, real>, failing: set<Symbol>)

  /** What a cycle learns about each symbol: its live reading and the TWAP it read, if any. */
  datatype Reading = Reading(now: int, live: map<Symbol, LiveReading>, twaps: map<Symbol, real>, failing: set<Symbol>)

  datatype Tally = Published | Skipped | NoPrice | Failed

  /** What a cycle does for one symbol; `written` is the integer that reached the chain. */
  datatype Outcome = Outcome(result: Aggregated, good: Option<Cached>, published: Option<Cached>,
                             written: Option<int>, tally: Tally)

  function Get<V>(m: map<Symbol, V>, s: Symbol): Option<V> {
    if s in m then Some(m[s]) else None
  }

  predicate HasAddress(cfg: Config, s: Symbol) {
    s in cfg.assetAddresses && cfg.assetAddresses[s] != ""
  }

  predicate Names(quotes: seq<Quote>, s: Symbol) {
    exists q | q in quotes :: q.symbol == s
  }

  function UsableIn(cfg: Config, input: Input, s: Symbol): (r: seq<Quote>)
    ensures AllUsable(r)
  {
    Usable(input.quotes, s, input.now, cfg.maxStalenessMs)
  }

  /** The TWAP is read only when no quote names the symbol and there is a contract to read. */
  predicate ReadsTwap(cfg: Config, input: Input, s: Symbol) {
    !Names(input.quotes, s) && HasAddress(cfg, s)
  }

  function Read(cfg: Config, input: Input): Reading {
    Reading(input.now,
            map s | s in TRACKED_SYMBOLS && UsableIn(cfg, input, s) != []
              :: ReadLive(UsableIn(cfg, input, s), DEFAULT_OUTLIER_TOLERANCE_BPS).value,
            map s | s in input.twaps && ReadsTwap(cfg, input, s) :: input.twaps[s],
            input.failing)
  }

  function ResultFor(cfg: Config, reading: Reading, s: Symbol, good: Option<Cached>): Aggregated {
    FallBack(s, Get(reading.live, s), reading.now, cfg.maxStalenessMs, good, Get(reading.twaps, s))
  }

  /** What a cycle works out from its inputs is what `aggregatePrice` makes of them, with the TWAP if it is read. */
  lemma ResultIsAggregatePrice(cfg: Config, input: Input, s: Symbol, good: Option<Cached>)
    ensures ResultFor(cfg, Read(cfg, input), s, good)
         == AggregatePrice(s, input.quotes, input.now, cfg.maxStalenessMs, 1_000.0, good,
                           if ReadsTwap(cfg, input, s) then Get(input.twaps, s) else None)
  {
    ReadingIsLive(cfg, input, s);
  }

  /** What a publish, tried or not, leaves: `lastPublished`, the integer written and the tally. */
  datatype PublishEnd = PublishEnd(published: Option<Cached>, written: Option<int>, tally: Tally)

  function TryPublish(cfg: Config, reading: Reading, s: Symbol, result: Aggregated, published: Option<Cached>)
    : PublishEnd
    requires result.price.Some?
  {
    if !HasAddress(cfg, s) || !ShouldPublish(result, published, reading.now) then
      PublishEnd(published, None, Skipped)
    else if ToChainPrice(result.price.value).None? || s in reading.failing then
      PublishEnd(published, None, Failed)
    else
      PublishEnd(Some(Cached(result.price.value, reading.now)), ToChainPrice(result.price.value), Published)
  }

  function SymbolCycle(cfg: Config, reading: Reading, s: Symbol, good: Option<Cached>, published: Option<Cached>)
    : Outcome
  {
    var result := ResultFor(cfg, reading, s, good);
    if result.price.None? then Outcome(result, good, published, None, NoPrice)
    else
      var good' := if result.origin == Live then Some(Cached(result.price.value, reading.now)) else good;
      var end := TryPublish(cfg, reading, s, result, published);
      Outcome(result, good', end.published, end.written, end.tally)
  }

  /**
   Exactly what a cycle does with a symbol. Without a price nothing. With one, it is published if
   the symbol has an address, the price is positive, the publish does not fail, and nothing was
   published before, or a minute ago or more, or at a price 0.25% away; it is skipped without an
   address or a reason, and failed otherwise. Only a live price is remembered as good, only a
   published one as published, and what is written is its nearest integer at seven decimals.
   */
  lemma OutcomesAreExact(cfg: Config, reading: Reading, s: Symbol, good: Option<Cached>, published: Option<Cached>)
    ensures var o := SymbolCycle(cfg, reading, s, good, published);
            && o.result == ResultFor(cfg, reading, s, good)
            && (o.tally == NoPrice <==> o.result.price.None?)
            && o.good == (if o.result.price.Some? && o.result.origin == Live
                          then Some(Cached(o.result.price.value, reading.now)) else good)
            && (o.tally != Published ==> o.published == published && o.written.None?)
            && (o.result.price.Some? ==>
                  var price, tried := o.result.price.value, s in cfg.assetAddresses && cfg.assetAddresses[s] != "";
                  var due := || published.None? || reading.now - published.value.observedAt >= 60_000
                             || Abs(price - published.value.price) * 10_000.0 >= 25.0 * published.value.price;
                  && (o.tally == Skipped <==> !(tried && due))
                  && (o.tally == Published <==> tried && due && price > 0.0 && s !in reading.failing)
                  && (o.tally == Failed <==> tried && due && (price <= 0.0 || s in reading.failing))
                  && (o.tally == Published ==>
                        && o.published == Some(Cached(price, reading.now))
                        && o.written == Some((price * 10_000_000.0 + 0.5).Floor)))
  {
  }

  /** A reading as `Read` produces them. */
  ghost predicate Plausible(reading: Reading) {
    forall s | s in reading.live :: reading.live[s].price > 0.0
  }

  /** A live reading is the live price of the symbol's usable quotes, none of them stale. */
  lemma ReadingIsLive(cfg: Config, input: Input, s: Symbol)
    ensures Plausible(Read(cfg, input))
    ensures s in Read(cfg, input).live <==> UsableIn(cfg, input, s) != []
    ensures s in Read(cfg, input).live ==>
              Read(cfg, input).live[s].price == LivePrice(UsableIn(cfg, input, s), DEFAULT_OUTLIER_TOLERANCE_BPS)
    ensures forall q | q in UsableIn(cfg, input, s) :: q.symbol == s && input.now - q.observedAt <= cfg.maxStalenessMs
  {
    assert s == TRACKED_SYMBOLS[0] || s == TRACKED_SYMBOLS[1];
    assert s in TRACKED_SYMBOLS;
  }

  // ------------------------------------------------------------------- isolation

  function About(quotes: seq<Quote>, s: Symbol): seq<Quote> {
    if quotes == [] then []
    else if quotes[0].symbol == s then [quotes[0]] + About(quotes[1..], s)
    else About(quotes[1..], s)
  }

  lemma {:induction false} UsableIsAbout(quotes: seq<Quote>, s: Symbol, now: int, maxStalenessMs: int)
    ensures Usable(quotes, s, now, maxStalenessMs) == Usable(About(quotes, s), s, now, maxStalenessMs)
    ensures Names(quotes, s) <==> About(quotes, s) != []
  {
    if quotes != [] {
      UsableIsAbout(quotes[1..], s, now, maxStalenessMs);
      assert quotes[0] in quotes;
      assert forall q | q in quotes :: q == quotes[0] || q in quotes[1..];
      if quotes[0].symbol == s {
        assert About(quotes, s)[1..] == About(quotes[1..], s);
      }
    }
  }

  /**
   Isolation: what a cycle does for a symbol depends on that symbol's own quotes, TWAP, publish
   and state only; nothing that happens to another symbol changes it.
   */
  lemma SymbolsAreIsolated(cfg: Config, a: Input, b: Input, s: Symbol, good: Option<Cached>, published: Option<Cached>)
    requires a.now == b.now && About(a.quotes, s) == About(b.quotes, s)
    requires Get(a.twaps, s) == Get(b.twaps, s) && (s in a.failing <==> s in b.failing)
    ensures SymbolCycle(cfg, Read(cfg, a), s, good, published) == SymbolCycle(cfg, Read(cfg, b), s, good, published)
  {
    UsableIsAbout(a.quotes, s, a.now, cfg.maxStalenessMs);
    UsableIsAbout(b.quotes, s, b.now, cfg.maxStalenessMs);
    assert UsableIn(cfg, a, s) == UsableIn(cfg, b, s);
    SameReadingSameOutcome(cfg, Read(cfg, a), Read(cfg, b), s, good, published);
  }

  lemma SameReadingSameOutcome(cfg: Config, a: Reading, b: Reading, s: Symbol,
                               good: Option<Cached>, published: Option<Cached>)
    requires a.now == b.now && Get(a.live, s) == Get(b.live, s)
    requires Get(a.twaps, s) == Get(b.twaps, s) && (s in a.failing <==> s in b.failing)
    ensures SymbolCycle(cfg, a, s, good, published) == SymbolCycle(cfg, b, s, good, published)
  {
  }

  // ---------------------------------------------------------------- fallback chain

  /** The documented chain: live median, cached price, on-chain TWAP, refuse to publish. */
  function DocumentedOrigin(cfg: Config, input: Input, s: Symbol, good: Option<Cached>): Origin {
    if UsableIn(cfg, input, s) != [] then Live
    else if good.Some? && good.value.price > 0.0 && input.now - good.value.observedAt <= cfg.maxStalenessMs then
      FromCache
    else if s in cfg.assetAddresses && cfg.assetAddresses[s] != "" && s in input.twaps && input.twaps[s] > 0.0 then
      FromTwap
    else Unavailable
  }

  /**
   The code follows the documented chain except when a quote names the symbol, none is usable,
   the cache is stale and a TWAP could be read: then it refuses to publish instead.
   */
  lemma FallbackChain(cfg: Config, input: Input, s: Symbol, good: Option<Cached>)
    ensures ResultFor(cfg, Read(cfg, input), s, good).origin == DocumentedOrigin(cfg, input, s, good)
       <==> !(DocumentedOrigin(cfg, input, s, good) == FromTwap && exists q | q in input.quotes :: q.symbol == s)
    ensures ResultFor(cfg, Read(cfg, input), s, good).origin != DocumentedOrigin(cfg, input, s, good)
        ==> ResultFor(cfg, Read(cfg, input), s, good).origin == Unavailable
  {
    ReadingIsLive(cfg, input, s);
  }

  /** One stale quote from an injected source is enough to keep the TWAP from being read. */
  lemma TwapSkippedForAStaleQuote()
    ensures var cfg := Config(120_000, map[XLM := "C"]);
            var input := Input(500_000, [Quote(XLM, Some(0.12), "a", 0)], map[XLM := 0.115], {});
            && DocumentedOrigin(cfg, input, XLM, None) == FromTwap
            && ResultFor(cfg, Read(cfg, input), XLM, None).origin == Unavailable
  {
    var cfg := Config(120_000, map[XLM := "C"]);
    var quotes := [Quote(XLM, Some(0.12), "a", 0)];
    var input := Input(500_000, quotes, map[XLM := 0.115], {});
    assert quotes[1..] == [] && quotes[0] in quotes && Names(quotes, XLM);
    assert UsableIn(cfg, input, XLM) == [];
    FallbackChain(cfg, input, XLM, None);
  }

  // -------------------------------------------------------------------------- runs

  /** `lastGood`, `lastPublished`, and what the publishes left on chain. */
  datatype State = State(good: map<Symbol, Cached>, published: map<Symbol, Cached>, chain: map<Symbol, int>)

  const INITIAL: State := State(map[], map[], map[])

  function Put<V>(m: map<Symbol, V>, s: Symbol, v: Option<V>): map<Symbol, V> {
    if v.Some? then m[s := v.value] else m
  }

  function OutcomeFor(cfg: Config, reading: Reading, s: Symbol, st: State): Outcome {
    SymbolCycle(cfg, reading, s, Get(st.good, s), Get(st.published, s))
  }

  function StepSymbol(cfg: Config, reading: Reading, s: Symbol, st: State): State {
    var o := OutcomeFor(cfg, reading, s, st);
    State(Put(st.good, s, o.good), Put(st.published, s, o.published), Put(st.chain, s, o.written))
  }

  /** The loop over the first `n` tracked symbols. */
  function Cycle(cfg: Config, reading: Reading, n: nat, st: State): State
    requires n <= |TRACKED_SYMBOLS|
  {
    if n == 0 then st else StepSymbol(cfg, reading, TRACKED_SYMBOLS[n - 1], Cycle(cfg, reading, n - 1, st))
  }

  function FullCycle(cfg: Config, reading: Reading, st: State): State {
    Cycle(cfg, reading, |TRACKED_SYMBOLS|, st)
  }

  function RunCycles(cfg: Config, readings: seq<Reading>): State {
    if readings == [] then INITIAL
    else FullCycle(cfg, readings[|readings| - 1], RunCycles(cfg, readings[..|readings| - 1]))
  }

  /** One symbol's step leaves the others alone. */
  lemma StepIsLocal(cfg: Config, reading: Reading, s: Symbol, other: Symbol, st: State)
    requires s != other
    ensures var after := StepSymbol(cfg, reading, s, st);
            && Get(after.good, other) == Get(st.good, other)
            && Get(after.published, other) == Get(st.published, other)
            && Get(after.chain, other) == Get(st.chain, other)
            && OutcomeFor(cfg, reading, other, after) == OutcomeFor(cfg, reading, other, st)
  {
  }

  lemma StepOfItself(cfg: Config, reading: Reading, s: Symbol, st: State)
    ensures var (o, after) := (OutcomeFor(cfg, reading, s, st), StepSymbol(cfg, reading, s, st));
            && Get(after.good, s) == o.good && Get(after.published, s) == o.published
            && Get(after.chain, s) == (if o.written.Some? then o.written else Get(st.chain, s))
  {
  }

  /** A full cycle treats every symbol as if it were alone. */
  lemma CycleBySymbol(cfg: Config, reading: Reading, s: Symbol, st: State)
    ensures var (o, after) := (OutcomeFor(cfg, reading, s, st), FullCycle(cfg, reading, st));
            && Get(after.good, s) == o.good && Get(after.published, s) == o.published
            && Get(after.chain, s) == (if o.written.Some? then o.written else Get(st.chain, s))
  {
    var one := StepSymbol(cfg, reading, XLM, st);
    assert Cycle(cfg, reading, 1, st) == one by { assert Cycle(cfg, reading, 0, st) == st; }
    assert FullCycle(cfg, reading, st) == StepSymbol(cfg, reading, BTC, one);
    StepIsLocal(cfg, reading, XLM, BTC, st);
    StepIsLocal(cfg, reading, BTC, XLM, one);
    StepOfItself(cfg, reading, XLM, st);
    StepOfItself(cfg, reading, BTC, one);
  }

  /** The price and time of the latest cycle with a live price for the symbol. */
  function LatestLive(readings: seq<Reading>, s: Symbol): Option<Cached> {
    if readings == [] then None
    else
      var reading := readings[|readings| - 1];
      if s in reading.live then Some(Cached(reading.live[s].price, reading.now))
      else LatestLive(readings[..|readings| - 1], s)
  }

  lemma GoodAfterACycle(cfg: Config, reading: Reading, s: Symbol, good: Option<Cached>, published: Option<Cached>)
    ensures SymbolCycle(cfg, reading, s, good, published).good
         == if s in reading.live then Some(Cached(reading.live[s].price, reading.now)) else good
  {
  }

  /** However many cached, TWAP or failed cycles intervene, `lastGood` is the latest live reading. */
  lemma {:induction false} LastGoodIsTheLatestLive(cfg: Config, readings: seq<Reading>, s: Symbol)
    ensures Get(RunCycles(cfg, readings).good, s) == LatestLive(readings, s)
  {
    if readings != [] {
      var before, reading := readings[..|readings| - 1], readings[|readings| - 1];
      var st := RunCycles(cfg, before);
      LastGoodIsTheLatestLive(cfg, before, s);
      CycleBySymbol(cfg, reading, s, st);
      GoodAfterACycle(cfg, reading, s, Get(st.good, s), Get(st.published, s));
    }
  }

  /** The cycle a live reading came from. */
  lemma {:induction false} LiveReadingHasACycle(readings: seq<Reading>, s: Symbol) returns (j: nat)
    requires LatestLive(readings, s).Some?
    ensures j < |readings| && s in readings[j].live
    ensures LatestLive(readings, s) == Some(Cached(readings[j].live[s].price, readings[j].now))
    ensures forall k | j < k < |readings| :: s !in readings[k].live
  {
    if s in readings[|readings| - 1].live {
      j := |readings| - 1;
    } else {
      j := LiveReadingHasACycle(readings[..|readings| - 1], s);
    }
  }

  /**
   Freshness over all runs. A price published by cycle i that is not a TWAP was the live price
   of a cycle j no more than maxStalenessMs before, and cycle j is the latest with a live price.
   */
  lemma PublishedPricesWereLive(cfg: Config, readings: seq<Reading>, i: nat, s: Symbol) returns (j: nat)
    requires i < |readings|
    requires var o := OutcomeFor(cfg, readings[i], s, RunCycles(cfg, readings[..i]));
             o.tally == Published && o.result.origin != FromTwap
    ensures j <= i && s in readings[j].live && (forall k | j < k <= i :: s !in readings[k].live)
    ensures OutcomeFor(cfg, readings[i], s, RunCycles(cfg, readings[..i])).result.price
         == Some(readings[j].live[s].price)
    ensures readings[i].now - readings[j].now <= Max(0, cfg.maxStalenessMs)
  {
    if s in readings[i].live {
      j := i;
    } else {
      LastGoodIsTheLatestLive(cfg, readings[..i], s);
      j := LiveReadingHasACycle(readings[..i], s);
    }
  }

  function ReadAll(cfg: Config, inputs: seq<Input>): (r: seq<Reading>)
    ensures |r| == |inputs| && forall k | 0 <= k < |inputs| :: r[k] == Read(cfg, inputs[k])
  {
    seq(|inputs|, k requires 0 <= k < |inputs| => Read(cfg, inputs[k]))
  }

  /**
   The same down to the quotes: what is published is the outlier-free median of quotes observed
   at most maxStalenessMs before cycle j, hence at most twice maxStalenessMs before it was
   published. `QuotesMayBeTwiceAsOld` attains that age.
   */
  lemma PublishedQuotesAreFresh(cfg: Config, inputs: seq<Input>, i: nat, s: Symbol) returns (j: nat)
    requires i < |inputs|
    requires var o := OutcomeFor(cfg, Read(cfg, inputs[i]), s, RunCycles(cfg, ReadAll(cfg, inputs)[..i]));
             o.tally == Published && o.result.origin != FromTwap
    ensures j <= i && UsableIn(cfg, inputs[j], s) != []
    ensures OutcomeFor(cfg, Read(cfg, inputs[i]), s, RunCycles(cfg, ReadAll(cfg, inputs)[..i])).result.price
         == Some(LivePrice(UsableIn(cfg, inputs[j], s), DEFAULT_OUTLIER_TOLERANCE_BPS))
    ensures forall q | q in UsableIn(cfg, inputs[j], s) ::
              inputs[i].now - q.observedAt <= Max(0, cfg.maxStalenessMs) + cfg.maxStalenessMs
  {
    j := PublishedPricesWereLive(cfg, ReadAll(cfg, inputs), i, s);
    ReadingIsLive(cfg, inputs[j], s);
  }

  lemma UsableOne(quote: Quote, s: Symbol, now: int, max: int)
    requires PriceAggregation.Counts(quote, s, now, max)
    ensures Usable([quote], s, now, max) == [quote]
  {
    assert [quote][1..] == [];
    assert Usable([], s, now, max) == [];
    assert Usable([quote], s, now, max) == [quote] + [];
  }

  lemma LivePriceOfOne(quote: Quote, toleranceBps: real)
    requires IsUsableQuote(quote)
    ensures LivePrice([quote], toleranceBps) == quote.price.value
  {
    assert [quote][1..] == [];
    assert Prices([quote]) == [quote.price.value];
    assert [quote.price.value][1..] == [];
    assert Sort([quote.price.value]) == [quote.price.value];
  }

  /**
   A quote that an injected source returns at the edge of staleness, a failed publish, then
   silence: the quote is published 2 * max old.
   */
  lemma QuotesMayBeTwiceAsOld(max: int)
    requires 0 < max
    ensures var cfg := Config(max, map[XLM := "C"]);
            var inputs := [Input(max, [Quote(XLM, Some(1.0), "a", 0)], map[], {XLM}), Input(2 * max, [], map[], {})];
            var o := OutcomeFor(cfg, Read(cfg, inputs[1]), XLM, RunCycles(cfg, ReadAll(cfg, inputs)[..1]));
            && o.tally == Published && o.result.origin == FromCache && o.result.price == Some(1.0)
            && inputs[1].now - inputs[0].quotes[0].observedAt == 2 * max
  {
    var cfg := Config(max, map[XLM := "C"]);
    var quote := Quote(XLM, Some(1.0), "a", 0);
    var inputs := [Input(max, [quote], map[], {XLM}), Input(2 * max, [], map[], {})];
    var first := ReadAll(cfg, inputs)[..1];
    UsableOne(quote, XLM, max, max);
    LivePriceOfOne(quote, DEFAULT_OUTLIER_TOLERANCE_BPS);
    ReadingIsLive(cfg, inputs[0], XLM);
    ReadingIsLive(cfg, inputs[1], XLM);
    assert first == [Read(cfg, inputs[0])] && first[..0] == [];
    LastGoodIsTheLatestLive(cfg, first, XLM);
    CycleBySymbol(cfg, first[0], XLM, INITIAL);
    assert RunCycles(cfg, first) == FullCycle(cfg, first[0], INITIAL);
    CachedOutcome(cfg, Read(cfg, inputs[1]), RunCycles(cfg, first), 1.0, max);
  }

  lemma CachedOutcome(cfg: Config, reading: Reading, st: State, price: real, at: int)
    requires HasAddress(cfg, XLM) && XLM !in reading.live && XLM !in reading.failing && price > 0.0
    requires Get(st.good, XLM) == Some(Cached(price, at)) && XLM !in st.published
    requires reading.now - at <= cfg.maxStalenessMs
    ensures var o := OutcomeFor(cfg, reading, XLM, st);
            o.tally == Published && o.result.origin == FromCache && o.result.price == Some(price)
  {
  }

  // ------------------------------------------------------------------ chain mirror

  /** `lastPublished` says what is on chain, for every symbol, and prices are positive. */
  ghost predicate Mirrors(st: State, s: Symbol) {
    && (s in st.published <==> s in st.chain)
    && (s in st.published ==>
          st.published[s].price > 0.0 && Some(st.chain[s]) == ToChainPrice(st.published[s].price))
  }

  /** What is written and what is remembered as published change together. */
  lemma OnlyPublishingWrites(cfg: Config, reading: Reading, s: Symbol, good: Option<Cached>, published: Option<Cached>)
    requires Plausible(reading)
    ensures var o := SymbolCycle(cfg, reading, s, good, published);
            if o.tally == Published then
              && o.published.Some? && o.published.value.price > 0.0
              && o.written.Some? && o.written == ToChainPrice(o.published.value.price)
            else o.published == published && o.written.None?
  {
  }

  lemma OutcomeMirrors(cfg: Config, reading: Reading, s: Symbol, st: State)
    requires Plausible(reading) && Mirrors(st, s)
    ensures Mirrors(FullCycle(cfg, reading, st), s)
  {
    CycleBySymbol(cfg, reading, s, st);
    OnlyPublishingWrites(cfg, reading, s, Get(st.good, s), Get(st.published, s));
    var after := FullCycle(cfg, reading, st);
    assert Get(after.published, s) == OutcomeFor(cfg, reading, s, st).published;
  }

  /** In every reachable state `lastPublished` is the last price written, for every symbol. */
  lemma {:induction false} ChainIsMirrored(cfg: Config, readings: seq<Reading>, s: Symbol)
    requires forall k | 0 <= k < |readings| :: Plausible(readings[k])
    ensures Mirrors(RunCycles(cfg, readings), s)
  {
    if readings != [] {
      ChainIsMirrored(cfg, readings[..|readings| - 1], s);
      OutcomeMirrors(cfg, readings[|readings| - 1], s, RunCycles(cfg, readings[..|readings| - 1]));
    }
  }

  /** What cycle `i` of a run does for a symbol. */
  function OutcomeAt(cfg: Config, readings: seq<Reading>, i: nat, s: Symbol): Outcome
    requires i < |readings|
  {
    OutcomeFor(cfg, readings[i], s, RunCycles(cfg, readings[..i]))
  }

  predicate WritesAt(cfg: Config, readings: seq<Reading>, i: nat, s: Symbol)
    requires i < |readings|
  {
    OutcomeAt(cfg, readings, i, s).tally == Published
  }

  lemma PublishedIsTheResult(cfg: Config, reading: Reading, s: Symbol, good: Option<Cached>, published: Option<Cached>)
    ensures var o := SymbolCycle(cfg, reading, s, good, published);
            if o.tally == Published then
              o.result.price.Some? && o.published == Some(Cached(o.result.price.value, reading.now))
            else o.published == published
  {
  }

  /** `lastPublished` after the first `n` cycles of a run. */
  function Remembered(cfg: Config, readings: seq<Reading>, n: nat, s: Symbol): Option<Cached>
    requires n <= |readings|
  {
    Get(RunCycles(cfg, readings[..n]).published, s)
  }

  /** No write of the symbol strictly between two cycles. */
  predicate QuietBetween(cfg: Config, readings: seq<Reading>, i: nat, j: nat, s: Symbol)
    requires j <= |readings|
  {
    forall k | i < k < j :: !WritesAt(cfg, readings, k, s)
  }

  /** A write is remembered, and nothing else changes what is. */
  lemma RunOneMore(cfg: Config, readings: seq<Reading>, i: nat, s: Symbol)
    requires i < |readings|
    ensures WritesAt(cfg, readings, i, s) ==> OutcomeAt(cfg, readings, i, s).result.price.Some?
    ensures Remembered(cfg, readings, i + 1, s)
         == if WritesAt(cfg, readings, i, s)
            then Some(Cached(OutcomeAt(cfg, readings, i, s).result.price.value, readings[i].now))
            else Remembered(cfg, readings, i, s)
  {
    var st := RunCycles(cfg, readings[..i]);
    assert readings[..i + 1][..i] == readings[..i];
    CycleBySymbol(cfg, readings[i], s, st);
    PublishedIsTheResult(cfg, readings[i], s, Get(st.good, s), Get(st.published, s));
  }

  /** What is remembered as published does not change until the next write. */
  lemma {:induction false} LastWriteIsRemembered(cfg: Config, readings: seq<Reading>, i: nat, j: nat, s: Symbol)
    requires i < j <= |readings| && WritesAt(cfg, readings, i, s)
    requires QuietBetween(cfg, readings, i, j, s)
    ensures OutcomeAt(cfg, readings, i, s).result.price.Some?
    ensures Remembered(cfg, readings, j, s)
         == Some(Cached(OutcomeAt(cfg, readings, i, s).result.price.value, readings[i].now))
  {
    RunOneMore(cfg, readings, j - 1, s);
    if i < j - 1 { LastWriteIsRemembered(cfg, readings, i, j - 1, s); }
  }

  /**
   Successive writes of a symbol in any run are a minute apart, or their prices differ by at
   least 0.25% of the first.
   */
  lemma WritesAreWorthTheirFee(cfg: Config, readings: seq<Reading>, i: nat, j: nat, s: Symbol)
    requires i < j < |readings| && WritesAt(cfg, readings, i, s) && WritesAt(cfg, readings, j, s)
    requires QuietBetween(cfg, readings, i, j, s)
    ensures var first, next := OutcomeAt(cfg, readings, i, s).result.price, OutcomeAt(cfg, readings, j, s).result.price;
            && first.Some? && next.Some?
            && (|| readings[j].now - readings[i].now >= 60_000
                || Abs(next.value - first.value) * 10_000.0 >= 25.0 * first.value)
  {
    LastWriteIsRemembered(cfg, readings, i, j, s);
    DueAt(cfg, readings, j, s);
  }

  lemma DueAt(cfg: Config, readings: seq<Reading>, j: nat, s: Symbol)
    requires j < |readings| && WritesAt(cfg, readings, j, s)
    ensures var was, price :=
              Remembered(cfg, readings, j, s), OutcomeAt(cfg, readings, j, s).result.price;
            && price.Some?
            && (was.Some? ==>
                  || readings[j].now - was.value.observedAt >= 60_000
                  || Abs(price.value - was.value.price) * 10_000.0 >= 25.0 * was.value.price)
  {
    var st := RunCycles(cfg, readings[..j]);
    PublishIsDue(cfg, readings[j], s, Get(st.good, s), Get(st.published, s));
  }

  lemma PublishIsDue(cfg: Config, reading: Reading, s: Symbol, good: Option<Cached>, published: Option<Cached>)
    requires SymbolCycle(cfg, reading, s, good, published).tally == Published
    ensures var price := SymbolCycle(cfg, reading, s, good, published).result.price;
            && price.Some?
            && (published.Some? ==>
                  || reading.now - published.value.observedAt >= 60_000
                  || Abs(price.value - published.value.price) * 10_000.0 >= 25.0 * published.value.price)
  {
  }

  /** What can be published and is not was published lately, at nearly the same price. */
  lemma UnpublishedIsClose(cfg: Config, reading: Reading, s: Symbol, good: Option<Cached>, published: Option<Cached>)
    requires Plausible(reading) && HasAddress(cfg, s) && s !in reading.failing
    requires var o := SymbolCycle(cfg, reading, s, good, published); o.result.price.Some? && o.tally != Published
    ensures var price := SymbolCycle(cfg, reading, s, good, published).result.price.value;
            && published.Some? && reading.now - published.value.observedAt < 60_000
            && Abs(price - published.value.price) * 10_000.0 < 25.0 * published.value.price
  {
  }

  lemma UnpublishedAt(cfg: Config, readings: seq<Reading>, i: nat, s: Symbol)
    requires i < |readings| && Plausible(readings[i]) && HasAddress(cfg, s) && s !in readings[i].failing
    requires OutcomeAt(cfg, readings, i, s).result.price.Some? && !WritesAt(cfg, readings, i, s)
    ensures var was := Remembered(cfg, readings, i, s);
            && was.Some? && readings[i].now - was.value.observedAt < 60_000
            && Abs(OutcomeAt(cfg, readings, i, s).result.price.value - was.value.price) * 10_000.0
               < 25.0 * was.value.price
  {
    var st := RunCycles(cfg, readings[..i]);
    UnpublishedIsClose(cfg, readings[i], s, Get(st.good, s), Get(st.published, s));
  }

  /** The write behind what is remembered as published. */
  lemma {:induction false} LatestWrite(cfg: Config, readings: seq<Reading>, n: nat, s: Symbol) returns (j: nat)
    requires n <= |readings| && Remembered(cfg, readings, n, s).Some?
    ensures j < n && WritesAt(cfg, readings, j, s) && QuietBetween(cfg, readings, j, n, s)
  {
    NothingAtFirst(cfg, readings, s);
    j := n - 1;
    if !WritesAt(cfg, readings, n - 1, s) {
      RunOneMore(cfg, readings, n - 1, s);
      j := LatestWrite(cfg, readings, n - 1, s);
      QuietOneMore(cfg, readings, j, n - 1, s);
    }
  }

  lemma QuietOneMore(cfg: Config, readings: seq<Reading>, i: nat, j: nat, s: Symbol)
    requires j < |readings| && QuietBetween(cfg, readings, i, j, s) && !WritesAt(cfg, readings, j, s)
    ensures QuietBetween(cfg, readings, i, j + 1, s)
  {
  }

  lemma NothingAtFirst(cfg: Config, readings: seq<Reading>, s: Symbol)
    ensures Remembered(cfg, readings, 0, s).None?
  {
  }

  lemma ChainAfter(cfg: Config, readings: seq<Reading>, n: nat, s: Symbol)
    requires n <= |readings| && forall k | 0 <= k < |readings| :: Plausible(readings[k])
    requires Remembered(cfg, readings, n, s).Some?
    ensures Get(RunCycles(cfg, readings[..n]).chain, s)
         == ToChainPrice(Remembered(cfg, readings, n, s).value.price)
  {
    ChainIsMirrored(cfg, readings[..n], s);
  }

  /**
   The chain tracks the price: in every run, after a cycle that has a price for a configured
   symbol and whose publish does not fail, the integer on chain is that of the price of this
   cycle, or of one less than a minute before whose price is within 0.25% of it.
   */
  lemma ChainTracksThePrice(cfg: Config, readings: seq<Reading>, i: nat, s: Symbol) returns (j: nat)
    requires i < |readings| && forall k | 0 <= k < |readings| :: Plausible(readings[k])
    requires HasAddress(cfg, s) && s !in readings[i].failing && OutcomeAt(cfg, readings, i, s).result.price.Some?
    ensures j <= i && OutcomeAt(cfg, readings, j, s).result.price.Some?
    ensures Get(RunCycles(cfg, readings[..i + 1]).chain, s)
         == ToChainPrice(OutcomeAt(cfg, readings, j, s).result.price.value)
    ensures j == i || PricesAreClose(cfg, readings, j, i, s)
  {
    RunOneMore(cfg, readings, i, s);
    if WritesAt(cfg, readings, i, s) {
      j := i;
    } else {
      j := CloseWrite(cfg, readings, i, s);
    }
    ChainAfter(cfg, readings, i + 1, s);
  }

  lemma CloseWrite(cfg: Config, readings: seq<Reading>, i: nat, s: Symbol) returns (j: nat)
    requires i < |readings| && Plausible(readings[i]) && HasAddress(cfg, s) && s !in readings[i].failing
    requires OutcomeAt(cfg, readings, i, s).result.price.Some? && !WritesAt(cfg, readings, i, s)
    ensures j < i && OutcomeAt(cfg, readings, j, s).result.price.Some? && PricesAreClose(cfg, readings, j, i, s)
    ensures Remembered(cfg, readings, i, s)
         == Some(Cached(OutcomeAt(cfg, readings, j, s).result.price.value, readings[j].now))
  {
    UnpublishedAt(cfg, readings, i, s);
    j := LatestWrite(cfg, readings, i, s);
    LastWriteIsRemembered(cfg, readings, j, i, s);
  }

  predicate PricesAreClose(cfg: Config, readings: seq<Reading>, j: nat, i: nat, s: Symbol)
    requires j < |readings| && i < |readings|
    requires OutcomeAt(cfg, readings, i, s).result.price.Some? && OutcomeAt(cfg, readings, j, s).result.price.Some?
  {
    var was := OutcomeAt(cfg, readings, j, s).result.price.value;
    var price := OutcomeAt(cfg, readings, i, s).result.price.value;
    readings[i].now - readings[j].now < 60_000 && Abs(price - was) * 10_000.0 < 25.0 * was
  }
}
