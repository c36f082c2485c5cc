/** The keeper's in-memory state and the cycle of scripts/price-oracle-keeper.ts that updates it. */
module OracleKeeper {
  import opened Common
  import opened PriceAggregation
  import opened OracleCycles

  datatype Summary = Summary(polled: nat, published: nat, skipped: nat, unavailable: nat, failed: nat,
                             results: seq<Aggregated>)

  /** How many of the first `n` symbols ended the cycle with a tally. */
  function Tallied(cfg: Config, reading: Reading, st: State, n: nat, tally: Tally): nat
    requires n <= |TRACKED_SYMBOLS|
  {
    if n == 0 then 0
    else
      Tallied(cfg, reading, st, n - 1, tally)
      + if OutcomeFor(cfg, reading, TRACKED_SYMBOLS[n - 1], st).tally == tally then 1 else 0
  }

  /** Both symbols are counted, each under its own tally. */
  lemma BothSymbolsAreCounted(cfg: Config, reading: Reading, st: State, tally: Tally)
    ensures Tallied(cfg, reading, st, |TRACKED_SYMBOLS|, tally)
         == (if OutcomeFor(cfg, reading, XLM, st).tally == tally then 1 else 0)
            + (if OutcomeFor(cfg, reading, BTC, st).tally == tally then 1 else 0)
  {
    assert Tallied(cfg, reading, st, 1, tally) == if OutcomeFor(cfg, reading, XLM, st).tally == tally then 1 else 0;
  }

  ghost predicate TalliesUp(summary: Summary, cfg: Config, reading: Reading, st: State, n: nat)
    requires n <= |TRACKED_SYMBOLS|
  {
    && summary.published == Tallied(cfg, reading, st, n, Published)
    && summary.skipped == Tallied(cfg, reading, st, n, Skipped)
    && summary.unavailable == Tallied(cfg, reading, st, n, NoPrice)
    && summary.failed == Tallied(cfg, reading, st, n, Failed)
    && summary.published + summary.skipped + summary.unavailable + summary.failed == n
    && |summary.results| == n
    && forall k | 0 <= k < n :: summary.results[k] == OutcomeFor(cfg, reading, TRACKED_SYMBOLS[k], st).result
  }

  /** Count one symbol of a cycle. */
  function Add(summary: Summary, result: Aggregated, tally: Tally): Summary {
    var s := summary.(results := summary.results + [result]);
    match tally
    case Published => s.(published := s.published + 1)
    case Skipped => s.(skipped := s.skipped + 1)
    case NoPrice => s.(unavailable := s.unavailable + 1)
    case Failed => s.(failed := s.failed + 1)
  }

  class Keeper {
    const cfg: Config
    var lastGood: map<Symbol, Cached>
    var lastPublished: map<Symbol, Cached>
    var onChain: map<Symbol, int>
    ghost var readings: seq<Reading>

    ghost function View(): State
      reads this
    {
      State(lastGood, lastPublished, onChain)
    }

    ghost predicate Valid()
      reads this
    {
      IsHistory(cfg, readings, View())
    }

    constructor (cfg: Config)
      ensures Valid() && this.cfg == cfg && readings == []
    {
      this.cfg := cfg;
      lastGood, lastPublished, onChain, readings := map[], map[], map[], [];
    }

    /** One symbol of a cycle; the publish either writes or throws. */
    method PollSymbol(reading: Reading, symbol: Symbol) returns (result: Aggregated, tally: Tally)
      modifies this`lastGood, this`lastPublished, this`onChain
      ensures View() == StepSymbol(cfg, reading, symbol, old(View()))
      ensures result == OutcomeFor(cfg, reading, symbol, old(View())).result
      ensures tally == OutcomeFor(cfg, reading, symbol, old(View())).tally
    {
      result := FallBack(symbol, Get(reading.live, symbol), reading.now, cfg.maxStalenessMs,
                         Get(lastGood, symbol), Get(reading.twaps, symbol));
      PutSame(lastGood, symbol);
      PutSame(lastPublished, symbol);
      if result.price.None? {
        return result, NoPrice;
      }
      if result.origin == Live {
        lastGood := lastGood[symbol := Cached(result.price.value, reading.now)];
      }
      tally := PublishIfDue(reading, symbol, result);
    }

    /** The rest of the turn; the publish either writes or throws. */
    method PublishIfDue(reading: Reading, symbol: Symbol, result: Aggregated) returns (tally: Tally)
      requires result.price.Some?
      modifies this`lastPublished, this`onChain
      ensures var end := TryPublish(cfg, reading, symbol, result, Get(old(lastPublished), symbol));
              && lastPublished == Put(old(lastPublished), symbol, end.published)
              && onChain == Put(old(onChain), symbol, end.written)
              && tally == end.tally
    {
      PutSame(lastPublished, symbol);
      if !HasAddress(cfg, symbol) {
        return Skipped;
      }
      if !ShouldPublish(result, Get(lastPublished, symbol), reading.now) {
        return Skipped;
      }
      var chainPrice := ToChainPrice(result.price.value);
      if chainPrice.None? || symbol in reading.failing {
        return Failed;
      }
      onChain := onChain[symbol := chainPrice.value];
      lastPublished := lastPublished[symbol := Cached(result.price.value, reading.now)];
      return Published;
    }

    /** The loop over the tracked symbols. */
    method PollAll(reading: Reading, polled: nat) returns (summary: Summary)
      modifies this`lastGood, this`lastPublished, this`onChain
      ensures View() == FullCycle(cfg, reading, old(View()))
      ensures TalliesUp(summary, cfg, reading, old(View()), |TRACKED_SYMBOLS|) && summary.polled == polled
    {
      ghost var before := View();
      summary := Summary(polled, 0, 0, 0, 0, []);
      for i := 0 to |TRACKED_SYMBOLS|
        invariant View() == Cycle(cfg, reading, i, before)
        invariant TalliesUp(summary, cfg, reading, before, i) && summary.polled == polled
      {
        EarlierSymbolsDoNotMatter(cfg, reading, i, before);
        var result, tally := PollSymbol(reading, TRACKED_SYMBOLS[i]);
        OneMoreTallied(summary, cfg, reading, before, i);
        summary := Add(summary, result, tally);
      }
    }

    method RunOracleCycle(input: Input) returns (summary: Summary)
      requires Valid()
      modifies this
      ensures Valid() && readings == old(readings) + [Read(cfg, input)]
      ensures View() == FullCycle(cfg, Read(cfg, input), old(View()))
      ensures TalliesUp(summary, cfg, Read(cfg, input), old(View()), |TRACKED_SYMBOLS|)
      ensures summary.polled == |input.quotes|
    {
      var reading := Read(cfg, input);
      OneMoreCycle(cfg, input, readings, View());
      summary := PollAll(reading, |input.quotes|);
      readings := readings + [reading];
    }
  }

  lemma PutSame<V>(m: map<Symbol, V>, s: Symbol)
    ensures Put(m, s, Get(m, s)) == m
  {
  }

  /** The state is what the cycles with these readings lead to. */
  ghost predicate IsHistory(cfg: Config, readings: seq<Reading>, st: State) {
    && st == RunCycles(cfg, readings)
    && (forall k | 0 <= k < |readings| :: Plausible(readings[k]))
  }

  lemma OneMoreCycle(cfg: Config, input: Input, readings: seq<Reading>, st: State)
    requires IsHistory(cfg, readings, st)
    ensures IsHistory(cfg, readings + [Read(cfg, input)], FullCycle(cfg, Read(cfg, input), st))
  {
    ReadingIsLive(cfg, input, XLM);
    assert (readings + [Read(cfg, input)])[..|readings|] == readings;
  }

  lemma OneMoreTallied(summary: Summary, cfg: Config, reading: Reading, st: State, n: nat)
    requires n < |TRACKED_SYMBOLS| && TalliesUp(summary, cfg, reading, st, n)
    ensures var o := OutcomeFor(cfg, reading, TRACKED_SYMBOLS[n], st);
            TalliesUp(Add(summary, o.result, o.tally), cfg, reading, st, n + 1)
  {
    var o := OutcomeFor(cfg, reading, TRACKED_SYMBOLS[n], st);
    TalliedOnce(cfg, reading, st, n, Published);
    TalliedOnce(cfg, reading, st, n, Skipped);
    TalliedOnce(cfg, reading, st, n, NoPrice);
    TalliedOnce(cfg, reading, st, n, Failed);
    AddCounts(summary, o.result, o.tally);
  }

  lemma TalliedOnce(cfg: Config, reading: Reading, st: State, n: nat, tally: Tally)
    requires n < |TRACKED_SYMBOLS|
    ensures Tallied(cfg, reading, st, n + 1, tally)
         == Tallied(cfg, reading, st, n, tally)
            + if OutcomeFor(cfg, reading, TRACKED_SYMBOLS[n], st).tally == tally then 1 else 0
  {
  }

  lemma AddCounts(summary: Summary, result: Aggregated, tally: Tally)
    ensures var s := Add(summary, result, tally);
            && s.published == summary.published + (if tally == Published then 1 else 0)
            && s.skipped == summary.skipped + (if tally == Skipped then 1 else 0)
            && s.unavailable == summary.unavailable + (if tally == NoPrice then 1 else 0)
            && s.failed == summary.failed + (if tally == Failed then 1 else 0)
            && s.results == summary.results + [result]
  {
  }

  /** When the loop reaches a symbol, the earlier ones have not touched its state. */
  lemma EarlierSymbolsDoNotMatter(cfg: Config, reading: Reading, i: nat, st: State)
    requires i < |TRACKED_SYMBOLS|
    ensures OutcomeFor(cfg, reading, TRACKED_SYMBOLS[i], Cycle(cfg, reading, i, st))
         == OutcomeFor(cfg, reading, TRACKED_SYMBOLS[i], st)
  {
    if i == 1 {
      assert Cycle(cfg, reading, 0, st) == st;
      assert Cycle(cfg, reading, 1, st) == StepSymbol(cfg, reading, XLM, st);
      StepIsLocal(cfg, reading, XLM, BTC, st);
    }
  }
}
