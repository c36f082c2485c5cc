/**
 lib/oracle/prices.ts: from raw quotes to the one price to publish. Prices are reals; a number
 that is NaN or infinite is None.
 */
module PriceAggregation {
  import opened Common

  datatype Symbol = XLM | BTC

  const TRACKED_SYMBOLS: seq<Symbol> := [XLM, BTC]

  const DEFAULT_OUTLIER_TOLERANCE_BPS: real := 1_000.0

  datatype Quote = Quote(symbol: Symbol, price: Option<real>, source: string, observedAt: int)

  datatype Cached = Cached(price: real, observedAt: int)

  datatype Origin = Live | FromCache | FromTwap | Unavailable

  /** `ageMs` is None for an infinite age. */
  datatype Aggregated = Aggregated(symbol: Symbol, price: Option<real>, origin: Origin,
                                   contributing: seq<string>, rejected: seq<string>, ageMs: Option<int>)

  predicate IsUsableQuote(q: Quote) {
    q.price.Some? && q.price.value > 0.0
  }

  // --------------------------------------------------------------------- median

  ghost predicate Ascending(s: seq<real>) {
    forall i, j | 0 <= i < j < |s| :: s[i] <= s[j]
  }

  function Insert(x: real, s: seq<real>): (r: seq<real>)
    ensures |r| == |s| + 1
  {
    if s == [] || x <= s[0] then [x] + s else [s[0]] + Insert(x, s[1..])
  }

  function Sort(s: seq<real>): (r: seq<real>)
    ensures |r| == |s|
  {
    if s == [] then [] else Insert(s[0], Sort(s[1..]))
  }

  /** The middle value, or the mean of the two middle values. */
  function Median(values: seq<real>): real
    requires values != []
  {
    var sorted, mid := Sort(values), |values| / 2;
    if |values| % 2 == 0 then (sorted[mid - 1] + sorted[mid]) / 2.0 else sorted[mid]
  }

  /** How many of the values lie in [lo, hi]. */
  function CountIn(s: seq<real>, lo: real, hi: real): (n: nat)
    ensures n <= |s|
  {
    if s == [] then 0 else (if lo <= s[0] <= hi then 1 else 0) + CountIn(s[1..], lo, hi)
  }

  lemma {:induction false} CountInConcat(a: seq<real>, b: seq<real>, lo: real, hi: real)
    ensures CountIn(a + b, lo, hi) == CountIn(a, lo, hi) + CountIn(b, lo, hi)
  {
    if a == [] {
      assert a + b == b;
    } else {
      CountInConcat(a[1..], b, lo, hi);
      assert (a + b)[1..] == a[1..] + b;
    }
  }

  lemma {:induction false} CountInNone(s: seq<real>, lo: real, hi: real)
    requires forall i | 0 <= i < |s| :: s[i] < lo || hi < s[i]
    ensures CountIn(s, lo, hi) == 0
  {
    if s != [] { CountInNone(s[1..], lo, hi); }
  }

  lemma {:induction false} InsertBounds(b: real, x: real, s: seq<real>)
    requires b <= x && forall i | 0 <= i < |s| :: b <= s[i]
    ensures forall i | 0 <= i < |Insert(x, s)| :: b <= Insert(x, s)[i]
  {
    if s != [] && x > s[0] {
      InsertBounds(b, x, s[1..]);
    }
  }

  lemma {:induction false} InsertAscends(x: real, s: seq<real>, lo: real, hi: real)
    requires Ascending(s)
    ensures Ascending(Insert(x, s))
    ensures CountIn(Insert(x, s), lo, hi) == CountIn([x] + s, lo, hi)
  {
    if s != [] && x > s[0] {
      var rest := Insert(x, s[1..]);
      InsertAscends(x, s[1..], lo, hi);
      assert Insert(x, s) == [s[0]] + rest && Insert(x, s)[1..] == rest;
      InsertBounds(s[0], x, s[1..]);
      HeadThenAscending(s[0], rest);
      assert ([x] + s)[1..] == s;
      assert ([x] + s[1..])[1..] == s[1..];
    }
  }

  lemma HeadThenAscending(x: real, s: seq<real>)
    requires Ascending(s) && forall i | 0 <= i < |s| :: x <= s[i]
    ensures Ascending([x] + s)
  {
  }

  lemma {:induction false} SortIsAscending(s: seq<real>, lo: real, hi: real)
    ensures Ascending(Sort(s))
    ensures CountIn(Sort(s), lo, hi) == CountIn(s, lo, hi)
  {
    if s != [] {
      var x, rest := s[0], Sort(s[1..]);
      SortIsAscending(s[1..], lo, hi);
      InsertAscends(x, rest, lo, hi);
      CountInConcat([x], rest, lo, hi);
      assert CountIn([x], lo, hi) == if lo <= x <= hi then 1 else 0;
    }
  }

  /** In an ascending list, a value above the band bounds the count by what precedes it. */
  lemma AboveTheBand(s: seq<real>, k: nat, lo: real, hi: real)
    requires Ascending(s) && k < |s| && s[k] > hi
    ensures CountIn(s, lo, hi) <= k
  {
    var rest := s[k..];
    CountInConcat(s[..k], rest, lo, hi);
    assert s == s[..k] + rest;
    forall i | 0 <= i < |rest| ensures hi < rest[i] { assert rest[i] == s[k + i]; }
    CountInNone(rest, lo, hi);
  }

  /** A value below the band bounds it by what follows. */
  lemma BelowTheBand(s: seq<real>, k: nat, lo: real, hi: real)
    requires Ascending(s) && k < |s| && s[k] < lo
    ensures CountIn(s, lo, hi) <= |s| - k - 1
  {
    var first := s[..k + 1];
    CountInConcat(first, s[k + 1..], lo, hi);
    assert s == first + s[k + 1..];
    forall i | 0 <= i < |first| ensures first[i] < lo { assert first[i] == s[i]; }
    CountInNone(first, lo, hi);
  }

  lemma BandEndsBound(s: seq<real>, k: nat, lo: real, hi: real)
    requires Ascending(s) && k < |s|
    ensures s[k] > hi ==> CountIn(s, lo, hi) <= k
    ensures s[k] < lo ==> CountIn(s, lo, hi) <= |s| - k - 1
  {
    if s[k] > hi { AboveTheBand(s, k, lo, hi); }
    if s[k] < lo { BelowTheBand(s, k, lo, hi); }
  }

  /** If more than half of the values lie in a band, so does their median, whatever the others are. */
  lemma MedianFollowsTheMajority(values: seq<real>, lo: real, hi: real)
    requires 2 * CountIn(values, lo, hi) > |values|
    ensures values != [] && lo <= Median(values) <= hi
  {
    var sorted, mid := Sort(values), |values| / 2;
    SortIsAscending(values, lo, hi);
    BandEndsBound(sorted, mid, lo, hi);
    if |values| % 2 == 0 {
      BandEndsBound(sorted, mid - 1, lo, hi);
    }
  }

  lemma {:induction false} InsertAdds(x: real, s: seq<real>)
    ensures multiset(Insert(x, s)) == multiset{x} + multiset(s)
  {
    if s != [] && x > s[0] {
      InsertAdds(x, s[1..]);
      assert s == [s[0]] + s[1..];
    }
  }

  lemma {:induction false} SortRearranges(s: seq<real>)
    ensures multiset(Sort(s)) == multiset(s)
  {
    if s != [] {
      SortRearranges(s[1..]);
      InsertAdds(s[0], Sort(s[1..]));
      assert s == [s[0]] + s[1..];
    }
  }

  /** A list can be put in ascending order in one way only. */
  lemma {:induction false} AscendingIsUnique(a: seq<real>, b: seq<real>)
    requires Ascending(a) && Ascending(b) && multiset(a) == multiset(b)
    ensures a == b
  {
    assert |a| == |multiset(a)| == |b|;
    if a != [] {
      SmallestFirst(a, b);
      SmallestFirst(b, a);
      assert a == [a[0]] + a[1..] && b == [b[0]] + b[1..];
      assert multiset(a[1..]) == multiset(a) - multiset{a[0]};
      assert multiset(b[1..]) == multiset(b) - multiset{b[0]};
      AscendingIsUnique(a[1..], b[1..]);
    }
  }

  lemma SmallestFirst(a: seq<real>, b: seq<real>)
    requires a != [] && b != [] && Ascending(b) && multiset(a) == multiset(b)
    ensures b[0] <= a[0]
  {
    assert a[0] in multiset(b);
  }

  /** The median of any list, from any ascending arrangement of it: the middle, or the mean of the two middles. */
  lemma MedianOfAnyOrder(values: seq<real>, sorted: seq<real>)
    requires values != [] && Ascending(sorted) && multiset(sorted) == multiset(values)
    ensures |sorted| == |values|
    ensures Median(values) == if |sorted| % 2 == 1 then sorted[|sorted| / 2]
                              else (sorted[|sorted| / 2 - 1] + sorted[|sorted| / 2]) / 2.0
  {
    SortRearranges(values);
    SortIsAscending(values, 0.0, 0.0);
    AscendingIsUnique(sorted, Sort(values));
  }

  lemma FirstLieInTheBand(s: seq<real>, a: nat, lo: real, hi: real)
    requires a <= |s| && forall i | 0 <= i < a :: lo <= s[i] <= hi
    ensures CountIn(s, lo, hi) >= a
  {
    CountInConcat(s[..a], s[a..], lo, hi);
    assert s == s[..a] + s[a..];
    AllIn(s[..a], lo, hi);
  }

  lemma LastLieInTheBand(s: seq<real>, a: nat, lo: real, hi: real)
    requires a <= |s| && forall i | a <= i < |s| :: lo <= s[i] <= hi
    ensures CountIn(s, lo, hi) >= |s| - a
  {
    CountInConcat(s[..a], s[a..], lo, hi);
    assert s == s[..a] + s[a..];
    forall i | 0 <= i < |s| - a ensures lo <= s[a..][i] <= hi { assert s[a..][i] == s[a + i]; }
    AllIn(s[a..], lo, hi);
  }

  /** In an ascending list, the values up to `x` are the first few, and `x` is the last of them. */
  lemma LastOfTheLower(s: seq<real>, k: nat, lo: real, x: real)
    requires Ascending(s) && x in s && CountIn(s, lo, x) == k && forall i | 0 <= i < |s| :: lo <= s[i]
    ensures 1 <= k <= |s| && s[k - 1] == x
  {
    var a :| 0 <= a < |s| && s[a] == x;
    FirstLieInTheBand(s, a + 1, lo, x);
    BandEndsBound(s, k - 1, lo, x);
  }

  lemma FirstOfTheUpper(s: seq<real>, k: nat, y: real, hi: real)
    requires Ascending(s) && y in s && CountIn(s, y, hi) == k && forall i | 0 <= i < |s| :: s[i] <= hi
    ensures 1 <= k <= |s| && s[|s| - k] == y
  {
    var a :| 0 <= a < |s| && s[a] == y;
    LastLieInTheBand(s, a, y, hi);
    BandEndsBound(s, |s| - k, y, hi);
  }

  /** If half of the values are at most `x` and the other half at least `y`, the median is their mean. */
  lemma MedianByRank(values: seq<real>, k: nat, x: real, y: real, lo: real, hi: real)
    requires |values| == 2 * k && x in values && y in values
    requires forall i | 0 <= i < |values| :: lo <= values[i] <= hi
    requires CountIn(values, lo, x) == k && CountIn(values, y, hi) == k
    ensures values != [] && Median(values) == (x + y) / 2.0
  {
    SortIsAscending(values, lo, x);
    SortIsAscending(values, y, hi);
    SameMembers(values, lo, hi);
    LastOfTheLower(Sort(values), k, lo, x);
    FirstOfTheUpper(Sort(values), k, y, hi);
    MiddlesOfEven(values, k, Sort(values));
  }

  lemma SameMembers(values: seq<real>, lo: real, hi: real)
    requires forall i | 0 <= i < |values| :: lo <= values[i] <= hi
    ensures forall x :: x in values <==> x in Sort(values)
    ensures forall i | 0 <= i < |Sort(values)| :: lo <= Sort(values)[i] <= hi
  {
    SortRearranges(values);
    assert forall x :: x in values <==> x in multiset(values);
    assert forall x :: x in Sort(values) <==> x in multiset(Sort(values));
    forall i | 0 <= i < |Sort(values)| ensures lo <= Sort(values)[i] <= hi {
      assert Sort(values)[i] in values;
    }
  }

  lemma MiddlesOfEven(values: seq<real>, k: nat, sorted: seq<real>)
    requires |values| == 2 * k > 0 && sorted == Sort(values)
    ensures Median(values) == (sorted[k - 1] + sorted[k]) / 2.0
  {
    Halves(|values|, k);
  }

  lemma Halves(n: int, k: int)
    requires n == 2 * k
    ensures n % 2 == 0 && n / 2 == k
  {
  }

  lemma MedianOfTwo(a: real, b: real)
    ensures Median([a, b]) == (a + b) / 2.0
  {
    MedianOfAnyOrder([a, b], if a <= b then [a, b] else [b, a]);
  }

  // ------------------------------------------------------------------- outliers

  ghost predicate AllUsable(quotes: seq<Quote>) {
    forall i | 0 <= i < |quotes| :: IsUsableQuote(quotes[i])
  }

  function Prices(quotes: seq<Quote>): (r: seq<real>)
    ensures |r| == |quotes|
  {
    if quotes == [] then []
    else [if quotes[0].price.Some? then quotes[0].price.value else 0.0] + Prices(quotes[1..])
  }

  function Abs(x: real): real {
    if x < 0.0 then -x else x
  }

  predicate IsOutlier(price: Option<real>, median: real, toleranceBps: real)
    requires median > 0.0
  {
    price.Some? && Abs(price.value - median) / median * 10_000.0 > toleranceBps
  }

  function Filtered(quotes: seq<Quote>, median: real, toleranceBps: real, outliers: bool): (r: seq<Quote>)
    requires median > 0.0
    ensures |r| <= |quotes| && (AllUsable(quotes) ==> AllUsable(r))
  {
    if quotes == [] then []
    else
      var rest := Filtered(quotes[1..], median, toleranceBps, outliers);
      if IsOutlier(quotes[0].price, median, toleranceBps) == outliers then [quotes[0]] + rest else rest
  }

  lemma {:induction false} PricesArePositive(quotes: seq<Quote>)
    requires AllUsable(quotes)
    ensures forall i | 0 <= i < |quotes| :: Prices(quotes)[i] == quotes[i].price.value > 0.0
  {
    if quotes != [] { PricesArePositive(quotes[1..]); }
  }

  lemma {:induction false} AllIn(s: seq<real>, lo: real, hi: real)
    requires forall i | 0 <= i < |s| :: lo <= s[i] <= hi
    ensures CountIn(s, lo, hi) == |s|
  {
    if s != [] { AllIn(s[1..], lo, hi); }
  }

  /** The largest of some positive prices; only its existence matters. */
  function Highest(s: seq<real>): (h: real)
    ensures forall i | 0 <= i < |s| :: s[i] <= h
  {
    if s == [] then 0.0
    else
      var rest := Highest(s[1..]);
      if s[0] > rest then s[0] else rest
  }

  function Lowest(s: seq<real>): (l: real)
    requires s != []
    ensures l in s && forall i | 0 <= i < |s| :: l <= s[i]
  {
    if |s| == 1 then s[0]
    else
      var rest := Lowest(s[1..]);
      if s[0] < rest then s[0] else rest
  }

  lemma MedianIsPositive(quotes: seq<Quote>)
    requires AllUsable(quotes) && quotes != []
    ensures Median(Prices(quotes)) > 0.0
  {
    var prices := Prices(quotes);
    PricesArePositive(quotes);
    AllIn(prices, Lowest(prices), Highest(prices));
    MedianFollowsTheMajority(prices, Lowest(prices), Highest(prices));
  }

  datatype Split = Split(kept: seq<Quote>, rejected: seq<Quote>)

  /** With two quotes or fewer, or when everything is an outlier, nothing is rejected. */
  function RejectOutliers(quotes: seq<Quote>, toleranceBps: real): (r: Split)
    requires AllUsable(quotes)
    ensures quotes != [] ==> r.kept != []
    ensures AllUsable(r.kept)
  {
    if |quotes| <= 2 then Split(quotes, [])
    else
      MedianIsPositive(quotes);
      var median := Median(Prices(quotes));
      var kept := Filtered(quotes, median, toleranceBps, false);
      if kept != [] then Split(kept, Filtered(quotes, median, toleranceBps, true)) else Split(quotes, [])
  }

  lemma NextFiltered(quotes: seq<Quote>, i: nat, done: seq<Quote>, median: real, toleranceBps: real, outliers: bool)
    requires median > 0.0 && i < |quotes|
    ensures done + Filtered(quotes[i..], median, toleranceBps, outliers)
         == (if IsOutlier(quotes[i].price, median, toleranceBps) == outliers then done + [quotes[i]] else done)
            + Filtered(quotes[i + 1..], median, toleranceBps, outliers)
  {
    assert quotes[i..][1..] == quotes[i + 1..];
  }

  /** The loop of `rejectOutliers`. */
  method PartitionOutliers(quotes: seq<Quote>, toleranceBps: real) returns (r: Split)
    requires AllUsable(quotes)
    ensures r == RejectOutliers(quotes, toleranceBps)
  {
    if |quotes| <= 2 {
      return Split(quotes, []);
    }
    MedianIsPositive(quotes);
    var groupMedian := Median(Prices(quotes));
    var kept, rejected := [], [];
    for i := 0 to |quotes|
      invariant kept + Filtered(quotes[i..], groupMedian, toleranceBps, false)
             == Filtered(quotes, groupMedian, toleranceBps, false)
      invariant rejected + Filtered(quotes[i..], groupMedian, toleranceBps, true)
             == Filtered(quotes, groupMedian, toleranceBps, true)
    {
      NextFiltered(quotes, i, kept, groupMedian, toleranceBps, false);
      NextFiltered(quotes, i, rejected, groupMedian, toleranceBps, true);
      if IsOutlier(quotes[i].price, groupMedian, toleranceBps) {
        rejected := rejected + [quotes[i]];
      } else {
        kept := kept + [quotes[i]];
      }
    }
    return if kept != [] then Split(kept, rejected) else Split(quotes, []);
  }

  // ---------------------------------------------------------------- aggregation

  predicate Counts(q: Quote, symbol: Symbol, now: int, maxStalenessMs: int) {
    IsUsableQuote(q) && q.symbol == symbol && now - q.observedAt <= maxStalenessMs
  }

  function Usable(quotes: seq<Quote>, symbol: Symbol, now: int, maxStalenessMs: int): (r: seq<Quote>)
    ensures forall i | 0 <= i < |r| :: r[i] in quotes && Counts(r[i], symbol, now, maxStalenessMs)
    ensures r == [] ==> forall q | q in quotes :: !Counts(q, symbol, now, maxStalenessMs)
  {
    if quotes == [] then []
    else
      var rest := Usable(quotes[1..], symbol, now, maxStalenessMs);
      if Counts(quotes[0], symbol, now, maxStalenessMs) then [quotes[0]] + rest else rest
  }

  function Sources(quotes: seq<Quote>): seq<string> {
    seq(|quotes|, i requires 0 <= i < |quotes| => quotes[i].source)
  }

  function Oldest(quotes: seq<Quote>): (t: int)
    requires quotes != []
    ensures (exists i | 0 <= i < |quotes| :: quotes[i].observedAt == t)
    ensures forall i | 0 <= i < |quotes| :: t <= quotes[i].observedAt
  {
    if |quotes| == 1 then quotes[0].observedAt else Min(quotes[0].observedAt, Oldest(quotes[1..]))
  }

  /** The price of a live result. */
  function LivePrice(usable: seq<Quote>, toleranceBps: real): real
    requires AllUsable(usable) && usable != []
  {
    Median(Prices(RejectOutliers(usable, toleranceBps).kept))
  }

  function FreshCache(cached: Option<Cached>, now: int, maxStalenessMs: int): bool {
    cached.Some? && cached.value.price > 0.0 && now - cached.value.observedAt <= maxStalenessMs
  }

  /** What the sources that responded say about one symbol. */
  datatype LiveReading = LiveReading(price: real, contributing: seq<string>, rejected: seq<string>, oldest: int)

  function ReadLive(usable: seq<Quote>, toleranceBps: real): (r: Option<LiveReading>)
    requires AllUsable(usable)
    ensures r.None? <==> usable == []
    ensures r.Some? ==> r.value.price == LivePrice(usable, toleranceBps) > 0.0
  {
    if usable == [] then None
    else
      var split := RejectOutliers(usable, toleranceBps);
      MedianIsPositive(split.kept);
      Some(LiveReading(LivePrice(usable, toleranceBps), Sources(split.kept), Sources(split.rejected),
                       Oldest(split.kept)))
  }

  /** Live median, then the cached price, then the TWAP, then nothing. */
  function FallBack(symbol: Symbol, live: Option<LiveReading>, now: int, maxStalenessMs: int,
                    cached: Option<Cached>, twap: Option<real>): Aggregated
  {
    if live.Some? then
      Aggregated(symbol, Some(live.value.price), Live, live.value.contributing, live.value.rejected,
                 Some(now - live.value.oldest))
    else if FreshCache(cached, now, maxStalenessMs) then
      Aggregated(symbol, Some(cached.value.price), FromCache, [], [], Some(now - cached.value.observedAt))
    else if twap.Some? && twap.value > 0.0 then
      Aggregated(symbol, twap, FromTwap, [], [], Some(0))
    else
      Aggregated(symbol, None, Unavailable, [], [],
                 if cached.Some? then Some(now - cached.value.observedAt) else None)
  }

  function AggregatePrice(symbol: Symbol, quotes: seq<Quote>, now: int, maxStalenessMs: int, toleranceBps: real,
                          cached: Option<Cached>, twap: Option<real>): Aggregated
  {
    FallBack(symbol, ReadLive(Usable(quotes, symbol, now, maxStalenessMs), toleranceBps),
             now, maxStalenessMs, cached, twap)
  }

  lemma {:induction false} FilteredMembers(quotes: seq<Quote>, median: real, toleranceBps: real, outliers: bool)
    requires median > 0.0
    ensures forall i | 0 <= i < |Filtered(quotes, median, toleranceBps, outliers)| ::
              var q := Filtered(quotes, median, toleranceBps, outliers)[i];
              q in quotes && IsOutlier(q.price, median, toleranceBps) == outliers
  {
    if quotes != [] { FilteredMembers(quotes[1..], median, toleranceBps, outliers); }
  }

  /** What stays within tolerance of a median keeps every quote of a narrow band around it. */
  lemma {:induction false} FilterKeepsTheBand(quotes: seq<Quote>, median: real, toleranceBps: real, lo: real, hi: real)
    requires AllUsable(quotes) && 0.0 < lo <= median <= hi
    requires (hi - lo) * 10_000.0 <= toleranceBps * lo
    ensures CountIn(Prices(Filtered(quotes, median, toleranceBps, false)), lo, hi) == CountIn(Prices(quotes), lo, hi)
  {
    if quotes != [] {
      FilterKeepsTheBand(quotes[1..], median, toleranceBps, lo, hi);
      var p := quotes[0].price.value;
      assert Prices(quotes)[1..] == Prices(quotes[1..]);
      if lo <= p <= hi {
        NarrowBandIsKept(p, median, toleranceBps, lo, hi);
      }
      var kept := Filtered(quotes, median, toleranceBps, false);
      if kept != Filtered(quotes[1..], median, toleranceBps, false) {
        assert kept[1..] == Filtered(quotes[1..], median, toleranceBps, false);
        assert Prices(kept)[1..] == Prices(kept[1..]);
      }
    }
  }

  lemma NarrowBandIsKept(p: real, median: real, toleranceBps: real, lo: real, hi: real)
    requires 0.0 < lo <= median <= hi && lo <= p <= hi
    requires (hi - lo) * 10_000.0 <= toleranceBps * lo
    ensures !IsOutlier(Some(p), median, toleranceBps)
  {
    var d := Abs(p - median);
    assert d <= hi - lo;
    RealScaledOrder(0.0, toleranceBps, lo);
    assert 0.0 <= toleranceBps;
    if lo < median { RealScaledOrder(0.0, toleranceBps, median - lo); }
    assert toleranceBps * (median - lo) == toleranceBps * median - toleranceBps * lo;
    RatioBound(d, median, toleranceBps);
  }

  lemma RatioBound(d: real, median: real, toleranceBps: real)
    requires median > 0.0
    ensures d / median * 10_000.0 <= toleranceBps <==> d * 10_000.0 <= toleranceBps * median
  {
    var bps := d / median * 10_000.0;
    assert bps * median == d * 10_000.0 by { assert d / median * median == d; }
    RealScaledOrder(bps, toleranceBps, median);
  }

  /**
   A minority of bad sources cannot move the price: if more than half of the usable quotes lie
   in [lo, hi], the live price lies in [lo, hi] widened by the outlier tolerance, and in
   [lo, hi] itself when the band is no wider than the tolerance.
   */
  lemma LivePriceFollowsTheMajority(usable: seq<Quote>, toleranceBps: real, lo: real, hi: real)
    requires AllUsable(usable) && 0.0 <= toleranceBps && 0.0 < lo
    requires 2 * CountIn(Prices(usable), lo, hi) > |usable|
    ensures usable != []
    ensures lo * (10_000.0 - toleranceBps) <= LivePrice(usable, toleranceBps) * 10_000.0
         <= hi * (10_000.0 + toleranceBps)
    ensures (hi - lo) * 10_000.0 <= toleranceBps * lo ==> lo <= LivePrice(usable, toleranceBps) <= hi
  {
    var median := Median(Prices(usable));
    MedianFollowsTheMajority(Prices(usable), lo, hi);
    var kept := RejectOutliers(usable, toleranceBps).kept;
    if kept == usable {
      WidenedBand(median, median, toleranceBps, lo, hi);
    } else {
      MajorityOfKept(usable, toleranceBps, lo, hi);
    }
  }

  lemma WidenedBand(price: real, median: real, toleranceBps: real, lo: real, hi: real)
    requires 0.0 <= toleranceBps && 0.0 < lo <= median <= hi
    requires median * (10_000.0 - toleranceBps) <= price * 10_000.0 <= median * (10_000.0 + toleranceBps)
          || price == median
    requires price > 0.0
    ensures lo * (10_000.0 - toleranceBps) <= price * 10_000.0 <= hi * (10_000.0 + toleranceBps)
  {
    assert median * toleranceBps >= 0.0;
    assert median * (10_000.0 + toleranceBps) <= hi * (10_000.0 + toleranceBps);
    if toleranceBps <= 10_000.0 {
      assert lo * (10_000.0 - toleranceBps) <= median * (10_000.0 - toleranceBps);
    } else {
      assert lo * (10_000.0 - toleranceBps) <= 0.0;
    }
  }

  lemma MajorityOfKept(usable: seq<Quote>, toleranceBps: real, lo: real, hi: real)
    requires AllUsable(usable) && 0.0 <= toleranceBps && |usable| > 2
    requires 0.0 < lo <= Median(Prices(usable)) <= hi
    requires 2 * CountIn(Prices(usable), lo, hi) > |usable|
    requires RejectOutliers(usable, toleranceBps).kept != usable
    ensures lo * (10_000.0 - toleranceBps) <= LivePrice(usable, toleranceBps) * 10_000.0
         <= hi * (10_000.0 + toleranceBps)
    ensures (hi - lo) * 10_000.0 <= toleranceBps * lo ==> lo <= LivePrice(usable, toleranceBps) <= hi
  {
    var median := Median(Prices(usable));
    var kept := Filtered(usable, median, toleranceBps, false);
    var low, high := median * (10_000.0 - toleranceBps) / 10_000.0, median * (10_000.0 + toleranceBps) / 10_000.0;
    FilteredMembers(usable, median, toleranceBps, false);
    PricesArePositive(kept);
    forall i | 0 <= i < |kept| ensures low <= Prices(kept)[i] <= high {
      RatioBound(Abs(Prices(kept)[i] - median), median, toleranceBps);
    }
    AllIn(Prices(kept), low, high);
    MedianFollowsTheMajority(Prices(kept), low, high);
    MedianIsPositive(kept);
    WidenedBand(LivePrice(usable, toleranceBps), median, toleranceBps, lo, hi);
    if (hi - lo) * 10_000.0 <= toleranceBps * lo {
      FilterKeepsTheBand(usable, median, toleranceBps, lo, hi);
      MedianFollowsTheMajority(Prices(kept), lo, hi);
    }
  }

  // ------------------------------------------------------------ what each part says

  /** Within the tolerance of the median, without the division. */
  predicate IsWithin(q: Quote, median: real, toleranceBps: real) {
    q.price.Some? ==> Abs(q.price.value - median) * 10_000.0 <= toleranceBps * median
  }

  lemma {:induction false} FilteredIsExact(quotes: seq<Quote>, median: real, toleranceBps: real, outliers: bool,
                                           q: Quote)
    requires median > 0.0
    ensures multiset(Filtered(quotes, median, toleranceBps, outliers))[q]
         == if IsWithin(q, median, toleranceBps) != outliers then multiset(quotes)[q] else 0
  {
    if quotes != [] {
      FilteredIsExact(quotes[1..], median, toleranceBps, outliers, q);
      assert quotes == [quotes[0]] + quotes[1..];
      OutlierIsBeyond(quotes[0], median, toleranceBps);
    }
  }

  lemma OutlierIsBeyond(q: Quote, median: real, toleranceBps: real)
    requires median > 0.0
    ensures IsOutlier(q.price, median, toleranceBps) <==> !IsWithin(q, median, toleranceBps)
  {
    if q.price.Some? { RatioBound(Abs(q.price.value - median), median, toleranceBps); }
  }

  lemma ConsConcat(q: Quote, a: seq<Quote>, b: seq<Quote>)
    ensures [q] + (a + b) == [q] + a + b
  {
  }

  /** Filtering keeps the order: it takes a list apart anywhere. */
  lemma {:induction false} FilteredInOrder(a: seq<Quote>, b: seq<Quote>, median: real, toleranceBps: real,
                                           outliers: bool)
    requires median > 0.0
    ensures Filtered(a + b, median, toleranceBps, outliers)
         == Filtered(a, median, toleranceBps, outliers) + Filtered(b, median, toleranceBps, outliers)
  {
    if a == [] {
      assert a + b == b;
    } else {
      FilteredInOrder(a[1..], b, median, toleranceBps, outliers);
      assert (a + b)[1..] == a[1..] + b && (a + b)[0] == a[0];
      ConsConcat(a[0], Filtered(a[1..], median, toleranceBps, outliers), Filtered(b, median, toleranceBps, outliers));
    }
  }

  /**
   Exactly which quotes are rejected: among three or more, those beyond the tolerance of the
   median, unless that would be all of them.
   */
  lemma OutliersAreExact(quotes: seq<Quote>, toleranceBps: real, q: Quote)
    requires AllUsable(quotes) && |quotes| > 2
    ensures var median, split := Median(Prices(quotes)), RejectOutliers(quotes, toleranceBps);
            var rejects := exists r | r in quotes :: IsWithin(r, median, toleranceBps);
            && multiset(split.kept)[q]
               == (if rejects && !IsWithin(q, median, toleranceBps) then 0 else multiset(quotes)[q])
            && multiset(split.rejected)[q]
               == (if rejects && !IsWithin(q, median, toleranceBps) then multiset(quotes)[q] else 0)
  {
    MedianIsPositive(quotes);
    var median := Median(Prices(quotes));
    FilteredIsExact(quotes, median, toleranceBps, false, q);
    FilteredIsExact(quotes, median, toleranceBps, true, q);
    var kept := Filtered(quotes, median, toleranceBps, false);
    if kept != [] {
      FilteredIsExact(quotes, median, toleranceBps, false, kept[0]);
      assert kept[0] in multiset(kept);
      assert kept[0] in multiset(quotes) && IsWithin(kept[0], median, toleranceBps);
    }
    forall r | r in quotes && IsWithin(r, median, toleranceBps) ensures r in multiset(kept) {
      FilteredIsExact(quotes, median, toleranceBps, false, r);
      assert r in multiset(quotes);
    }
  }

  /** One or two quotes are never rejected, and two are averaged. */
  lemma TwoQuotesAreAveraged(a: Quote, b: Quote, toleranceBps: real)
    requires IsUsableQuote(a) && IsUsableQuote(b)
    ensures LivePrice([a, b], toleranceBps) == (a.price.value + b.price.value) / 2.0
  {
    PricesArePositive([a, b]);
    assert Prices([a, b]) == [a.price.value, b.price.value];
    MedianOfTwo(a.price.value, b.price.value);
  }

  /** The live price from any ascending arrangement of the prices that are not rejected. */
  lemma LivePriceIsTheMedian(usable: seq<Quote>, toleranceBps: real, sorted: seq<real>)
    requires AllUsable(usable) && usable != [] && Ascending(sorted)
    requires multiset(sorted) == multiset(Prices(RejectOutliers(usable, toleranceBps).kept))
    ensures sorted != []
    ensures LivePrice(usable, toleranceBps) == if |sorted| % 2 == 1 then sorted[|sorted| / 2]
                                               else (sorted[|sorted| / 2 - 1] + sorted[|sorted| / 2]) / 2.0
  {
    MedianOfAnyOrder(Prices(RejectOutliers(usable, toleranceBps).kept), sorted);
  }

  /** Exactly which quotes count: positive prices of the symbol that are not stale, each as often as it came. */
  lemma {:induction false} UsableIsExact(quotes: seq<Quote>, symbol: Symbol, now: int, maxStalenessMs: int, q: Quote)
    ensures multiset(Usable(quotes, symbol, now, maxStalenessMs))[q]
         == if q.price.Some? && q.price.value > 0.0 && q.symbol == symbol && now - q.observedAt <= maxStalenessMs
            then multiset(quotes)[q] else 0
  {
    if quotes != [] {
      UsableIsExact(quotes[1..], symbol, now, maxStalenessMs, q);
      assert quotes == [quotes[0]] + quotes[1..];
    }
  }

  lemma {:induction false} UsableInOrder(a: seq<Quote>, b: seq<Quote>, symbol: Symbol, now: int, maxStalenessMs: int)
    ensures Usable(a + b, symbol, now, maxStalenessMs)
         == Usable(a, symbol, now, maxStalenessMs) + Usable(b, symbol, now, maxStalenessMs)
  {
    if a == [] {
      assert a + b == b;
    } else {
      UsableInOrder(a[1..], b, symbol, now, maxStalenessMs);
      assert (a + b)[1..] == a[1..] + b && (a + b)[0] == a[0];
      ConsConcat(a[0], Usable(a[1..], symbol, now, maxStalenessMs), Usable(b, symbol, now, maxStalenessMs));
    }
  }

  /**
   What a result says about itself. A live one carries the live price, names the sources of the
   quotes that were kept and rejected, and is as old as the oldest kept quote; a cached one carries
   the cached price and its age, a TWAP the TWAP; only then is there no price.
   */
  lemma ResultsSayWhereTheyCameFrom(symbol: Symbol, quotes: seq<Quote>, now: int, maxStalenessMs: int,
                                    toleranceBps: real, cached: Option<Cached>, twap: Option<real>)
    ensures var r, usable := AggregatePrice(symbol, quotes, now, maxStalenessMs, toleranceBps, cached, twap),
                             Usable(quotes, symbol, now, maxStalenessMs);
            var isCached := cached.Some? && cached.value.price > 0.0 && now - cached.value.observedAt <= maxStalenessMs;
            var split := RejectOutliers(usable, toleranceBps);
            && r.symbol == symbol
            && (usable != [] ==>
                  && r.origin == Live && r.price == Some(LivePrice(usable, toleranceBps))
                  && SourcesOf(r.contributing, split.kept) && SourcesOf(r.rejected, split.rejected)
                  && r.ageMs.Some? && IsOldest(now - r.ageMs.value, split.kept))
            && (usable == [] ==> r.contributing == [] && r.rejected == [])
            && (usable == [] && isCached ==>
                  && r.origin == FromCache && r.price == Some(cached.value.price)
                  && r.ageMs == Some(now - cached.value.observedAt))
            && (usable == [] && !isCached ==>
                  if twap.Some? && twap.value > 0.0 then r.origin == FromTwap && r.price == twap && r.ageMs == Some(0)
                  else && r.origin == Unavailable && r.price.None?
                       && r.ageMs == (if cached.Some? then Some(now - cached.value.observedAt) else None))
  {
  }

  ghost predicate SourcesOf(sources: seq<string>, quotes: seq<Quote>) {
    |sources| == |quotes| && forall i | 0 <= i < |quotes| :: sources[i] == quotes[i].source
  }

  ghost predicate IsOldest(t: int, quotes: seq<Quote>) {
    && (exists i | 0 <= i < |quotes| :: quotes[i].observedAt == t)
    && (forall i | 0 <= i < |quotes| :: t <= quotes[i].observedAt)
  }

  // ----------------------------------------------------- publishing and conversion

  const PRICE_PRECISION: real := 10_000_000.0
  const MIN_CHANGE_BPS: real := 25.0
  const MAX_PUBLISH_INTERVAL_MS: int := 60_000

  /** None stands for the error thrown on a price that is not positive. */
  function ToChainPrice(price: real): Option<int> {
    if price <= 0.0 then None else Some(Round(price * PRICE_PRECISION))
  }

  /** The change test is written without the division, which is by a positive price. */
  predicate ShouldPublish(next: Aggregated, lastPublished: Option<Cached>, now: int) {
    && next.price.Some?
    && (lastPublished.None?
        || now - lastPublished.value.observedAt >= MAX_PUBLISH_INTERVAL_MS
        || Abs(next.price.value - lastPublished.value.price) * 10_000.0
           >= MIN_CHANGE_BPS * lastPublished.value.price)
  }

  function FromChainPrice(chainPrice: int): real {
    chainPrice as real / PRICE_PRECISION
  }

  /**
   The integer on chain is the nearest to the price, so a TWAP read back from the chain converts
   to itself; a positive price below half a unit of the seventh decimal goes on chain as zero.
   */
  lemma ChainPriceIsNearest(price: real, chainPrice: int)
    ensures price > 0.0 ==>
              && ToChainPrice(price).Some?
              && -0.5 <= ToChainPrice(price).value as real - price * 10_000_000.0 <= 0.5
              && (ToChainPrice(price).value == 0 <==> price < 0.000_000_05)
    ensures ToChainPrice(price).None? <==> price <= 0.0
    ensures chainPrice > 0 ==> ToChainPrice(FromChainPrice(chainPrice)) == Some(chainPrice)
  {
    if chainPrice > 0 {
      assert FromChainPrice(chainPrice) * PRICE_PRECISION == chainPrice as real;
    }
  }
}
