/**
 The decision and the runs of scripts/liquidation-keeper.ts. Prices and values are reals. The
 answers of the chain that the keeper only passes on (threshold, grace period, whether a
 transaction goes through) are inputs of each check.
 */
module LiquidationDecision {
  import opened Common

  const MAX_SAFE_INTEGER: int := 9_007_199_254_740_991

  datatype Position = Position(remainingDue: int, xlmPrice: real, amount: int, decimals: nat, price: real)

  function DebtUsd(p: Position): real {
    p.remainingDue as real / 10_000_000.0 * p.xlmPrice
  }

  function CollateralUsd(p: Position): real {
    p.amount as real / Pow10(p.decimals) as real * p.price
  }

  function ExactLtvBps(p: Position): real
    requires CollateralUsd(p) > 0.0
  {
    DebtUsd(p) / CollateralUsd(p) * 10_000.0
  }

  function ComputeLtvBps(p: Position): int {
    if CollateralUsd(p) <= 0.0 then MAX_SAFE_INTEGER else Round(ExactLtvBps(p))
  }

  predicate ShouldLiquidate(ltvBps: int, thresholdBps: int) {
    ltvBps >= thresholdBps
  }

  /** With collateral, a position is liquidated from half a basis point below the threshold on. */
  lemma DecisionIsExact(p: Position, thresholdBps: int)
    requires CollateralUsd(p) > 0.0
    ensures ShouldLiquidate(ComputeLtvBps(p), thresholdBps) <==> ExactLtvBps(p) >= thresholdBps as real - 0.5
  {
  }

  lemma QuotientOrder(a: real, b: real, c: real, d: real)
    requires 0.0 <= a <= b && 0.0 < d <= c
    ensures a / c <= b / d
  {
    var x, y := a / c, b / d;
    assert x * c == a && y * d == b;
    NonnegativeQuotient(b, d);
    ProductOrder(d, c, y, y);
    assert y * d == d * y && y * c == c * y;
    RealScaledOrder(x, y, c);
  }

  lemma NonnegativeQuotient(a: real, b: real)
    requires b > 0.0
    ensures a >= 0.0 ==> a / b >= 0.0
    ensures a > 0.0 ==> a / b > 0.0
    ensures a <= 0.0 ==> a / b <= 0.0
  {
  }

  /** `q` owes no less, on no more collateral at no higher price. */
  predicate NoSafer(p: Position, q: Position) {
    && q.xlmPrice == p.xlmPrice >= 0.0 && q.decimals == p.decimals
    && 0 <= p.remainingDue <= q.remainingDue
    && 0 <= q.amount <= p.amount && 0.0 <= q.price <= p.price
  }

  lemma NoSaferValues(p: Position, q: Position)
    requires NoSafer(p, q)
    ensures 0.0 <= DebtUsd(p) <= DebtUsd(q) && CollateralUsd(q) <= CollateralUsd(p)
  {
    var unit := Pow10(p.decimals) as real;
    ProductOrder(p.remainingDue as real / 10_000_000.0, q.remainingDue as real / 10_000_000.0, p.xlmPrice, p.xlmPrice);
    QuotientOrder(q.amount as real, p.amount as real, unit, unit);
    NonnegativeQuotient(q.amount as real, unit);
    ProductOrder(q.amount as real / unit, p.amount as real / unit, q.price, p.price);
  }

  lemma ProductOrder(a: real, b: real, c: real, d: real)
    requires 0.0 <= a <= b && 0.0 <= c <= d
    ensures 0.0 <= a * c <= b * d
  {
    assert (b - a) * c >= 0.0 && b * (d - c) >= 0.0;
    assert (b - a) * c == b * c - a * c && b * (d - c) == b * d - b * c;
  }

  /**
   The decision is monotone in the debt and antitone in collateral amount and price, down to no
   collateral at all, for every threshold a JavaScript number can hold exactly.
   */
  lemma DecisionIsMonotone(p: Position, q: Position, thresholdBps: int)
    requires NoSafer(p, q) && thresholdBps <= MAX_SAFE_INTEGER
    requires ShouldLiquidate(ComputeLtvBps(p), thresholdBps)
    ensures ShouldLiquidate(ComputeLtvBps(q), thresholdBps)
  {
    NoSaferValues(p, q);
    if CollateralUsd(q) > 0.0 {
      QuotientOrder(DebtUsd(p), DebtUsd(q), CollateralUsd(p), CollateralUsd(q));
    }
  }

  /**
   The number behind the decision is monotone exactly when some collateral is left, there was
   none before, or the LTV before was below the number that stands for no collateral.
   */
  lemma LtvNumberIsMonotone(p: Position, q: Position)
    requires NoSafer(p, q)
    ensures ComputeLtvBps(p) <= ComputeLtvBps(q)
       <==> || CollateralUsd(q) > 0.0 || CollateralUsd(p) <= 0.0
            || ExactLtvBps(p) < MAX_SAFE_INTEGER as real + 0.5
  {
    NoSaferValues(p, q);
    if CollateralUsd(q) > 0.0 {
      QuotientOrder(DebtUsd(p), DebtUsd(q), CollateralUsd(p), CollateralUsd(q));
    }
  }

  /** It can fall when the last collateral goes. */
  lemma LtvNumberCanFall()
    ensures var p := Position(1_000_000_000_000, 1.0, 1, 7, 1.0);
            var q := p.(amount := 0);
            NoSafer(p, q) && ComputeLtvBps(q) < ComputeLtvBps(p)
  {
    var p := Position(1_000_000_000_000, 1.0, 1, 7, 1.0);
    Pow10Of7();
    assert DebtUsd(p) == 100_000.0;
    assert CollateralUsd(p) == 1.0 / 10_000_000.0;
    assert ExactLtvBps(p) == 10_000_000_000_000_000.0;
  }

  /** With native collateral a positive XLM price cancels out. */
  lemma NativeCollateralIgnoresThePrice(remainingDue: int, amount: int, price: real, other: real)
    requires price > 0.0 && other > 0.0
    ensures ComputeLtvBps(Position(remainingDue, price, amount, 7, price))
         == ComputeLtvBps(Position(remainingDue, other, amount, 7, other))
  {
    var debt, coll := remainingDue as real / 10_000_000.0, amount as real / Pow10(7) as real;
    NativeLtv(remainingDue, amount, price, debt, coll);
    NativeLtv(remainingDue, amount, other, debt, coll);
  }

  lemma NativeLtv(remainingDue: int, amount: int, price: real, debt: real, coll: real)
    requires price > 0.0
    requires debt == remainingDue as real / 10_000_000.0 && coll == amount as real / Pow10(7) as real
    ensures ComputeLtvBps(Position(remainingDue, price, amount, 7, price))
         == if coll > 0.0 then Round(debt / coll * 10_000.0) else MAX_SAFE_INTEGER
  {
    var p := Position(remainingDue, price, amount, 7, price);
    assert DebtUsd(p) == debt * price && CollateralUsd(p) == coll * price;
    PriceKeepsTheSign(coll, price);
    if coll > 0.0 { Cancels(debt, coll, price); }
  }

  lemma PriceKeepsTheSign(coll: real, price: real)
    requires price > 0.0
    ensures coll * price > 0.0 <==> coll > 0.0
  {
    if coll <= 0.0 { RealScaledOrder(coll, 0.0, price); }
  }

  lemma Cancels(a: real, b: real, m: real)
    requires b > 0.0 && m > 0.0
    ensures (a * m) / (b * m) == a / b
  {
    var x := a / b;
    assert x * b == a;
    assert x * (b * m) == a * m;
    assert b * m > 0.0;
    var y := (a * m) / (b * m);
    assert y * (b * m) == a * m;
    assert (x - y) * (b * m) == 0.0;
  }
}

module LiquidationKeeper {
  import opened Common
  import opened LiquidationDecision

  datatype Status = Active | NotActive

  datatype Loan = Loan(status: Status, remainingDue: int, collateralAsset: string, collateralAmount: int)

  datatype AssetPrice = AssetPrice(priceUsd: real, decimals: nat)

  datatype Config = Config(dryRun: bool, hasSigner: bool, xlmPriceUsd: real, priceTable: map<string, AssetPrice>)

  /** How a submission ends: confirmed, without effect, or landed although the call gave up on it. */
  datatype Submission = Confirmed | WithoutEffect | LandedUnseen

  /** What the chain answers during one check; None and false stand for a call that throws. */
  datatype Answers = Answers(readable: bool, thresholdBps: Option<int>, eligible: Option<bool>, submission: Submission)

  /** The loans on chain, and the ids that were marked defaulted, oldest first. */
  datatype World = World(loans: map<nat, Loan>, marks: seq<nat>)

  datatype Tally = Liquidated | Healthy | Skipped | Failed

  /** A positive live price takes precedence over the configured one. */
  function Priced(cfg: Config, livePrice: Option<real>): Config {
    if livePrice.Some? && livePrice.value > 0.0 then cfg.(xlmPriceUsd := livePrice.value) else cfg
  }

  function ResolveAssetPrice(cfg: Config, asset: string): Option<AssetPrice> {
    if asset == "XLM" || asset == "native" then Some(AssetPrice(cfg.xlmPriceUsd, 7))
    else if asset in cfg.priceTable then Some(cfg.priceTable[asset])
    else None
  }

  function PositionOf(cfg: Config, loan: Loan, price: AssetPrice): Position {
    Position(loan.remainingDue, cfg.xlmPriceUsd, loan.collateralAmount, price.decimals, price.priceUsd)
  }

  /** `mark_defaulted` on an active loan. */
  function Mark(w: World, id: nat): World
    requires id in w.loans
  {
    World(w.loans[id := w.loans[id].(status := NotActive)], w.marks + [id])
  }

  /** One candidate: what it counts as, and the world after it. */
  function Check(cfg: Config, id: nat, a: Answers, w: World): (World, Tally) {
    if !a.readable || id !in w.loans then (w, Failed)
    else if w.loans[id].status != Active then (w, Skipped)
    else
      var price := ResolveAssetPrice(cfg, w.loans[id].collateralAsset);
      if price.None? then (w, Skipped)
      else if a.thresholdBps.None? then (w, Failed)
      else if !ShouldLiquidate(ComputeLtvBps(PositionOf(cfg, w.loans[id], price.value)), a.thresholdBps.value) then
        (w, Healthy)
      else if a.eligible.None? then (w, Failed)
      else if !a.eligible.value then (w, Skipped)
      else if cfg.dryRun then (w, Liquidated)
      else if !cfg.hasSigner || a.submission == WithoutEffect then (w, Failed)
      else (Mark(w, id), if a.submission == Confirmed then Liquidated else Failed)
  }

  // ------------------------------------------------------- what a check rests on

  /** A positive live price, or else the configured one. */
  function XlmPrice(config: Config, livePrice: Option<real>): real {
    if livePrice.Some? && livePrice.value > 0.0 then livePrice.value else config.xlmPriceUsd
  }

  predicate IsNative(loan: Loan) {
    loan.collateralAsset in {"XLM", "native"}
  }

  /** There is a price for the loan's collateral. */
  predicate IsPriced(config: Config, loan: Loan) {
    IsNative(loan) || loan.collateralAsset in config.priceTable
  }

  /** What is owed, in stroops, at the XLM price. */
  function OwedUsd(config: Config, livePrice: Option<real>, loan: Loan): real {
    loan.remainingDue as real / 10_000_000.0 * XlmPrice(config, livePrice)
  }

  /** What is held, in units of the collateral's own decimals, at the collateral's own price. */
  function HeldUsd(config: Config, livePrice: Option<real>, loan: Loan): real
    requires IsPriced(config, loan)
  {
    if IsNative(loan) then loan.collateralAmount as real / 10_000_000.0 * XlmPrice(config, livePrice)
    else
      var entry := config.priceTable[loan.collateralAsset];
      loan.collateralAmount as real / Pow10(entry.decimals) as real * entry.priceUsd
  }

  /** The loan-to-value ratio is no lower than half a basis point under the threshold. */
  predicate IsUnderwater(config: Config, livePrice: Option<real>, loan: Loan, thresholdBps: int)
    requires IsPriced(config, loan)
  {
    if HeldUsd(config, livePrice, loan) > 0.0 then
      OwedUsd(config, livePrice, loan) / HeldUsd(config, livePrice, loan) * 10_000.0 >= thresholdBps as real - 0.5
    else thresholdBps <= 9_007_199_254_740_991
  }

  lemma DecisionIsUnderwater(config: Config, livePrice: Option<real>, loan: Loan, thresholdBps: int)
    ensures var cfg := Priced(config, livePrice);
            var price := ResolveAssetPrice(cfg, loan.collateralAsset);
            && (price.Some? <==> IsPriced(config, loan))
            && (price.Some? ==>
                  (ShouldLiquidate(ComputeLtvBps(PositionOf(cfg, loan, price.value)), thresholdBps)
                   <==> IsUnderwater(config, livePrice, loan, thresholdBps)))
  {
    var cfg := Priced(config, livePrice);
    var price := ResolveAssetPrice(cfg, loan.collateralAsset);
    if price.Some? {
      ValuesAreUsd(config, livePrice, loan);
      var p := PositionOf(cfg, loan, price.value);
      if CollateralUsd(p) > 0.0 { DecisionIsExact(p, thresholdBps); }
    }
  }

  lemma ValuesAreUsd(config: Config, livePrice: Option<real>, loan: Loan)
    requires IsPriced(config, loan)
    ensures var cfg := Priced(config, livePrice);
            var price := ResolveAssetPrice(cfg, loan.collateralAsset);
            && price.Some?
            && DebtUsd(PositionOf(cfg, loan, price.value)) == OwedUsd(config, livePrice, loan)
            && CollateralUsd(PositionOf(cfg, loan, price.value)) == HeldUsd(config, livePrice, loan)
  {
    Pow10Of7();
  }

  /** The check gets as far as comparing the loan with its threshold. */
  predicate IsCompared(config: Config, id: nat, a: Answers, w: World) {
    && a.readable && id in w.loans && w.loans[id].status == Active
    && IsPriced(config, w.loans[id]) && a.thresholdBps.Some?
  }

  /** Everything a mark has to rest on. */
  predicate MayBeMarked(config: Config, livePrice: Option<real>, id: nat, a: Answers, w: World) {
    && IsCompared(config, id, a, w) && a.eligible == Some(true)
    && IsUnderwater(config, livePrice, w.loans[id], a.thresholdBps.value)
  }

  /**
   Exactly what a check does, in terms of the configuration, the live price and the loan: its
   tally, and whether the loan is marked. A dry run counts what would be marked, and marks nothing.
   */
  lemma ChecksAreExact(config: Config, livePrice: Option<real>, id: nat, a: Answers, w: World)
    ensures var (after, tally) := Check(Priced(config, livePrice), id, a, w);
            var compared, mayBe := IsCompared(config, id, a, w), MayBeMarked(config, livePrice, id, a, w);
            var marks := mayBe && !config.dryRun && config.hasSigner && a.submission != WithoutEffect;
            && (tally == Healthy
                <==> compared && !IsUnderwater(config, livePrice, w.loans[id], a.thresholdBps.value))
            && (tally == Liquidated
                <==> mayBe && (config.dryRun || (config.hasSigner && a.submission == Confirmed)))
            && (tally == Skipped
                <==> && a.readable && id in w.loans
                     && (|| w.loans[id].status != Active || !IsPriced(config, w.loans[id])
                         || (&& compared && a.eligible == Some(false)
                             && IsUnderwater(config, livePrice, w.loans[id], a.thresholdBps.value))))
            && after == if marks then World(w.loans[id := w.loans[id].(status := NotActive)], w.marks + [id]) else w
  {
    if id in w.loans {
      DecisionIsUnderwater(config, livePrice, w.loans[id], if a.thresholdBps.Some? then a.thresholdBps.value else 0);
    }
  }

  /** The loop over the first `n` candidates. */
  function CheckAll(cfg: Config, ids: seq<nat>, answers: seq<Answers>, n: nat, w: World): World
    requires n <= |ids| == |answers|
  {
    if n == 0 then w else Check(cfg, ids[n - 1], answers[n - 1], CheckAll(cfg, ids, answers, n - 1, w)).0
  }

  // --------------------------------------------------------- over many runs

  /** Marked loans are marked once and are active no more. */
  ghost predicate Sound(w: World) {
    && (forall i, j | 0 <= i < j < |w.marks| :: w.marks[i] != w.marks[j])
    && (forall i | 0 <= i < |w.marks| :: w.marks[i] in w.loans ==> w.loans[w.marks[i]].status != Active)
  }

  datatype Event =
    | KeeperRun(config: Config, livePrice: Option<real>, ids: seq<nat>, answers: seq<Answers>)
    | ChainMoves(loans: map<nat, Loan>)

  /** Elsewhere, loans may come, go and change, but a defaulted loan does not become active again. */
  ghost predicate Possible(w: World, e: Event) {
    match e
    case KeeperRun(_, _, ids, answers) => |ids| == |answers|
    case ChainMoves(loans) =>
      forall i | 0 <= i < |w.marks| :: w.marks[i] in loans ==> loans[w.marks[i]].status != Active
  }

  ghost function After(w: World, e: Event): World
    requires Possible(w, e)
  {
    match e
    case KeeperRun(config, livePrice, ids, answers) => CheckAll(Priced(config, livePrice), ids, answers, |ids|, w)
    case ChainMoves(loans) => w.(loans := loans)
  }

  ghost predicate IsHistory(worlds: seq<World>, events: seq<Event>) {
    && |worlds| == |events| + 1 && worlds[0].marks == []
    && forall i | 0 <= i < |events| :: Possible(worlds[i], events[i]) && worlds[i + 1] == After(worlds[i], events[i])
  }

  lemma CheckIsSound(cfg: Config, id: nat, a: Answers, w: World)
    requires Sound(w)
    ensures Sound(Check(cfg, id, a, w).0) && w.marks <= Check(cfg, id, a, w).0.marks
    ensures cfg.dryRun ==> Check(cfg, id, a, w).0 == w
  {
  }

  lemma {:induction false} CheckAllIsSound(cfg: Config, ids: seq<nat>, answers: seq<Answers>, n: nat, w: World)
    requires n <= |ids| == |answers| && Sound(w)
    ensures Sound(CheckAll(cfg, ids, answers, n, w)) && w.marks <= CheckAll(cfg, ids, answers, n, w).marks
    ensures cfg.dryRun ==> CheckAll(cfg, ids, answers, n, w) == w
  {
    if n > 0 {
      CheckAllIsSound(cfg, ids, answers, n - 1, w);
      CheckIsSound(cfg, ids[n - 1], answers[n - 1], CheckAll(cfg, ids, answers, n - 1, w));
    }
  }

  /** Over any history of runs, with any duplicates among the candidates, no loan is marked twice. */
  lemma {:induction false} NoLoanIsMarkedTwice(worlds: seq<World>, events: seq<Event>, i: nat)
    requires IsHistory(worlds, events) && i <= |events|
    ensures Sound(worlds[i])
  {
    if i > 0 {
      NoLoanIsMarkedTwice(worlds, events, i - 1);
      match events[i - 1] {
        case KeeperRun(config, livePrice, ids, answers) =>
          CheckAllIsSound(Priced(config, livePrice), ids, answers, |ids|, worlds[i - 1]);
        case ChainMoves(loans) =>
      }
    }
  }

  /** Mark number `k` was made by check `n` of the run, which found everything a mark rests on. */
  ghost predicate MarkedBy(config: Config, livePrice: Option<real>, ids: seq<nat>, answers: seq<Answers>, n: nat,
                           w: World, marks: seq<nat>, k: nat)
    requires n < |ids| == |answers| && k < |marks|
  {
    var at := CheckAll(Priced(config, livePrice), ids, answers, n, w);
    && ids[n] == marks[k] && at.marks == marks[..k]
    && MayBeMarked(config, livePrice, ids[n], answers[n], at)
    && answers[n].submission != WithoutEffect && config.hasSigner && !config.dryRun
  }

  lemma {:induction false} NewMarksHaveAReason(config: Config, livePrice: Option<real>, ids: seq<nat>,
                                              answers: seq<Answers>, m: nat, w: World, k: nat)
    returns (n: nat)
    requires m <= |ids| == |answers|
    requires |w.marks| <= k < |CheckAll(Priced(config, livePrice), ids, answers, m, w).marks|
    ensures n < m
    ensures MarkedBy(config, livePrice, ids, answers, n, w,
                     CheckAll(Priced(config, livePrice), ids, answers, m, w).marks, k)
  {
    var at := CheckAll(Priced(config, livePrice), ids, answers, m - 1, w);
    ChecksAreExact(config, livePrice, ids[m - 1], answers[m - 1], at);
    if k < |at.marks| {
      n := NewMarksHaveAReason(config, livePrice, ids, answers, m - 1, w, k);
    } else {
      n := m - 1;
    }
  }

  /**
   Every mark in any history of runs was made by a check, in a run that was not dry, which just
   before found the loan active, priced and past its grace period, and what is owed at the XLM
   price, live if there was a positive one, too much for what is held at the collateral's price.
   */
  lemma {:induction false} EveryMarkIsJustified(worlds: seq<World>, events: seq<Event>, i: nat, k: nat)
    returns (e: nat, n: nat)
    requires IsHistory(worlds, events) && i <= |events| && k < |worlds[i].marks|
    ensures e < i && events[e].KeeperRun? && n < |events[e].ids| == |events[e].answers|
    ensures MarkedBy(events[e].config, events[e].livePrice, events[e].ids, events[e].answers, n, worlds[e],
                     worlds[i].marks, k)
  {
    var before := worlds[i - 1];
    assert worlds[i] == After(before, events[i - 1]);
    NoLoanIsMarkedTwice(worlds, events, i - 1);
    match events[i - 1] {
      case KeeperRun(config, livePrice, ids, answers) =>
        CheckAllIsSound(Priced(config, livePrice), ids, answers, |ids|, before);
      case ChainMoves(loans) =>
    }
    if k < |before.marks| {
      e, n := EveryMarkIsJustified(worlds, events, i - 1, k);
      assert worlds[i].marks[..k] == before.marks[..k];
    } else {
      e := i - 1;
      n := NewMarksHaveAReason(events[e].config, events[e].livePrice, events[e].ids, events[e].answers,
                               |events[e].ids|, before, k);
    }
  }

  // ------------------------------------------------------------------ one run

  datatype Summary = Summary(scanned: nat, liquidated: nat, healthy: nat, skipped: nat, failed: nat)

  /** How many of the first `n` checks ended with a tally. */
  function Tallied(cfg: Config, ids: seq<nat>, answers: seq<Answers>, n: nat, w: World, tally: Tally): nat
    requires n <= |ids| == |answers|
  {
    if n == 0 then 0
    else
      Tallied(cfg, ids, answers, n - 1, w, tally)
      + if Check(cfg, ids[n - 1], answers[n - 1], CheckAll(cfg, ids, answers, n - 1, w)).1 == tally then 1 else 0
  }

  /** The counters are those of the first `n` checks. */
  ghost predicate IsTallied(summary: Summary, cfg: Config, ids: seq<nat>, answers: seq<Answers>, n: nat, w: World)
    requires n <= |ids| == |answers|
  {
    summary == Summary(|ids|, Tallied(cfg, ids, answers, n, w, Liquidated), Tallied(cfg, ids, answers, n, w, Healthy),
                       Tallied(cfg, ids, answers, n, w, Skipped), Tallied(cfg, ids, answers, n, w, Failed))
  }

  class Keeper {
    var loans: map<nat, Loan>
    var marks: seq<nat>

    function View(): World
      reads this
    {
      World(loans, marks)
    }

    constructor (loans: map<nat, Loan>)
      ensures View() == World(loans, [])
    {
      this.loans, this.marks := loans, [];
    }

    /** The body of the loop for one candidate. */
    method CheckCandidate(cfg: Config, id: nat, a: Answers) returns (tally: Tally)
      modifies this
      ensures (View(), tally) == Check(cfg, id, a, old(View()))
    {
      if !a.readable || id !in loans {
        return Failed;
      }
      var loan := loans[id];
      if loan.status != Active {
        return Skipped;
      }
      var price := ResolveAssetPrice(cfg, loan.collateralAsset);
      if price.None? {
        return Skipped;
      }
      if a.thresholdBps.None? {
        return Failed;
      }
      var ltvBps := ComputeLtvBps(PositionOf(cfg, loan, price.value));
      if !ShouldLiquidate(ltvBps, a.thresholdBps.value) {
        return Healthy;
      }
      if a.eligible.None? {
        return Failed;
      }
      if !a.eligible.value {
        return Skipped;
      }
      if cfg.dryRun {
        return Liquidated;
      }
      if !cfg.hasSigner {
        return Failed;
      }
      if a.submission != WithoutEffect {
        loans := loans[id := loan.(status := NotActive)];
        marks := marks + [id];
      }
      if a.submission != Confirmed {
        return Failed;
      }
      return Liquidated;
    }

    method RunLiquidationKeeper(config: Config, livePrice: Option<real>, ids: seq<nat>, answers: seq<Answers>)
      returns (summary: Summary)
      requires |ids| == |answers|
      modifies this
      ensures View() == CheckAll(Priced(config, livePrice), ids, answers, |ids|, old(View()))
      ensures IsTallied(summary, Priced(config, livePrice), ids, answers, |ids|, old(View()))
      ensures summary.scanned == |ids|
           == summary.liquidated + summary.healthy + summary.skipped + summary.failed
      ensures !config.dryRun ==>
                summary.liquidated <= |marks| - |old(marks)| <= summary.liquidated + summary.failed
      ensures !config.dryRun && (forall i | 0 <= i < |answers| :: answers[i].submission != LandedUnseen) ==>
                summary.liquidated == |marks| - |old(marks)|
      ensures config.dryRun ==> View() == old(View())
    {
      var cfg := Priced(config, livePrice);
      ghost var before := View();
      summary := Summary(|ids|, 0, 0, 0, 0);
      for i := 0 to |ids|
        invariant View() == CheckAll(cfg, ids, answers, i, before)
        invariant IsTallied(summary, cfg, ids, answers, i, before)
        invariant summary.liquidated + summary.healthy + summary.skipped + summary.failed == i
        invariant !config.dryRun ==>
                    summary.liquidated <= |marks| - |before.marks| <= summary.liquidated + summary.failed
        invariant !config.dryRun && (forall k | 0 <= k < i :: answers[k].submission != LandedUnseen) ==>
                    summary.liquidated == |marks| - |before.marks|
        invariant config.dryRun ==> View() == before
      {
        ghost var at := View();
        var tally := CheckCandidate(cfg, ids[i], answers[i]);
        CheckEffect(cfg, ids[i], answers[i], at);
        match tally {
          case Liquidated => summary := summary.(liquidated := summary.liquidated + 1);
          case Healthy => summary := summary.(healthy := summary.healthy + 1);
          case Skipped => summary := summary.(skipped := summary.skipped + 1);
          case Failed => summary := summary.(failed := summary.failed + 1);
        }
      }
    }
  }

  lemma CheckEffect(cfg: Config, id: nat, a: Answers, w: World)
    ensures var (after, tally) := Check(cfg, id, a, w);
            && (cfg.dryRun ==> after == w)
            && (!cfg.dryRun ==>
                  && (tally == Liquidated ==> |after.marks| == |w.marks| + 1)
                  && (tally == Failed ==> |w.marks| <= |after.marks| <= |w.marks| + 1)
                  && (tally == Failed && a.submission != LandedUnseen ==> after == w)
                  && (tally == Healthy || tally == Skipped ==> after == w))
  {
  }
}
