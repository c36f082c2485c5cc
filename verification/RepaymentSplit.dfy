/**
 Where a repayment goes: the platform's part and the lenders' part of
 components/dashboard/BorrowerRepayWidget.tsx, and the pro-rata split of the latter in
 lib/loans/funding.ts. Amounts are exact, in stroops.
 */
module RepaymentSplit {
  import opened Common
  import opened Rounding

  datatype Cuts = Cuts(lender: int, platform: int)

  /** `platformFee` and `totalDue` of the whole loan; the fee part of one repayment is proportional. */
  function SplitFee(amount: int, platformFee: int, totalDue: int, hasWallet: bool): Cuts {
    if hasWallet && platformFee > 0 && totalDue > 0 then
      var platform := RoundDiv(platformFee * amount, totalDue);
      Cuts(amount - platform, platform)
    else Cuts(amount, 0)
  }

  /** The two parts are nonnegative and add up to the repayment. */
  lemma FeeSplitIsExact(amount: int, platformFee: int, totalDue: int, hasWallet: bool)
    requires amount >= 0 && platformFee <= totalDue
    ensures var c := SplitFee(amount, platformFee, totalDue, hasWallet);
            c.lender + c.platform == amount && 0 <= c.platform <= amount
  {
    if hasWallet && platformFee > 0 && totalDue > 0 {
      assert platformFee * amount >= 0;
      assert (totalDue - platformFee) * amount >= 0;
      assert (totalDue - platformFee) * amount == totalDue * amount - platformFee * amount;
      RoundDivRange(platformFee * amount, totalDue, amount);
    }
  }

  /**
   The platform's part of one repayment is within half a stroop of the fee's share of what is due,
   and nothing without a wallet, a fee or anything due.
   */
  lemma FeeIsNearest(amount: int, platformFee: int, totalDue: int, hasWallet: bool)
    ensures var platform := SplitFee(amount, platformFee, totalDue, hasWallet).platform;
            if hasWallet && platformFee > 0 && totalDue > 0
            then -totalDue <= 2 * (totalDue * platform - platformFee * amount) <= totalDue
            else platform == 0
  {
    if totalDue > 0 { RoundDivIsNearest(platformFee * amount, totalDue); }
  }

  /** The platform's part of each installment. */
  function FeeParts(installments: seq<int>, platformFee: int, totalDue: int): (r: seq<int>)
    ensures |r| == |installments|
    ensures forall i | 0 <= i < |installments| ::
              r[i] == SplitFee(installments[i], platformFee, totalDue, true).platform
  {
    seq(|installments|, i requires 0 <= i < |installments| =>
      SplitFee(installments[i], platformFee, totalDue, true).platform)
  }

  /** Installments that pay off the loan collect its fee to within half a stroop each. */
  lemma InstallmentsCollectTheFee(installments: seq<int>, platformFee: int, totalDue: int)
    requires platformFee > 0 && totalDue > 0 && Sum(installments) == totalDue
    ensures -|installments| <= 2 * (Sum(FeeParts(installments, platformFee, totalDue)) - platformFee) <= |installments|
  {
    var parts := RoundedParts(platformFee, installments, totalDue);
    assert FeeParts(installments, platformFee, totalDue) == parts;
    RoundedPartsSum(platformFee, installments, totalDue);
    CollectedNearFee(Sum(parts), platformFee, totalDue, |installments|);
  }

  lemma CollectedNearFee(collected: int, platformFee: int, totalDue: int, n: int)
    requires totalDue > 0
    requires -(n * totalDue) <= 2 * (totalDue * collected - platformFee * totalDue) <= n * totalDue
    ensures -n <= 2 * (collected - platformFee) <= n
  {
    assert totalDue * collected - platformFee * totalDue == totalDue * (collected - platformFee);
    ScaledBound(collected - platformFee, n, totalDue);
  }

  // ------------------------------------------------------------- across the lenders

  datatype Lender = Lender(address: string, contribution: int)

  datatype Payout = Payout(address: string, contribution: int, payout: int)

  function Valid(lenders: seq<Lender>): (r: seq<Lender>)
    ensures forall i | 0 <= i < |r| :: r[i].contribution > 0
  {
    if lenders == [] then []
    else if lenders[0].contribution > 0 then [lenders[0]] + Valid(lenders[1..])
    else Valid(lenders[1..])
  }

  function Contributions(lenders: seq<Lender>): (r: seq<int>)
    ensures |r| == |lenders| && forall i | 0 <= i < |lenders| :: r[i] == lenders[i].contribution
  {
    seq(|lenders|, i requires 0 <= i < |lenders| => lenders[i].contribution)
  }

  /** The first of the largest contributions. */
  function Largest(contributions: seq<int>): (m: nat)
    requires contributions != []
    ensures m < |contributions|
    ensures forall i | 0 <= i < |contributions| :: contributions[i] <= contributions[m]
    ensures forall i | 0 <= i < m :: contributions[i] < contributions[m]
  {
    if |contributions| == 1 then 0
    else
      var n := |contributions| - 1;
      var best := Largest(contributions[..n]);
      if contributions[n] > contributions[best] then n else best
  }

  lemma {:induction false} SumOfPositives(s: seq<int>)
    requires forall i | 0 <= i < |s| :: s[i] > 0
    ensures Sum(s) >= |s|
  {
    if s != [] { SumOfPositives(s[1..]); }
  }

  /** Every share rounded, then the drift given to the largest contributor. */
  function Reconciled(amount: int, contributions: seq<int>): (r: seq<int>)
    requires contributions != [] && Sum(contributions) > 0
    ensures |r| == |contributions|
  {
    var shares, m := RoundedParts(amount, contributions, Sum(contributions)), Largest(contributions);
    shares[m := shares[m] + (amount - Sum(shares))]
  }

  /** Those who get something; a payment of nothing would be refused. */
  function Paid(lenders: seq<Lender>, payouts: seq<int>): seq<Payout>
    requires |lenders| == |payouts|
  {
    if lenders == [] then []
    else
      var rest := Paid(lenders[1..], payouts[1..]);
      if payouts[0] > 0 then [Payout(lenders[0].address, lenders[0].contribution, payouts[0])] + rest else rest
  }

  function SplitAcrossLenders(amount: int, lenders: seq<Lender>): seq<Payout> {
    var valid := Valid(lenders);
    if valid == [] || amount <= 0 then []
    else
      SumOfPositives(Contributions(valid));
      Paid(valid, Reconciled(amount, Contributions(valid)))
  }

  function TotalPaid(payouts: seq<Payout>): int {
    if payouts == [] then 0 else payouts[0].payout + TotalPaid(payouts[1..])
  }

  /** What the rounded shares of everyone but the largest contributor come to. */
  function OthersShare(amount: int, contributions: seq<int>): int
    requires contributions != [] && Sum(contributions) > 0
  {
    var shares, m := RoundedParts(amount, contributions, Sum(contributions)), Largest(contributions);
    Sum(shares[..m]) + Sum(shares[m + 1..])
  }

  lemma ReconciledSum(amount: int, contributions: seq<int>)
    requires contributions != [] && Sum(contributions) > 0
    ensures Sum(Reconciled(amount, contributions)) == amount
    ensures Reconciled(amount, contributions)[Largest(contributions)] == amount - OthersShare(amount, contributions)
  {
    var shares, m := RoundedParts(amount, contributions, Sum(contributions)), Largest(contributions);
    var r := Reconciled(amount, contributions);
    SumAround(shares, m);
    SumAround(r, m);
    assert r[..m] == shares[..m] && r[m + 1..] == shares[m + 1..];
  }

  function Clipped(payouts: seq<int>): (r: seq<int>)
    ensures |r| == |payouts| && forall i | 0 <= i < |payouts| :: r[i] == Max(0, payouts[i])
  {
    seq(|payouts|, i requires 0 <= i < |payouts| => Max(0, payouts[i]))
  }

  lemma {:induction false} PaidTotal(lenders: seq<Lender>, payouts: seq<int>)
    requires |lenders| == |payouts|
    ensures TotalPaid(Paid(lenders, payouts)) == Sum(Clipped(payouts))
    ensures forall i | 0 <= i < |Paid(lenders, payouts)| :: Paid(lenders, payouts)[i].payout > 0
  {
    if lenders != [] {
      PaidTotal(lenders[1..], payouts[1..]);
      assert Clipped(payouts)[1..] == Clipped(payouts[1..]);
      if payouts[0] > 0 {
        assert Paid(lenders, payouts)[1..] == Paid(lenders[1..], payouts[1..]);
      }
    }
  }

  lemma SumOfUpdate(s: seq<int>, m: nat, x: int)
    requires m < |s|
    ensures Sum(s[m := x]) == Sum(s) - s[m] + x
  {
    SumAround(s, m);
    SumAround(s[m := x], m);
  }

  /** Where at most one amount is negative, leaving it out adds it to the total. */
  lemma ClippedSum(payouts: seq<int>, m: nat)
    requires m < |payouts| && forall i | 0 <= i < |payouts| && i != m :: payouts[i] >= 0
    ensures Sum(Clipped(payouts)) == Sum(payouts) - Min(0, payouts[m])
  {
    var raised := payouts[m := Max(0, payouts[m])];
    assert Clipped(payouts) == raised;
    SumOfUpdate(payouts, m, Max(0, payouts[m]));
  }

  lemma SharesAreNonnegative(amount: int, contributions: seq<int>, total: int)
    requires amount > 0 && total > 0 && forall i | 0 <= i < |contributions| :: contributions[i] > 0
    ensures forall i | 0 <= i < |contributions| :: RoundedParts(amount, contributions, total)[i] >= 0
  {
    forall i | 0 <= i < |contributions| ensures RoundedParts(amount, contributions, total)[i] >= 0 {
      var a := amount * contributions[i];
      assert a > 0 && total * a >= a;
      RoundDivRange(a, total, a);
    }
  }

  /**
   The payouts add up to the lenders' part or to the rounded shares of all but the largest
   contributor, whichever is more; so they are exact if and only if those shares do not already
   exceed the part. Otherwise the largest contributor's payout would be negative and is dropped.
   */
  lemma PayoutsAddUp(amount: int, lenders: seq<Lender>)
    requires amount > 0 && Valid(lenders) != []
    ensures var cs, total := Contributions(Valid(lenders)), TotalPaid(SplitAcrossLenders(amount, lenders));
            && Sum(cs) > 0
            && total == Max(amount, OthersShare(amount, cs))
            && (total == amount <==> OthersShare(amount, cs) <= amount)
  {
    var valid := Valid(lenders);
    var cs := Contributions(valid);
    SumOfPositives(cs);
    var r := Reconciled(amount, cs);
    PaidTotal(valid, r);
    OnlyTheLargestCanOwe(amount, cs);
    ClippedSum(r, Largest(cs));
  }

  lemma OnlyTheLargestCanOwe(amount: int, cs: seq<int>)
    requires amount > 0 && cs != [] && Sum(cs) > 0 && forall i | 0 <= i < |cs| :: cs[i] > 0
    ensures Sum(Reconciled(amount, cs)) == amount
    ensures Reconciled(amount, cs)[Largest(cs)] == amount - OthersShare(amount, cs)
    ensures forall i | 0 <= i < |cs| && i != Largest(cs) :: Reconciled(amount, cs)[i] >= 0
  {
    ReconciledSum(amount, cs);
    SharesAreNonnegative(amount, cs, Sum(cs));
  }

  lemma {:induction false} SumAtMost(s: seq<int>, top: int)
    requires forall i | 0 <= i < |s| :: s[i] <= top
    ensures Sum(s) <= |s| * top
  {
    if s != [] {
      SumAtMost(s[1..], top);
      assert |s| * top == top + (|s| - 1) * top;
    }
  }

  function Others(s: seq<int>, m: nat): seq<int>
    requires m < |s|
  {
    s[..m] + s[m + 1..]
  }

  lemma OthersAreRounded(amount: int, cs: seq<int>)
    requires cs != [] && Sum(cs) > 0
    ensures var (t, m) := (Sum(cs), Largest(cs));
            && OthersShare(amount, cs) == Sum(RoundedParts(amount, Others(cs, m), t))
            && Sum(Others(cs, m)) == t - cs[m] && |Others(cs, m)| == |cs| - 1
  {
    var t, m := Sum(cs), Largest(cs);
    var shares := RoundedParts(amount, cs, t);
    SumAround(cs, m);
    SumConcat(cs[..m], cs[m + 1..]);
    SumConcat(shares[..m], shares[m + 1..]);
    assert RoundedParts(amount, Others(cs, m), t) == shares[..m] + shares[m + 1..];
  }

  /**
   A part of at least (n - 1) * (n / 2 - 1) stroops, n / 2 rounded down, is always split exactly
   among n lenders; for the 99 lenders that fit in a transaction, 4704 stroops.
   */
  lemma EnoughToSplitExactly(amount: int, lenders: seq<Lender>)
    requires amount > 0 && Valid(lenders) != []
    requires amount >= EnoughFor(|Valid(lenders)|)
    ensures TotalPaid(SplitAcrossLenders(amount, lenders)) == amount
  {
    EnoughForOthers(amount, Contributions(Valid(lenders)));
    PayoutsAddUp(amount, lenders);
  }

  function EnoughFor(n: int): int {
    (n - 1) * (n / 2 - 1)
  }

  lemma EnoughForOthers(amount: int, cs: seq<int>)
    requires cs != [] && amount > 0 && amount >= EnoughFor(|cs|)
    requires forall i | 0 <= i < |cs| :: cs[i] > 0
    ensures Sum(cs) > 0 && OthersShare(amount, cs) <= amount
  {
    SumOfPositives(cs);
    OthersAreRounded(amount, cs);
    SharesFit(amount, Others(cs, Largest(cs)), |cs|, Sum(cs), cs[Largest(cs)]);
  }

  /** If the others' shares exceeded the amount, all shares would be small, and so would their sum. */
  lemma SharesFit(amount: int, others: seq<int>, n: int, t: int, c: int)
    requires amount > 0 && t > 0 && n == |others| + 1 && Sum(others) == t - c && amount >= EnoughFor(n)
    requires forall i | 0 <= i < |others| :: others[i] <= c
    ensures Sum(RoundedParts(amount, others, t)) <= amount
  {
    var most, o := RoundDiv(amount * c, t), Sum(RoundedParts(amount, others, t));
    SharesAreAtMost(amount, others, t, c);
    RoundedPartsSum(amount, others, t);
    RoundDivIsNearest(amount * c, t);
    RoomForOthers(amount, n, t, c, o, most);
    OthersFit(amount, n, o, most);
  }

  lemma SharesAreAtMost(amount: int, others: seq<int>, t: int, c: int)
    requires amount > 0 && t > 0 && forall i | 0 <= i < |others| :: others[i] <= c
    ensures Sum(RoundedParts(amount, others, t)) <= |others| * RoundDiv(amount * c, t)
  {
    forall i | 0 <= i < |others| ensures RoundedParts(amount, others, t)[i] <= RoundDiv(amount * c, t) {
      ScaledOrder(others[i], c, amount);
      RoundDivIsMonotone(amount * others[i], amount * c, t);
    }
    SumAtMost(RoundedParts(amount, others, t), RoundDiv(amount * c, t));
  }

  lemma RoomForOthers(amount: int, n: int, t: int, c: int, o: int, most: int)
    requires t > 0 && 2 * (t * o - amount * (t - c)) <= (n - 1) * t && 2 * (t * most) <= 2 * (amount * c) + t
    ensures 2 * o + 2 * most <= 2 * amount + n
  {
    assert amount * (t - c) == t * amount - amount * c;
    assert (n - 1) * t == t * n - t;
    Doubled(t, o, most, 0);
    Doubled(t, amount, 0, n);
    ScaledOrder(2 * o + 2 * most, 2 * amount + n, t);
  }

  lemma Doubled(t: int, a: int, b: int, n: int)
    ensures t * (2 * a + 2 * b + n) == 2 * (t * a) + 2 * (t * b) + t * n
  {
  }

  lemma OthersFit(amount: int, n: int, o: int, most: int)
    requires n >= 1 && amount >= EnoughFor(n)
    requires 2 * o + 2 * most <= 2 * amount + n && o <= (n - 1) * most
    ensures o <= amount
  {
    if most <= n / 2 - 1 {
      SumOfSmall(n - 1, most, n / 2 - 1);
    }
  }

  lemma SumOfSmall(n: int, a: int, b: int)
    requires 0 <= n && a <= b
    ensures n * a <= n * b
  {
    if n > 0 { ScaledOrder(a, b, n); }
  }

  // ----------------------------------------------------------------- equal lenders

  ghost predicate AllEqual(cs: seq<int>, c: int) {
    forall i | 0 <= i < |cs| :: cs[i] == c
  }

  lemma {:induction false} SumOfEquals(s: seq<int>, c: int)
    requires AllEqual(s, c)
    ensures Sum(s) == |s| * c
  {
    if s != [] {
      SumOfEquals(s[1..], c);
      assert |s| * c == c + (|s| - 1) * c;
    }
  }

  lemma {:induction false} AllAreValid(lenders: seq<Lender>)
    requires forall i | 0 <= i < |lenders| :: lenders[i].contribution > 0
    ensures Valid(lenders) == lenders
  {
    if lenders != [] { AllAreValid(lenders[1..]); }
  }

  /** Equal lenders are paid what all but one of them should get, if that is more than the part. */
  lemma EqualLendersTotal(amount: int, lenders: seq<Lender>, c: int)
    requires amount > 0 && c > 0 && lenders != []
    requires forall i | 0 <= i < |lenders| :: lenders[i].contribution == c
    ensures TotalPaid(SplitAcrossLenders(amount, lenders))
         == Max(amount, (|lenders| - 1) * RoundDiv(amount, |lenders|))
  {
    AllAreValid(lenders);
    PayoutsAddUp(amount, lenders);
    EqualShares(amount, Contributions(lenders), c);
  }

  lemma EqualShares(amount: int, cs: seq<int>, c: int)
    requires c > 0 && cs != [] && AllEqual(cs, c)
    ensures Sum(cs) > 0 && OthersShare(amount, cs) == (|cs| - 1) * RoundDiv(amount, |cs|)
  {
    SumOfEquals(cs, c);
    assert |cs| * c > 0;
    OthersAreRounded(amount, cs);
    EqualParts(amount, Others(cs, Largest(cs)), |cs|, c);
  }

  lemma EqualParts(amount: int, others: seq<int>, n: int, c: int)
    requires n > 0 && c > 0 && AllEqual(others, c)
    ensures n * c > 0 && Sum(RoundedParts(amount, others, n * c)) == |others| * RoundDiv(amount, n)
  {
    RoundDivScales(amount, n, c);
    assert amount * c == c * amount && n * c == c * n;
    var parts := RoundedParts(amount, others, n * c);
    assert AllEqual(parts, RoundDiv(amount, n));
    SumOfEquals(parts, RoundDiv(amount, n));
  }

  /**
   Among n equal lenders a part is split exactly if and only if its n-th rounds down, or its
   quotient and remainder by n add up to at least n - 1.
   */
  lemma EqualLendersExactly(amount: int, lenders: seq<Lender>, c: int)
    requires amount > 0 && c > 0 && lenders != []
    requires forall i | 0 <= i < |lenders| :: lenders[i].contribution == c
    ensures var n := |lenders|;
            TotalPaid(SplitAcrossLenders(amount, lenders)) == amount
            <==> 2 * (amount % n) < n || amount / n + amount % n >= n - 1
  {
    EqualLendersTotal(amount, lenders, c);
    ExactByRemainder(amount, |lenders|);
  }

  lemma ExactByRemainder(amount: int, n: int)
    requires amount > 0 && n > 0
    ensures (n - 1) * RoundDiv(amount, n) <= amount <==> 2 * (amount % n) < n || amount / n + amount % n >= n - 1
  {
    RoundDivByRemainder(amount, n);
    AllButOne(amount, n, amount / n, amount % n);
  }

  lemma AllButOne(amount: int, n: int, q: int, r: int)
    requires amount == n * q + r && 0 <= r < n && 0 <= q
    ensures (n - 1) * q <= amount
    ensures (n - 1) * (q + 1) <= amount <==> q + r >= n - 1
  {
    assert (n - 1) * q == n * q - q && (n - 1) * (q + 1) == n * q - q + n - 1;
  }

  lemma RoundDivByRemainder(a: int, n: int)
    requires n > 0
    ensures a == n * (a / n) + a % n
    ensures RoundDiv(a, n) == a / n + if 2 * (a % n) < n then 0 else 1
  {
    var q := a / n + if 2 * (a % n) < n then 0 else 1;
    assert n * (a / n + 1) == n * (a / n) + n;
    NearestIsRoundDiv(a, n, q);
  }

  /**
   The bound is the least possible: one stroop less is overpaid by a stroop among equal lenders.
   For odd n every share is strictly over a half, for even n it is a tie.
   */
  lemma EnoughIsSharp(lenders: seq<Lender>, c: int)
    requires |lenders| >= 4 && c > 0
    requires forall i | 0 <= i < |lenders| :: lenders[i].contribution == c
    ensures EnoughFor(|lenders|) - 1 > 0
    ensures TotalPaid(SplitAcrossLenders(EnoughFor(|lenders|) - 1, lenders)) == EnoughFor(|lenders|)
  {
    var n := |lenders|;
    EnoughIsLarge(n);
    EqualLendersTotal(EnoughFor(n) - 1, lenders, c);
  }

  lemma EnoughIsLarge(n: int)
    requires n >= 4
    ensures EnoughFor(n) > 1 && RoundDiv(EnoughFor(n) - 1, n) == n / 2 - 1
  {
    var h := n / 2 - 1;
    assert EnoughFor(n) == n * h - h;
    assert (n - 1) * h >= n - 1 by { ScaledOrder(1, h, n - 1); }
    NearestIsRoundDiv(EnoughFor(n) - 1, n, h);
  }

  /** `payout` is within `halves` half stroops of the exact share, amount * c / total; scaled by the total. */
  predicate Near(payout: int, amount: int, c: int, total: int, halves: int) {
    -(halves * total) <= 2 * (total * payout - amount * c) <= halves * total
  }

  /** Before the payouts of nothing are dropped. */
  lemma ReconciledIsFair(amount: int, cs: seq<int>, i: nat)
    requires cs != [] && Sum(cs) > 0 && i < |cs|
    ensures Near(Reconciled(amount, cs)[i], amount, cs[i], Sum(cs), if i == Largest(cs) then |cs| - 1 else 1)
  {
    if i == Largest(cs) {
      LargestIsFair(amount, cs);
    } else {
      RoundDivIsNearest(amount * cs[i], Sum(cs));
    }
  }

  lemma LargestIsFair(amount: int, cs: seq<int>)
    requires cs != [] && Sum(cs) > 0
    ensures Near(Reconciled(amount, cs)[Largest(cs)], amount, cs[Largest(cs)], Sum(cs), |cs| - 1)
  {
    var m := Largest(cs);
    ReconciledSum(amount, cs);
    OthersAreRounded(amount, cs);
    RestOfTheAmount(Sum(cs), amount, cs[m], Others(cs, m));
  }

  lemma RestOfTheAmount(t: int, amount: int, c: int, others: seq<int>)
    requires t > 0 && Sum(others) == t - c
    ensures Near(amount - Sum(RoundedParts(amount, others, t)), amount, c, t, |others|)
  {
    RoundedPartsSum(amount, others, t);
    NearFromTheOtherSide(t, amount, c, Sum(RoundedParts(amount, others, t)), |others|);
  }

  lemma NearFromTheOtherSide(t: int, amount: int, c: int, o: int, n: int)
    requires -(n * t) <= 2 * (t * o - amount * (t - c)) <= n * t
    ensures Near(amount - o, amount, c, t, n)
  {
    assert t * (amount - o) == t * amount - t * o;
    assert amount * (t - c) == amount * t - amount * c;
  }

  /** Payout `k` is that of lender `places[k]`, and the places are in order. */
  ghost predicate PaidAt(lenders: seq<Lender>, paid: seq<Payout>, places: seq<nat>) {
    && |places| == |paid|
    && (forall k | 0 <= k < |places| :: places[k] < |lenders|
          && lenders[places[k]] == Lender(paid[k].address, paid[k].contribution))
    && (forall k, l | 0 <= k < l < |places| :: places[k] < places[l])
  }

  lemma {:induction false} PlacesOfPaid(lenders: seq<Lender>, payouts: seq<int>) returns (places: seq<nat>)
    requires |lenders| == |payouts|
    ensures PaidAt(lenders, Paid(lenders, payouts), places)
    ensures PayoutsAt(payouts, Paid(lenders, payouts), places)
  {
    places := [];
    if lenders != [] {
      var paid := Paid(lenders[1..], payouts[1..]);
      var rest := PlacesOfPaid(lenders[1..], payouts[1..]);
      places := seq(|rest|, k requires 0 <= k < |rest| => rest[k] + 1);
      MovedPlaces(lenders, payouts, paid, rest, places);
      if payouts[0] > 0 {
        FirstPlace(lenders, payouts, paid, places);
        places := [0] + places;
      }
    }
  }

  /** Exactly the positive payouts have a place. */
  ghost predicate PayoutsAt(payouts: seq<int>, paid: seq<Payout>, places: seq<nat>) {
    && |places| == |paid|
    && (forall k | 0 <= k < |places| :: places[k] < |payouts| && paid[k].payout == payouts[places[k]])
    && (forall i | 0 <= i < |payouts| :: i in places <==> payouts[i] > 0)
  }

  lemma MovedPlaces(lenders: seq<Lender>, payouts: seq<int>, paid: seq<Payout>, rest: seq<nat>, moved: seq<nat>)
    requires |lenders| == |payouts| > 0
    requires PaidAt(lenders[1..], paid, rest) && PayoutsAt(payouts[1..], paid, rest)
    requires |moved| == |rest| && forall k | 0 <= k < |rest| :: moved[k] == rest[k] + 1
    ensures PaidAt(lenders, paid, moved)
    ensures forall k | 0 <= k < |moved| :: 0 < moved[k] < |payouts| && paid[k].payout == payouts[moved[k]]
    ensures forall i | 0 < i < |payouts| :: i in moved <==> payouts[i] > 0
  {
    forall i | 0 < i < |payouts| ensures i in moved <==> payouts[i] > 0 {
      assert payouts[1..][i - 1] == payouts[i];
      if i - 1 in rest {
        var k :| 0 <= k < |rest| && rest[k] == i - 1;
        assert moved[k] == i;
      }
    }
  }

  lemma FirstPlace(lenders: seq<Lender>, payouts: seq<int>, paid: seq<Payout>, places: seq<nat>)
    requires |lenders| == |payouts| > 0 && payouts[0] > 0 && PaidAt(lenders, paid, places)
    requires forall k | 0 <= k < |places| :: 0 < places[k] < |payouts| && paid[k].payout == payouts[places[k]]
    requires forall i | 0 < i < |payouts| :: i in places <==> payouts[i] > 0
    ensures var all := [Payout(lenders[0].address, lenders[0].contribution, payouts[0])] + paid;
            PaidAt(lenders, all, [0] + places) && PayoutsAt(payouts, all, [0] + places)
  {
    var first := Payout(lenders[0].address, lenders[0].contribution, payouts[0]);
    FirstIsPaid(lenders, first, paid, places);
    PositivesHavePlaces(payouts, first, paid, places);
  }

  lemma FirstIsPaid(lenders: seq<Lender>, first: Payout, paid: seq<Payout>, places: seq<nat>)
    requires lenders != [] && lenders[0] == Lender(first.address, first.contribution) && PaidAt(lenders, paid, places)
    requires forall k | 0 <= k < |places| :: 0 < places[k]
    ensures PaidAt(lenders, [first] + paid, [0] + places)
  {
  }

  lemma PositivesHavePlaces(payouts: seq<int>, first: Payout, paid: seq<Payout>, places: seq<nat>)
    requires payouts != [] && first.payout == payouts[0] > 0 && |paid| == |places|
    requires forall k | 0 <= k < |places| :: 0 < places[k] < |payouts| && paid[k].payout == payouts[places[k]]
    requires forall i | 0 < i < |payouts| :: i in places <==> payouts[i] > 0
    ensures PayoutsAt(payouts, [first] + paid, [0] + places)
  {
    var all, at := [first] + paid, [0] + places;
    forall k | 0 <= k < |at| ensures at[k] < |payouts| && all[k].payout == payouts[at[k]] {
      if k > 0 { assert at[k] == places[k - 1] && all[k] == paid[k - 1]; }
    }
    assert forall i :: i in at <==> i == 0 || i in places;
  }

  /**
   Fairness: the payouts are those of some of the lenders, in order. Every lender, one who is
   left out counting as paid nothing, is within half a stroop of the exact pro-rata share, and
   the largest of n within (n - 1) / 2 stroops.
   */
  lemma PayoutsAreFair(amount: int, lenders: seq<Lender>) returns (places: seq<nat>)
    requires amount > 0 && Valid(lenders) != []
    ensures AllFair(amount, Valid(lenders), SplitAcrossLenders(amount, lenders), places)
  {
    var valid := Valid(lenders);
    var r := SharesBeforeDropping(amount, lenders);
    places := PlacesOfPaid(valid, r);
    PaidAreFair(amount, valid, r, Paid(valid, r), places);
  }

  lemma SharesBeforeDropping(amount: int, lenders: seq<Lender>) returns (r: seq<int>)
    requires amount > 0 && Valid(lenders) != []
    ensures Sum(Contributions(Valid(lenders))) > 0
    ensures |r| == |Valid(lenders)| && SplitAcrossLenders(amount, lenders) == Paid(Valid(lenders), r)
    ensures forall i | 0 <= i < |r| :: IsFair(amount, Valid(lenders), i, Max(0, r[i]))
  {
    var valid := Valid(lenders);
    SumOfPositives(Contributions(valid));
    r := Reconciled(amount, Contributions(valid));
    forall i | 0 <= i < |valid| ensures IsFair(amount, valid, i, Max(0, r[i])) {
      EachIsFair(amount, valid, i);
    }
  }

  ghost predicate AllFair(amount: int, valid: seq<Lender>, paid: seq<Payout>, places: seq<nat>) {
    && Sum(Contributions(valid)) > 0 && PaidAt(valid, paid, places)
    && (forall k | 0 <= k < |places| :: paid[k].payout > 0 && IsFair(amount, valid, places[k], paid[k].payout))
    && (forall i | 0 <= i < |valid| && i !in places :: IsFair(amount, valid, i, 0))
  }

  lemma PaidAreFair(amount: int, valid: seq<Lender>, r: seq<int>, paid: seq<Payout>, places: seq<nat>)
    requires |r| == |valid| && Sum(Contributions(valid)) > 0
    requires PaidAt(valid, paid, places) && PayoutsAt(r, paid, places)
    requires forall i | 0 <= i < |valid| :: IsFair(amount, valid, i, Max(0, r[i]))
    ensures AllFair(amount, valid, paid, places)
  {
    forall k | 0 <= k < |places| ensures IsFair(amount, valid, places[k], paid[k].payout) && paid[k].payout > 0 {
      assert places[k] in places && IsFair(amount, valid, places[k], Max(0, r[places[k]]));
    }
    forall i | 0 <= i < |valid| && i !in places ensures IsFair(amount, valid, i, 0) {
      assert IsFair(amount, valid, i, Max(0, r[i]));
    }
  }

  lemma EachIsFair(amount: int, valid: seq<Lender>, i: nat)
    requires amount > 0 && i < |valid| && forall k | 0 <= k < |valid| :: valid[k].contribution > 0
    ensures Sum(Contributions(valid)) > 0
    ensures IsFair(amount, valid, i, Max(0, Reconciled(amount, Contributions(valid))[i]))
  {
    var cs := Contributions(valid);
    SumOfPositives(cs);
    var r := Reconciled(amount, cs);
    ReconciledIsFair(amount, cs, i);
    NothingIsNear(r[i], amount, cs[i], Sum(cs), if i == Largest(cs) then |cs| - 1 else 1);
  }

  ghost predicate IsFair(amount: int, valid: seq<Lender>, i: nat, payout: int)
    requires i < |valid| && Sum(Contributions(valid)) > 0
  {
    var cs := Contributions(valid);
    Near(payout, amount, cs[i], Sum(cs), if i == Largest(cs) then |cs| - 1 else 1)
  }

  /** A payout that is raised to nothing stays near the share. */
  lemma NothingIsNear(payout: int, amount: int, c: int, total: int, halves: int)
    requires total > 0 && halves >= 0 && amount > 0 && c > 0 && Near(payout, amount, c, total, halves)
    ensures Near(Max(0, payout), amount, c, total, halves)
  {
    if payout <= 0 {
      assert total * payout <= 0 by { ScaledOrder(payout, 0, total); }
      assert amount * c > 0;
      assert halves * total >= 0;
    }
  }

  /** Three stroops among five equal lenders: each share, 0.6, rounds up to one, and four are paid. */
  lemma DustIsOverpaid()
    ensures var l := Lender("G", 1);
            TotalPaid(SplitAcrossLenders(3, [l, l, l, l, l])) == 4
  {
    var l := Lender("G", 1);
    assert EnoughFor(5) == 4;
    EnoughIsSharp([l, l, l, l, l], 1);
  }

  /** The lenders that are kept are those with a positive contribution, each once and in order. */
  ghost predicate KeptAt(lenders: seq<Lender>, kept: seq<Lender>, places: seq<nat>) {
    && |places| == |kept|
    && (forall k | 0 <= k < |places| :: places[k] < |lenders| && lenders[places[k]] == kept[k])
    && (forall k, l | 0 <= k < l < |places| :: places[k] < places[l])
    && (forall i | 0 <= i < |lenders| :: i in places <==> lenders[i].contribution > 0)
  }

  /** The places in the rest of the list, in the list. */
  ghost predicate KeptLater(lenders: seq<Lender>, kept: seq<Lender>, places: seq<nat>) {
    && |places| == |kept|
    && (forall k | 0 <= k < |places| :: 0 < places[k] < |lenders| && lenders[places[k]] == kept[k])
    && (forall k, l | 0 <= k < l < |places| :: places[k] < places[l])
    && (forall i | 0 < i < |lenders| :: i in places <==> lenders[i].contribution > 0)
  }

  lemma KeptMoves(lenders: seq<Lender>, kept: seq<Lender>, rest: seq<nat>, moved: seq<nat>)
    requires lenders != [] && KeptAt(lenders[1..], kept, rest)
    requires |moved| == |rest| && forall k | 0 <= k < |rest| :: moved[k] == rest[k] + 1
    ensures KeptLater(lenders, kept, moved)
  {
    forall i | 0 < i < |lenders| ensures i in moved <==> lenders[i].contribution > 0 {
      assert lenders[1..][i - 1] == lenders[i];
      if i - 1 in rest {
        var k :| 0 <= k < |rest| && rest[k] == i - 1;
        assert moved[k] == i;
      }
    }
  }

  lemma FirstIsKept(lenders: seq<Lender>, kept: seq<Lender>, places: seq<nat>)
    requires lenders != [] && lenders[0].contribution > 0 && KeptLater(lenders, kept, places)
    ensures KeptAt(lenders, [lenders[0]] + kept, [0] + places)
  {
    var all, at := [lenders[0]] + kept, [0] + places;
    forall k | 0 <= k < |at| ensures at[k] < |lenders| && lenders[at[k]] == all[k] {
      if k > 0 { assert at[k] == places[k - 1] && all[k] == kept[k - 1]; }
    }
    assert forall i :: i in at <==> i == 0 || i in places;
  }

  lemma FirstIsDropped(lenders: seq<Lender>, kept: seq<Lender>, places: seq<nat>)
    requires lenders != [] && lenders[0].contribution <= 0 && KeptLater(lenders, kept, places)
    ensures KeptAt(lenders, kept, places)
  {
    assert 0 !in places;
  }

  lemma {:induction false} PositivesAreKept(lenders: seq<Lender>) returns (places: seq<nat>)
    ensures KeptAt(lenders, Valid(lenders), places)
  {
    places := [];
    if lenders != [] {
      var kept := Valid(lenders[1..]);
      var rest := PositivesAreKept(lenders[1..]);
      places := seq(|rest|, k requires 0 <= k < |rest| => rest[k] + 1);
      KeptMoves(lenders, kept, rest, places);
      if lenders[0].contribution > 0 {
        FirstIsKept(lenders, kept, places);
        places := [0] + places;
      } else {
        FirstIsDropped(lenders, kept, places);
      }
    }
  }

  /** Nobody is paid exactly when there is nothing to split or nobody with a positive contribution. */
  lemma NobodyIsPaid(amount: int, lenders: seq<Lender>)
    ensures SplitAcrossLenders(amount, lenders) == []
       <==> amount <= 0 || forall i | 0 <= i < |lenders| :: lenders[i].contribution <= 0
  {
    var places := PositivesAreKept(lenders);
    if Valid(lenders) == [] {
      forall i | 0 <= i < |lenders| ensures lenders[i].contribution <= 0 { assert i !in places; }
    } else {
      assert lenders[places[0]].contribution > 0;
      if amount > 0 { PayoutsAddUp(amount, lenders); }
    }
  }

  // --------------------------------------------------------------- the transaction

  datatype Payment = Payment(destination: string, amount: int)

  function Payments(payouts: seq<Payout>): (r: seq<Payment>)
    ensures |r| == |payouts| && forall i | 0 <= i < |payouts| :: r[i] == Payment(payouts[i].address, payouts[i].payout)
  {
    seq(|payouts|, i requires 0 <= i < |payouts| => Payment(payouts[i].address, payouts[i].payout))
  }

  function Spent(payments: seq<Payment>): int {
    if payments == [] then 0 else Spent(payments[..|payments| - 1]) + payments[|payments| - 1].amount
  }

  lemma {:induction false} SpentOnPayouts(payouts: seq<Payout>)
    ensures Spent(Payments(payouts)) == TotalPaid(payouts)
  {
    if payouts != [] {
      var n := |payouts| - 1;
      SpentOnPayouts(payouts[..n]);
      assert Payments(payouts)[..n] == Payments(payouts[..n]);
      TotalPaidSnoc(payouts[..n], payouts[n]);
      assert payouts == payouts[..n] + [payouts[n]];
    }
  }

  lemma {:induction false} TotalPaidSnoc(payouts: seq<Payout>, last: Payout)
    ensures TotalPaid(payouts + [last]) == TotalPaid(payouts) + last.payout
  {
    if payouts == [] {
      assert payouts + [last] == [last];
    } else {
      TotalPaidSnoc(payouts[1..], last);
      assert (payouts + [last])[1..] == payouts[1..] + [last];
    }
  }

  function FeePayment(platformWallet: Option<string>, platformCut: int): seq<Payment> {
    if platformWallet.Some? && platformCut > 0 then [Payment(platformWallet.value, platformCut)] else []
  }

  /** The payment operations, lenders first; None when no lender can be paid. */
  function Operations(payouts: seq<Payout>, platformWallet: Option<string>, platformCut: int): Option<seq<Payment>> {
    if payouts == [] then None else Some(Payments(payouts) + FeePayment(platformWallet, platformCut))
  }

  function PaymentsOf(cuts: Cuts, platformWallet: Option<string>, lenders: seq<Lender>): Option<seq<Payment>> {
    Operations(SplitAcrossLenders(cuts.lender, lenders), platformWallet, cuts.platform)
  }

  /** The lines that reassign the two cuts. */
  method SplitCuts(amount: int, platformFee: int, totalDue: int, hasWallet: bool)
    returns (lenderCut: int, platformCut: int)
    ensures Cuts(lenderCut, platformCut) == SplitFee(amount, platformFee, totalDue, hasWallet)
  {
    lenderCut, platformCut := amount, 0;
    if hasWallet && platformFee > 0 && totalDue > 0 {
      platformCut := RoundDiv(platformFee * amount, totalDue);
      lenderCut := amount - platformCut;
    }
  }

  method BuildPayments(amount: int, platformFee: int, totalDue: int, platformWallet: Option<string>,
                       lenders: seq<Lender>)
    returns (payments: Option<seq<Payment>>)
    ensures var cuts := SplitFee(amount, platformFee, totalDue, platformWallet.Some?);
            payments == PaymentsOf(cuts, platformWallet, lenders)
  {
    var lenderCut, platformCut := SplitCuts(amount, platformFee, totalDue, platformWallet.Some?);
    var payouts := SplitAcrossLenders(lenderCut, lenders);
    payments := AppendOperations(payouts, platformWallet, platformCut);
  }

  method AppendOperations(payouts: seq<Payout>, platformWallet: Option<string>, platformCut: int)
    returns (operations: Option<seq<Payment>>)
    ensures operations == Operations(payouts, platformWallet, platformCut)
  {
    if |payouts| == 0 {
      return None;
    }
    var payments := PayLenders(payouts);
    if platformCut > 0 && platformWallet.Some? {
      payments := payments + [Payment(platformWallet.value, platformCut)];
    } else {
      assert payments == payments + [];
    }
    return Some(payments);
  }

  /**
   Every operation of a repayment is positive, and together they spend at least the repayment,
   and exactly the repayment when the lenders' part is at least (n - 1) * (n / 2 - 1) stroops.
   */
  lemma RepaymentIsSpent(amount: int, platformFee: int, totalDue: int, platformWallet: Option<string>,
                         lenders: seq<Lender>)
    requires amount >= 0 && platformFee <= totalDue
    ensures var cuts := SplitFee(amount, platformFee, totalDue, platformWallet.Some?);
            var payments := PaymentsOf(cuts, platformWallet, lenders);
            payments.Some? ==>
              && Spent(payments.value) >= amount
              && (cuts.lender >= EnoughFor(|Valid(lenders)|) ==> Spent(payments.value) == amount)
              && forall i | 0 <= i < |payments.value| :: payments.value[i].amount > 0
  {
    var cuts := SplitFee(amount, platformFee, totalDue, platformWallet.Some?);
    FeeSplitIsExact(amount, platformFee, totalDue, platformWallet.Some?);
    var payouts := SplitAcrossLenders(cuts.lender, lenders);
    if payouts != [] {
      LendersPart(cuts.lender, lenders);
      SpentOnAll(payouts, platformWallet, cuts.platform);
    }
  }

  /** The loop that appends one payment per lender. */
  method PayLenders(payouts: seq<Payout>) returns (operations: seq<Payment>)
    ensures operations == Payments(payouts)
  {
    operations := [];
    for i := 0 to |payouts|
      invariant operations == Payments(payouts[..i])
    {
      operations := operations + [Payment(payouts[i].address, payouts[i].payout)];
    }
    assert payouts[..|payouts|] == payouts;
  }

  lemma SpentOnAll(payouts: seq<Payout>, platformWallet: Option<string>, platformCut: int)
    requires platformCut == 0 || (platformCut > 0 && platformWallet.Some?)
    ensures Spent(Payments(payouts) + FeePayment(platformWallet, platformCut)) == TotalPaid(payouts) + platformCut
  {
    SpentOnPayouts(payouts);
    var all := Payments(payouts) + FeePayment(platformWallet, platformCut);
    if platformCut > 0 {
      assert all[..|all| - 1] == Payments(payouts);
    } else {
      assert all == Payments(payouts);
    }
  }

  lemma LendersPart(amount: int, lenders: seq<Lender>)
    requires SplitAcrossLenders(amount, lenders) != []
    ensures amount > 0 && TotalPaid(SplitAcrossLenders(amount, lenders)) >= amount
    ensures amount >= EnoughFor(|Valid(lenders)|) ==>
              TotalPaid(SplitAcrossLenders(amount, lenders)) == amount
    ensures forall i | 0 <= i < |SplitAcrossLenders(amount, lenders)| ::
              SplitAcrossLenders(amount, lenders)[i].payout > 0
  {
    var valid := Valid(lenders);
    SumOfPositives(Contributions(valid));
    PayoutsAddUp(amount, lenders);
    PaidTotal(valid, Reconciled(amount, Contributions(valid)));
    if amount >= EnoughFor(|valid|) {
      EnoughToSplitExactly(amount, lenders);
    }
  }

  /**
   Where the money goes: each payment but the last goes to a lender with a positive contribution,
   no lender twice and in order, and the platform's part, if there is one, to its wallet after
   them. The transaction is refused exactly if there is nothing for the lenders or nobody to pay.
   */
  lemma PaymentsGoWhereTheyShould(cuts: Cuts, platformWallet: Option<string>, lenders: seq<Lender>)
    returns (places: seq<nat>)
    ensures PaymentsOf(cuts, platformWallet, lenders).None?
       <==> cuts.lender <= 0 || forall i | 0 <= i < |lenders| :: lenders[i].contribution <= 0
    ensures PaymentsOf(cuts, platformWallet, lenders).Some? ==>
              GoTo(PaymentsOf(cuts, platformWallet, lenders).value, lenders, places,
                   if platformWallet.Some? && cuts.platform > 0
                   then [Payment(platformWallet.value, cuts.platform)] else [])
  {
    NobodyIsPaid(cuts.lender, lenders);
    places := [];
    if SplitAcrossLenders(cuts.lender, lenders) != [] {
      var kept := PositivesAreKept(lenders);
      var paid := PayoutsAreFair(cuts.lender, lenders);
      places := seq(|paid|, k requires 0 <= k < |paid| && paid[k] < |kept| => kept[paid[k]]);
      PaidAmongAll(lenders, Valid(lenders), SplitAcrossLenders(cuts.lender, lenders), kept, paid, places);
      assert Operations(SplitAcrossLenders(cuts.lender, lenders), platformWallet, cuts.platform).Some?;
    }
  }

  /** Places among the kept lenders, as places among all. */
  lemma PaidAmongAll(lenders: seq<Lender>, valid: seq<Lender>, payouts: seq<Payout>, kept: seq<nat>, paid: seq<nat>,
                     places: seq<nat>)
    requires KeptAt(lenders, valid, kept) && PaidAt(valid, payouts, paid)
    requires |places| == |paid| && forall k | 0 <= k < |paid| :: places[k] == kept[paid[k]]
    ensures forall k | 0 <= k < |places| ::
              && places[k] < |lenders| && lenders[places[k]].contribution > 0
              && lenders[places[k]].address == payouts[k].address
    ensures forall k, l | 0 <= k < l < |places| :: places[k] < places[l]
  {
    forall k | 0 <= k < |places| ensures places[k] in kept {}
  }

  ghost predicate GoTo(payments: seq<Payment>, lenders: seq<Lender>, places: seq<nat>, fee: seq<Payment>) {
    && |places| + |fee| == |payments| && payments[|places|..] == fee
    && (forall k | 0 <= k < |places| ::
          && places[k] < |lenders| && lenders[places[k]].contribution > 0
          && payments[k].destination == lenders[places[k]].address)
    && (forall k, l | 0 <= k < l < |places| :: places[k] < places[l])
  }
}
