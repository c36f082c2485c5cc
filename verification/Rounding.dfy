/**
 Sums of rounded parts compared with the rounded whole, and the money arithmetic of
 types/contracts.ts that rests on them. Amounts are integers.
 */
module Rounding {
  import opened Common

  function Sum(s: seq<int>): int {
    if s == [] then 0 else s[0] + Sum(s[1..])
  }

  lemma {:induction false} SumConcat(a: seq<int>, b: seq<int>)
    ensures Sum(a + b) == Sum(a) + Sum(b)
  {
    if a == [] {
      assert a + b == b;
    } else {
      SumConcat(a[1..], b);
      assert (a + b)[1..] == a[1..] + b;
    }
  }

  lemma SumAround(s: seq<int>, i: nat)
    requires i < |s|
    ensures Sum(s) == Sum(s[..i]) + s[i] + Sum(s[i + 1..])
  {
    SumConcat(s[..i], s[i..]);
    assert s == s[..i] + s[i..];
  }

  // ------------------------------------------------------- rounding to the nearest

  /** a / b to the nearest integer, halves up: `toFixed(7)` on a nonnegative amount, in stroops. */
  function RoundDiv(a: int, b: int): int
    requires b > 0
  {
    (2 * a + b) / (2 * b)
  }

  lemma RoundDivIsNearest(a: int, b: int)
    requires b > 0
    ensures 2 * a - b < 2 * (b * RoundDiv(a, b)) <= 2 * a + b
  {
    var x, d := 2 * a + b, 2 * b;
    assert x == d * (x / d) + x % d;
    assert d * (x / d) == 2 * (b * (x / d));
  }

  /** No other integer is as near. */
  lemma NearestIsRoundDiv(a: int, b: int, r: int)
    requires b > 0 && 2 * a - b < 2 * (b * r) <= 2 * a + b
    ensures r == RoundDiv(a, b)
  {
    var q := RoundDiv(a, b);
    RoundDivIsNearest(a, b);
    assert b * (q + 1) == b * q + b && b * (r + 1) == b * r + b;
    ScaledOrder(r, q + 1, b);
    ScaledOrder(q, r + 1, b);
  }

  lemma RoundDivIsMonotone(a: int, b: int, m: int)
    requires m > 0 && a <= b
    ensures RoundDiv(a, m) <= RoundDiv(b, m)
  {
    var p, q := RoundDiv(a, m), RoundDiv(b, m);
    RoundDivIsNearest(a, m);
    RoundDivIsNearest(b, m);
    assert m * (q + 1) == m * q + m;
    ScaledOrder(p, q + 1, m);
  }

  lemma RoundDivScales(a: int, b: int, m: int)
    requires b > 0 && m > 0
    ensures m * b > 0 && RoundDiv(m * a, m * b) == RoundDiv(a, b)
  {
    var r := RoundDiv(a, b);
    RoundDivIsNearest(a, b);
    ScaledOrder(0, b, m);
    ScaledOrder(2 * a - b, 2 * (b * r), m);
    ScaledOrder(2 * (b * r), 2 * a + b, m);
    assert m * (2 * a - b) == 2 * (m * a) - m * b && m * (2 * a + b) == 2 * (m * a) + m * b;
    assert m * (2 * (b * r)) == 2 * ((m * b) * r);
    NearestIsRoundDiv(m * a, m * b, r);
  }

  /** Each part of a proportional division, rounded to the nearest. */
  function RoundedParts(k: int, parts: seq<int>, total: int): (r: seq<int>)
    requires total > 0
    ensures |r| == |parts| && forall i | 0 <= i < |parts| :: r[i] == RoundDiv(k * parts[i], total)
  {
    seq(|parts|, i requires 0 <= i < |parts| => RoundDiv(k * parts[i], total))
  }

  /** The rounded parts miss the exact sum by at most half a unit each. */
  lemma {:induction false} RoundedPartsSum(k: int, parts: seq<int>, total: int)
    requires total > 0
    ensures -(|parts| * total) <= 2 * (total * Sum(RoundedParts(k, parts, total)) - k * Sum(parts)) <= |parts| * total
  {
    if parts != [] {
      var rest := parts[1..];
      RoundedPartsSum(k, rest, total);
      assert RoundedParts(k, parts, total)[1..] == RoundedParts(k, rest, total);
      RoundDivIsNearest(k * parts[0], total);
      OneMorePart(k, total, |rest|, parts[0], Sum(rest), RoundDiv(k * parts[0], total),
                  Sum(RoundedParts(k, rest, total)));
      assert |parts| == |rest| + 1;
    }
  }

  lemma OneMorePart(k: int, total: int, n: int, part: int, parts: int, rounded: int, sum: int)
    requires 2 * (k * part) - total <= 2 * (total * rounded) <= 2 * (k * part) + total
    requires -(n * total) <= 2 * (total * sum - k * parts) <= n * total
    ensures -((n + 1) * total) <= 2 * (total * (rounded + sum) - k * (part + parts)) <= (n + 1) * total
  {
    assert total * (rounded + sum) == total * rounded + total * sum;
    assert k * (part + parts) == k * part + k * parts;
    assert (n + 1) * total == n * total + total;
  }

  /** Multiplying by a positive number keeps the order. */
  lemma ScaledOrder(a: int, b: int, m: int)
    requires m > 0
    ensures a <= b <==> m * a <= m * b
    ensures a < b <==> m * a < m * b
  {
    assert m * (b - a) == m * b - m * a;
    if a < b {
      assert m * (b - a) > 0;
    } else if a > b {
      assert m * (a - b) > 0;
      assert m * (a - b) == m * a - m * b;
    }
  }

  lemma ScaledBound(x: int, n: int, m: int)
    requires m > 0 && -(n * m) <= 2 * (m * x) <= n * m
    ensures -n <= 2 * x <= n
  {
    assert 2 * (m * x) == m * (2 * x) && n * m == m * n && -(n * m) == m * (-n);
    ScaledOrder(-n, 2 * x, m);
    ScaledOrder(2 * x, n, m);
  }

  /** A nonnegative amount rounds to a nonnegative one, and one of at most b * c to at most c. */
  lemma RoundDivRange(a: int, b: int, c: int)
    requires b > 0 && 0 <= a <= b * c
    ensures 0 <= RoundDiv(a, b) <= c
  {
    RoundDivIsNearest(a, b);
    NearestRange(a, b, c, RoundDiv(a, b));
  }

  lemma NearestRange(a: int, b: int, c: int, p: int)
    requires b > 0 && 0 <= a <= b * c && 2 * a - b < 2 * (b * p) <= 2 * a + b
    ensures 0 <= p <= c
  {
    assert b * (2 * p) == 2 * (b * p) && b * (2 * c + 1) == 2 * (b * c) + b && b * -1 == -b;
    ScaledOrder(-1, 2 * p, b);
    ScaledOrder(2 * p, 2 * c + 1, b);
  }

  // ---------------------------------------------------------------- rounding down

  function Floors(products: seq<int>, d: int): (r: seq<int>)
    requires d > 0
    ensures |r| == |products| && forall i | 0 <= i < |products| :: r[i] == TruncDiv(products[i], d)
  {
    seq(|products|, i requires 0 <= i < |products| => TruncDiv(products[i], d))
  }

  lemma FloorOfSum(x: int, y: int, d: int)
    requires d > 0 && x >= 0 && y >= 0
    ensures x / d + y / d <= (x + y) / d <= x / d + y / d + 1
  {
    var q, r, z := x / d, y / d, (x + y) / d;
    assert d * q <= x < d * q + d;
    assert d * r <= y < d * r + d;
    assert d * z <= x + y < d * z + d;
    assert d * (q + r) == d * q + d * r;
    assert d * (z + 1) == d * z + d && d * (q + r + 2) == d * (q + r) + 2 * d;
    ScaledOrder(q + r, z + 1, d);
    ScaledOrder(z, q + r + 2, d);
  }

  /** Rounding n >= 1 parts down loses less than n units against rounding their sum down once. */
  lemma {:induction false} FloorsSum(products: seq<int>, d: int)
    requires d > 0 && products != [] && forall i | 0 <= i < |products| :: products[i] >= 0
    ensures Sum(products) >= 0
    ensures Sum(Floors(products, d)) <= Sum(products) / d <= Sum(Floors(products, d)) + |products| - 1
  {
    var rest := products[1..];
    assert Floors(products, d)[1..] == Floors(rest, d);
    if rest != [] {
      FloorsSum(rest, d);
      FloorOfSum(products[0], Sum(rest), d);
    } else {
      assert Sum(Floors(rest, d)) == 0;
    }
  }

  // ----------------------------------------------------------- collateral and interest

  datatype Entry = Entry(amount: int, collateralFactorBps: int)

  const MAX_COLLATERAL_FACTOR_BPS: int := 9_500

  function Weighted(entries: seq<Entry>): (r: seq<int>)
    ensures |r| == |entries|
    ensures forall i | 0 <= i < |entries| :: r[i] == entries[i].amount * entries[i].collateralFactorBps
  {
    seq(|entries|, i requires 0 <= i < |entries| => entries[i].amount * entries[i].collateralFactorBps)
  }

  function Amounts(entries: seq<Entry>): (r: seq<int>)
    ensures |r| == |entries| && forall i | 0 <= i < |entries| :: r[i] == entries[i].amount
  {
    seq(|entries|, i requires 0 <= i < |entries| => entries[i].amount)
  }

  method CalculateBorrowingPower(entries: seq<Entry>) returns (total: int)
    ensures total == Sum(Floors(Weighted(entries), 10_000))
  {
    total := 0;
    ghost var terms := Floors(Weighted(entries), 10_000);
    for i := 0 to |entries|
      invariant total == Sum(terms[..i])
    {
      total := total + TruncDiv(entries[i].amount * entries[i].collateralFactorBps, 10_000);
      SumConcat(terms[..i], [terms[i]]);
      assert terms[..i + 1] == terms[..i] + [terms[i]];
      assert Sum([terms[i]]) == terms[i];
    }
    assert terms[..|entries|] == terms;
  }

  lemma {:induction false} WeightedAtMost(entries: seq<Entry>)
    requires forall i | 0 <= i < |entries| ::
               entries[i].amount >= 0 && 0 <= entries[i].collateralFactorBps <= MAX_COLLATERAL_FACTOR_BPS
    ensures 0 <= Sum(Weighted(entries)) <= MAX_COLLATERAL_FACTOR_BPS * Sum(Amounts(entries))
  {
    if entries != [] {
      WeightedAtMost(entries[1..]);
      assert Weighted(entries)[1..] == Weighted(entries[1..]);
      assert Amounts(entries)[1..] == Amounts(entries[1..]);
      var e := entries[0];
      assert e.amount * (MAX_COLLATERAL_FACTOR_BPS - e.collateralFactorBps) >= 0;
      assert e.amount * e.collateralFactorBps >= 0;
    }
  }

  /**
   The borrowing power of n >= 1 entries is at most n - 1 units below the single floor of the
   summed products, and within the factor bound at most 95% of the total collateral.
   */
  lemma BorrowingPowerLoss(entries: seq<Entry>)
    requires entries != []
    requires forall i | 0 <= i < |entries| ::
               entries[i].amount >= 0 && 0 <= entries[i].collateralFactorBps <= MAX_COLLATERAL_FACTOR_BPS
    ensures var power, once := Sum(Floors(Weighted(entries), 10_000)), Sum(Weighted(entries)) / 10_000;
            && power <= once <= power + |entries| - 1
            && power * 10_000 <= 9_500 * Sum(Amounts(entries))
  {
    forall i | 0 <= i < |entries| ensures Weighted(entries)[i] >= 0 {
      assert entries[i].amount * entries[i].collateralFactorBps >= 0;
    }
    FloorsSum(Weighted(entries), 10_000);
    WeightedAtMost(entries);
  }

  function CalculateInterest(principal: int, rateBps: int, days: int): int {
    TruncDiv(principal * rateBps * days, 10_000 * 365)
  }

  /** Interest is simple: a year of 365 days at `rateBps` hundredths of a percent, rounded down to whole stroops. */
  lemma InterestOfAYear(principal: nat, rateBps: nat, days: nat)
    ensures CalculateInterest(principal, rateBps, 365) == principal * rateBps / 10_000
    ensures 3_650_000 * CalculateInterest(principal, rateBps, days) <= principal * rateBps * days
    ensures principal * rateBps * days < 3_650_000 * (CalculateInterest(principal, rateBps, days) + 1)
  {
    var product := principal * rateBps;
    assert product >= 0 && product * days >= 0;
    YearOfProducts(product);
    FloorBounds(product * days);
  }

  lemma YearOfProducts(x: nat)
    ensures x * 365 / 3_650_000 == x / 10_000
  {
  }

  lemma FloorBounds(x: nat)
    ensures 3_650_000 * (x / 3_650_000) <= x < 3_650_000 * (x / 3_650_000 + 1)
  {
  }

  function SliceInterests(slices: seq<int>, rateBps: int, days: int): (r: seq<int>)
    ensures |r| == |slices| && forall i | 0 <= i < |slices| :: r[i] == CalculateInterest(slices[i], rateBps, days)
  {
    seq(|slices|, i requires 0 <= i < |slices| => CalculateInterest(slices[i], rateBps, days))
  }

  function Scaled(slices: seq<int>, k: int): (r: seq<int>)
    ensures |r| == |slices| && forall i | 0 <= i < |slices| :: r[i] == slices[i] * k
  {
    seq(|slices|, i requires 0 <= i < |slices| => slices[i] * k)
  }

  lemma {:induction false} ScaledSum(slices: seq<int>, k: int)
    ensures Sum(Scaled(slices, k)) == Sum(slices) * k
  {
    if slices != [] {
      ScaledSum(slices[1..], k);
      assert Scaled(slices, k)[1..] == Scaled(slices[1..], k);
      assert (slices[0] + Sum(slices[1..])) * k == slices[0] * k + Sum(slices[1..]) * k;
    }
  }

  /** The product that is divided, slice by slice. */
  lemma SliceProducts(slices: seq<int>, rateBps: int, days: int)
    requires rateBps >= 0 && days >= 0 && forall i | 0 <= i < |slices| :: slices[i] >= 0
    ensures SliceInterests(slices, rateBps, days) == Floors(Scaled(slices, rateBps * days), 3_650_000)
    ensures forall i | 0 <= i < |slices| :: Scaled(slices, rateBps * days)[i] >= 0
  {
    var k := rateBps * days;
    assert k >= 0;
    forall i | 0 <= i < |slices|
      ensures slices[i] * k >= 0 && SliceInterests(slices, rateBps, days)[i] == Floors(Scaled(slices, k), 3_650_000)[i]
    {
      SameProduct(slices[i], rateBps, days);
    }
  }

  lemma SameProduct(a: int, b: int, c: int)
    ensures a * (b * c) == a * b * c
    ensures a >= 0 && b >= 0 && c >= 0 ==> a * (b * c) >= 0
  {
    if a >= 0 && b >= 0 && c >= 0 { assert b * c >= 0; }
  }

  /** Interest on n >= 1 slices of a principal is at most the interest on the whole, and less than n short of it. */
  lemma SlicedInterestLoss(slices: seq<int>, rateBps: int, days: int)
    requires slices != [] && rateBps >= 0 && days >= 0 && forall i | 0 <= i < |slices| :: slices[i] >= 0
    ensures var sliced := Sum(SliceInterests(slices, rateBps, days));
            var whole := CalculateInterest(Sum(slices), rateBps, days);
            sliced <= whole <= sliced + |slices| - 1
  {
    var products := Scaled(slices, rateBps * days);
    SliceProducts(slices, rateBps, days);
    FloorsSum(products, 3_650_000);
    ScaledSum(slices, rateBps * days);
    SameProduct(Sum(slices), rateBps, days);
  }
}
