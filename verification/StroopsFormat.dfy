/**
 `stroopsToXlm` and `xlmToStroops` of types/contracts.ts, with a reader of decimal amounts to
 compare them with. BigInt division truncates toward zero.
 */
module StroopsFormat {
  import opened Common

  const STROOPS_PER_XLM: nat := 10_000_000

  // -------------------------------------------------------------------- decimals

  predicate IsDigit(c: char) {
    '0' <= c <= '9'
  }

  function DigitChar(d: nat): (c: char)
    requires d < 10
    ensures IsDigit(c)
  {
    '0' + d as char
  }

  function DigitValue(c: char): (d: nat)
    requires IsDigit(c)
    ensures d < 10
  {
    (c - '0') as nat
  }

  predicate AllDigits(s: string) {
    forall i | 0 <= i < |s| :: IsDigit(s[i])
  }

  /** `toString` of a BigInt that is not negative. */
  function Digits(n: nat): (s: string)
    ensures s != [] && AllDigits(s)
  {
    if n < 10 then [DigitChar(n)] else Digits(n / 10) + [DigitChar(n % 10)]
  }

  function Value(s: string): nat
    requires AllDigits(s)
  {
    if s == [] then 0 else 10 * Value(s[..|s| - 1]) + DigitValue(s[|s| - 1])
  }

  function Zeros(n: nat): (s: string)
    ensures |s| == n && AllDigits(s)
  {
    seq(n, _ => '0')
  }

  function PadStart(s: string, width: nat): string {
    if |s| >= width then s else Zeros(width - |s|) + s
  }

  /** The effect of `replace(/0+$/, "")`. */
  function StripZeros(s: string): (r: string)
    ensures r <= s && (r != [] ==> r[|r| - 1] != '0')
    ensures forall i | |r| <= i < |s| :: s[i] == '0'
  {
    if s != [] && s[|s| - 1] == '0' then StripZeros(s[..|s| - 1]) else s
  }

  // -------------------------------------------------------------------- printing

  function TruncMod(a: int, b: int): int
    requires b > 0
  {
    a - b * TruncDiv(a, b)
  }

  function IntText(n: int): string {
    if n < 0 then ['-'] + Digits(-n) else Digits(n)
  }

  const UNIT: string := " XLM"

  function FractionText(stroops: int): string {
    StripZeros(PadStart(IntText(TruncMod(stroops, STROOPS_PER_XLM)), 7))
  }

  function StroopsToXlm(stroops: int): string {
    var whole, fracStr := IntText(TruncDiv(stroops, STROOPS_PER_XLM)), FractionText(stroops);
    if fracStr != "" then whole + ['.'] + fracStr + UNIT else whole + UNIT
  }

  /** `Math.round(xlm * 10_000_000)` on exact numbers. */
  function XlmToStroops(xlm: real): int {
    Round(xlm * 10_000_000.0)
  }

  // --------------------------------------------------------------------- reading

  /** The first position of a point, or the length. */
  function PointAt(s: string): (k: nat)
    ensures k <= |s| && (k < |s| ==> s[k] == '.') && forall i | 0 <= i < k :: s[i] != '.'
  {
    if s == [] || s[0] == '.' then 0 else 1 + PointAt(s[1..])
  }

  /** An unsigned decimal: digits, and if there is a point, digits after it. */
  function ReadUnsigned(s: string): Option<real> {
    var k := PointAt(s);
    if k < |s| && k + 1 == |s| then None
    else ReadParts(s[..k], if k < |s| then s[k + 1..] else "")
  }

  function ReadParts(whole: string, frac: string): Option<real> {
    if whole == [] || !AllDigits(whole) || !AllDigits(frac) then None
    else Some(Value(whole) as real + Value(frac) as real / Pow10(|frac|) as real)
  }

  function ReadDecimal(s: string): Option<real> {
    if s != [] && s[0] == '-' then
      var r := ReadUnsigned(s[1..]);
      if r.None? then None else Some(-r.value)
    else ReadUnsigned(s)
  }

  /** An amount followed by its unit. */
  function ReadXlm(s: string): Option<real> {
    if |s| >= |UNIT| && s[|s| - |UNIT|..] == UNIT then ReadDecimal(s[..|s| - |UNIT|]) else None
  }

  // ---------------------------------------------------------------------- lemmas

  lemma {:induction false} DigitsReadBack(n: nat)
    ensures Value(Digits(n)) == n
  {
    if n >= 10 {
      DigitsReadBack(n / 10);
      assert Digits(n)[..|Digits(n)| - 1] == Digits(n / 10);
    }
  }

  lemma {:induction false} DigitsLength(n: nat, k: nat)
    requires 1 <= k && n < Pow10(k)
    ensures |Digits(n)| <= k
  {
    if n >= 10 {
      assert Pow10(1) == 10;
      assert Pow10(k) == 10 * Pow10(k - 1);
      DigitsLength(n / 10, k - 1);
    }
  }

  lemma {:induction false} LeadingZeros(n: nat, s: string)
    requires AllDigits(s)
    ensures Value(Zeros(n) + s) == Value(s)
  {
    var t := Zeros(n) + s;
    if s != [] {
      LeadingZeros(n, s[..|s| - 1]);
      assert t[..|t| - 1] == Zeros(n) + s[..|s| - 1];
    } else if n > 0 {
      LeadingZeros(n - 1, []);
      assert t[..|t| - 1] == Zeros(n - 1) + [];
    }
  }

  lemma {:induction false} StripZerosScales(s: string)
    requires AllDigits(s)
    ensures Value(StripZeros(s)) * Pow10(|s| - |StripZeros(s)|) == Value(s)
  {
    if s != [] && s[|s| - 1] == '0' {
      var init := s[..|s| - 1];
      StripZerosScales(init);
      var v, m := Value(StripZeros(init)), |init| - |StripZeros(init)|;
      assert Value(s) == 10 * Value(init);
      TenTimes(v, m);
    }
  }

  lemma TenTimes(v: nat, m: nat)
    ensures v * Pow10(m + 1) == 10 * (v * Pow10(m))
  {
  }

  lemma {:induction false} Pow10Adds(a: nat, b: nat)
    ensures Pow10(a + b) == Pow10(a) * Pow10(b)
  {
    if a > 0 {
      Pow10Adds(a - 1, b);
      assert 10 * (Pow10(a - 1) * Pow10(b)) == (10 * Pow10(a - 1)) * Pow10(b);
    }
  }

  /** Scaling a fraction back up to seven places is exact. */
  lemma FractionScales(f: nat, places: nat, scaled: nat)
    requires places <= 7 && f * Pow10(7 - places) == scaled
    ensures f as real / Pow10(places) as real * 10_000_000.0 == scaled as real
  {
    Pow10Of7();
    Pow10Adds(places, 7 - places);
    FractionOf(f, Pow10(places), Pow10(7 - places));
  }

  lemma FractionOf(f: nat, p: nat, q: nat)
    requires 1 <= p
    ensures f as real / p as real * (p * q) as real == (f * q) as real
  {
    ProductAsReal(p, q);
    ProductAsReal(f, q);
    ScaledUp(f as real / p as real, p as real, q as real, f as real);
  }

  lemma ProductAsReal(a: nat, b: nat)
    ensures (a * b) as real == a as real * b as real
  {
  }

  lemma ScaledUp(x: real, p: real, q: real, f: real)
    requires x * p == f
    ensures x * (p * q) == f * q
  {
    assert x * (p * q) == (x * p) * q;
  }

  /** Seven digits with the value of a fraction. */
  lemma PaddedFraction(frac: nat)
    requires frac < STROOPS_PER_XLM
    ensures AllDigits(PadStart(Digits(frac), 7)) && |PadStart(Digits(frac), 7)| == 7
    ensures Value(PadStart(Digits(frac), 7)) == frac
  {
    Pow10Of7();
    DigitsLength(frac, 7);
    DigitsReadBack(frac);
    LeadingZeros(7 - |Digits(frac)|, Digits(frac));
    if |Digits(frac)| == 7 { assert PadStart(Digits(frac), 7) == Digits(frac); }
  }

  /** The fraction of a nonnegative amount: at most seven digits, no trailing zero, and its value. */
  lemma FractionOfNonnegative(stroops: nat)
    ensures AllDigits(FractionText(stroops)) && |FractionText(stroops)| <= 7
    ensures FractionText(stroops) != [] ==> FractionText(stroops)[|FractionText(stroops)| - 1] != '0'
    ensures Value(FractionText(stroops)) * Pow10(7 - |FractionText(stroops)|) == stroops % STROOPS_PER_XLM
  {
    var frac := stroops % STROOPS_PER_XLM;
    assert TruncMod(stroops, STROOPS_PER_XLM) == frac;
    StrippedFraction(frac);
  }

  lemma StrippedFraction(frac: nat)
    requires frac < STROOPS_PER_XLM
    ensures var text := StripZeros(PadStart(IntText(frac), 7));
            && AllDigits(text) && |text| <= 7 && (text != [] ==> text[|text| - 1] != '0')
            && Value(text) * Pow10(7 - |text|) == frac
  {
    PaddedFraction(frac);
    StripZerosScales(PadStart(Digits(frac), 7));
  }

  lemma {:induction false} PointIsFirst(whole: string, tail: string)
    requires '.' !in whole && (tail == [] || tail[0] == '.')
    ensures PointAt(whole + tail) == |whole|
  {
    if whole == [] {
      assert whole + tail == tail;
    } else {
      assert whole[0] in whole;
      assert forall c | c in whole[1..] :: c in whole;
      PointIsFirst(whole[1..], tail);
      assert (whole + tail)[1..] == whole[1..] + tail;
    }
  }

  /** The two parts of an unsigned decimal, as the reader sees them. */
  lemma UnsignedParts(whole: string, frac: string)
    requires AllDigits(whole) && whole != []
    ensures var s := whole + ['.'] + frac;
            PointAt(s) == |whole| && s[..|whole|] == whole && |whole| < |s| && s[|whole| + 1..] == frac
  {
    PointIsFirst(whole, ['.'] + frac);
    assert whole + ['.'] + frac == whole + (['.'] + frac);
  }

  lemma ReadsWhatWasPrinted(whole: string, frac: string)
    requires whole != [] && AllDigits(whole) && AllDigits(frac)
    ensures ReadUnsigned(if frac != [] then whole + ['.'] + frac else whole)
         == ReadParts(whole, frac)
  {
    if frac != [] {
      UnsignedParts(whole, frac);
    } else {
      PointIsFirst(whole, []);
      assert whole + [] == whole && whole[..|whole|] == whole;
    }
  }

  lemma BadFractionDoesNotRead(whole: string, frac: string)
    requires whole != [] && AllDigits(whole) && !AllDigits(frac)
    ensures ReadUnsigned(whole + ['.'] + frac).None?
  {
    UnsignedParts(whole, frac);
  }

  lemma DropUnit(amount: string)
    ensures ReadXlm(amount + UNIT) == ReadDecimal(amount)
  {
    assert (amount + UNIT)[|amount|..] == UNIT;
    assert (amount + UNIT)[..|amount|] == amount;
  }

  function AmountText(stroops: int): string {
    var whole, fracStr := IntText(TruncDiv(stroops, STROOPS_PER_XLM)), FractionText(stroops);
    if fracStr != "" then whole + ['.'] + fracStr else whole
  }

  lemma ReadsTheAmount(stroops: int)
    ensures ReadXlm(StroopsToXlm(stroops)) == ReadDecimal(AmountText(stroops))
  {
    DropUnit(AmountText(stroops));
  }

  lemma NonnegativeReadsBack(stroops: nat)
    ensures ReadXlm(StroopsToXlm(stroops)).Some?
    ensures XlmToStroops(ReadXlm(StroopsToXlm(stroops)).value) == stroops
  {
    var whole, frac := stroops / STROOPS_PER_XLM, FractionText(stroops);
    FractionOfNonnegative(stroops);
    DigitsReadBack(whole);
    ReadsTheAmount(stroops);
    ReadsWhatWasPrinted(Digits(whole), frac);
    FractionScales(Value(frac), |frac|, stroops % STROOPS_PER_XLM);
    var f := Value(frac) as real / Pow10(|frac|) as real;
    assert (whole as real + f) * 10_000_000.0 == whole as real * 10_000_000.0 + f * 10_000_000.0;
    assert whole * STROOPS_PER_XLM + stroops % STROOPS_PER_XLM == stroops;
  }

  /** The minus sign of a negative fraction survives padding and stripping. */
  lemma NegativeFraction(stroops: int)
    requires stroops < 0 && stroops % STROOPS_PER_XLM != 0
    ensures FractionText(stroops) != [] && !AllDigits(FractionText(stroops)) && '.' !in FractionText(stroops)
  {
    var frac := TruncMod(stroops, STROOPS_PER_XLM);
    assert frac < 0;
    var text := IntText(frac);
    var padded := PadStart(text, 7);
    var k := |padded| - |text|;
    assert padded[k] == '-';
    var kept := StripZeros(padded);
    assert k < |kept|;
    assert kept[k] == '-';
  }

  lemma NegativeWholeReadsBack(stroops: int)
    requires stroops < 0 && stroops % STROOPS_PER_XLM == 0
    ensures ReadXlm(StroopsToXlm(stroops)).Some?
    ensures XlmToStroops(ReadXlm(StroopsToXlm(stroops)).value) == stroops
  {
    var w := (-stroops) / STROOPS_PER_XLM;
    assert TruncDiv(stroops, STROOPS_PER_XLM) == -w && TruncMod(stroops, STROOPS_PER_XLM) == 0;
    FractionOfZero();
    assert AmountText(stroops) == IntText(-w);
    ReadsTheAmount(stroops);
    WholeReads(w);
    ExactWhole(-w);
  }

  lemma WholeReads(w: int)
    requires w > 0
    ensures ReadDecimal(IntText(-w)) == Some(-(w as real))
  {
    DigitsReadBack(w);
    ReadsWhatWasPrinted(Digits(w), "");
    assert IntText(-w)[1..] == Digits(w);
    assert Value("") as real / Pow10(0) as real == 0.0;
  }

  lemma ExactWhole(w: int)
    ensures XlmToStroops(w as real) == w * STROOPS_PER_XLM
  {
  }

  lemma FractionOfZero()
    ensures FractionText(0) == ""
  {
    var padded := PadStart(Digits(0), 7);
    assert forall i | 0 <= i < |padded| :: padded[i] == '0';
    var kept := StripZeros(padded);
  }

  lemma SignedDoesNotRead(n: int, frac: string)
    requires !AllDigits(frac)
    ensures ReadDecimal(IntText(n) + ['.'] + frac).None?
  {
    if n < 0 {
      BadFractionDoesNotRead(Digits(-n), frac);
      assert (IntText(n) + ['.'] + frac)[1..] == Digits(-n) + ['.'] + frac;
    } else {
      BadFractionDoesNotRead(Digits(n), frac);
    }
  }

  lemma NegativeFractionDoesNotRead(stroops: int)
    requires stroops < 0 && stroops % STROOPS_PER_XLM != 0
    ensures ReadXlm(StroopsToXlm(stroops)).None?
  {
    NegativeFraction(stroops);
    ReadsTheAmount(stroops);
    SignedDoesNotRead(TruncDiv(stroops, STROOPS_PER_XLM), FractionText(stroops));
  }

  /**
   Reading the printed amount and converting it back gives the stroops again, if and only if
   the amount is nonnegative or a whole number of XLM: the sign of a negative fraction is
   printed after the point.
   */
  lemma PrintingReadsBack(stroops: int)
    ensures (ReadXlm(StroopsToXlm(stroops)).Some?
             && XlmToStroops(ReadXlm(StroopsToXlm(stroops)).value) == stroops)
       <==> stroops >= 0 || stroops % 10_000_000 == 0
  {
    if stroops >= 0 {
      NonnegativeReadsBack(stroops);
    } else if stroops % STROOPS_PER_XLM == 0 {
      NegativeWholeReadsBack(stroops);
    } else {
      NegativeFractionDoesNotRead(stroops);
    }
  }

  /** Different amounts print differently. */
  lemma PrintingIsInjective(a: nat, b: nat)
    requires StroopsToXlm(a) == StroopsToXlm(b)
    ensures a == b
  {
    PrintingReadsBack(a);
    PrintingReadsBack(b);
  }

  /** The shape of what is printed for a nonnegative amount. */
  lemma PrintedShape(stroops: nat)
    ensures exists whole, frac ::
              && AllDigits(whole) && whole != [] && AllDigits(frac) && |frac| <= 7
              && (frac != [] ==> frac[|frac| - 1] != '0')
              && StroopsToXlm(stroops) == (if frac == "" then whole + " XLM" else whole + ['.'] + frac + " XLM")
  {
    FractionOfNonnegative(stroops);
    var whole, frac := Digits(stroops / STROOPS_PER_XLM), FractionText(stroops);
    assert StroopsToXlm(stroops) == (if frac == "" then whole + UNIT else whole + ['.'] + frac + UNIT);
  }
}
