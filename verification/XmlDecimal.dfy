/** XML decimals: shifting by the exponent, and rounding currency to four places. */
module XmlDecimal {
  import opened Prelude
  import opened Text
  import opened Decimal
  import opened CanonicalDecimal

  // ---------------------------------------------------------------- exponent

  /** Whole and fraction digits of a parsed decimal. */
  datatype Shift = Shift(whole: string, fraction: string) {
    predicate Valid() {
      AllDigits(whole) && AllDigits(fraction)
    }
    function Number(): nat
      requires Valid()
    {
      ToNat(whole + fraction)
    }
    /** The text the expansion stands for, which the length limit is about. */
    function Text(): string {
      if fraction == [] then whole else whole + ("." + fraction)
    }
  }

  /** The length the source computes before it builds anything. */
  function ExpandedLength(whole: string, fraction: string, exponent: int): nat {
    var digits := |whole| + |fraction|;
    var position := |whole| + exponent;
    if exponent == 0 then if fraction == [] then digits else digits + 1
    else if position <= 0 then 2 + -position + digits
    else if position >= digits then digits + (position - digits)
    else digits + 1
  }

  /** The digits with the point moved. */
  function Shifted(whole: string, fraction: string, exponent: int): Shift {
    var digits := whole + fraction;
    var position := |whole| + exponent;
    if exponent == 0 then Shift(whole, fraction)
    else if position <= 0 then Shift("0", Repeat('0', -position) + digits)
    else if position >= |digits| then Shift(digits + Repeat('0', position - |digits|), "")
    else Shift(digits[..position], digits[position..])
  }

  /** `apply_xml_decimal_exponent` */
  function ApplyExponent(whole: string, fraction: string, exponent: int, limit: nat): Result<Shift> {
    if ExpandedLength(whole, fraction, exponent) > limit then Err else Ok(Shifted(whole, fraction, exponent))
  }

  /** Nothing longer than the limit is ever built, and nothing within it is refused: the length
      checked is exactly the length of the text. */
  lemma LimitIsExact(whole: string, fraction: string, exponent: int, limit: nat)
    requires whole + fraction != []
    ensures ApplyExponent(whole, fraction, exponent, limit).Ok? <==> |Shifted(whole, fraction, exponent).Text()| <= limit
  {
  }

  /** How far a shift moves the fraction left and right, as powers of ten on either side. */
  function Up(exponent: int): nat {
    if exponent > 0 then exponent else 0
  }

  function Down(exponent: int): nat {
    if exponent < 0 then -exponent else 0
  }

  /** shifted / 10^|shifted fraction| == number * 10^exponent / 10^|fraction|, multiplied out. */
  predicate TimesTenTo(s: Shift, number: nat, places: nat, exponent: int) {
    s.Valid() && Scaled(s.Number(), places + Down(exponent)) == Scaled(number, |s.fraction| + Up(exponent))
  }

  /** The point moved among the same digits. */
  lemma PointMoved(s: Shift, number: nat, places: nat, exponent: int)
    requires s.Valid() && s.Number() == number && |s.fraction| + Up(exponent) == places + Down(exponent)
    ensures TimesTenTo(s, number, places, exponent)
  {
  }

  lemma ShiftBelowOne(whole: string, fraction: string, exponent: int)
    requires AllDigits(whole) && AllDigits(fraction) && exponent < 0 && |whole| + exponent <= 0
    ensures TimesTenTo(Shifted(whole, fraction, exponent), ToNat(whole + fraction), |fraction|, exponent)
  {
    var digits, zeros: nat := whole + fraction, -(|whole| + exponent);
    var s := Shift("0", Repeat('0', zeros) + digits);
    LeadingZeros(zeros, digits);
    LeadingZeros(1, s.fraction);
    assert "0" == Repeat('0', 1);
    PointMoved(s, ToNat(digits), |fraction|, exponent);
  }

  lemma ShiftPastDigits(whole: string, fraction: string, exponent: int)
    requires AllDigits(whole) && AllDigits(fraction) && exponent != 0 && |whole| + exponent > 0 && exponent >= |fraction|
    ensures TimesTenTo(Shifted(whole, fraction, exponent), ToNat(whole + fraction), |fraction|, exponent)
  {
    var digits := whole + fraction;
    var s := Shift(digits + Repeat('0', exponent - |fraction|), "");
    ZerosAppended(digits, exponent - |fraction|);
    ZerosGained(s, ToNat(digits), |fraction|, exponent);
    assert Shifted(whole, fraction, exponent) == s;
  }

  lemma ZerosGained(s: Shift, number: nat, places: nat, exponent: nat)
    requires s.Valid() && s.fraction == [] && places <= exponent && s.Number() == Scaled(number, exponent - places)
    ensures TimesTenTo(s, number, places, exponent)
  {
    ScaledTwice(number, exponent - places, places);
    var n := s.Number();
    assert Scaled(n, places) == Scaled(number, exponent);
  }

  lemma ZerosAppended(digits: string, zeros: nat)
    requires AllDigits(digits)
    ensures Shift(digits + Repeat('0', zeros), "").Valid()
    ensures Shift(digits + Repeat('0', zeros), "").Number() == Scaled(ToNat(digits), zeros)
  {
    TrailingZeros(digits, zeros);
    assert digits + Repeat('0', zeros) + "" == digits + Repeat('0', zeros);
  }

  lemma ShiftInside(whole: string, fraction: string, exponent: int)
    requires AllDigits(whole) && AllDigits(fraction) && exponent != 0 && 0 < |whole| + exponent < |whole| + |fraction|
    ensures TimesTenTo(Shifted(whole, fraction, exponent), ToNat(whole + fraction), |fraction|, exponent)
  {
    var digits, position := whole + fraction, |whole| + exponent;
    var s := Shift(digits[..position], digits[position..]);
    assert s.whole + s.fraction == digits;
    PointMoved(s, ToNat(digits), |fraction|, exponent);
  }

  /** In every branch the result is the input times ten to the exponent. */
  lemma ExponentShifts(whole: string, fraction: string, exponent: int)
    requires AllDigits(whole) && AllDigits(fraction)
    ensures TimesTenTo(Shifted(whole, fraction, exponent), ToNat(whole + fraction), |fraction|, exponent)
  {
    if exponent == 0 {
      PointMoved(Shift(whole, fraction), ToNat(whole + fraction), |fraction|, 0);
    } else if |whole| + exponent <= 0 {
      ShiftBelowOne(whole, fraction, exponent);
    } else if exponent >= |fraction| {
      ShiftPastDigits(whole, fraction, exponent);
    } else {
      ShiftInside(whole, fraction, exponent);
    }
  }

  // ---------------------------------------------------------------- currency

  const PLACES := 4
  const I64_MAX: nat := 0x7fff_ffff_ffff_ffff

  function First(fraction: string): string {
    if |fraction| > PLACES then fraction[..PLACES] else fraction
  }

  /** `xml_currency_scaled_abs`: ten-thousandths, cut after four places. */
  function ScaledAbs(whole: string, fraction: string): Result<nat>
    requires AllDigits(whole) && AllDigits(fraction)
  {
    var units := ToNat(CanonicalWholeDigits(whole));
    if units > U128_MAX || Scaled(units, PLACES) > U128_MAX then Err
    else
      var kept := First(fraction);
      var scaled := Scaled(units, PLACES) + Scaled(ToNat(kept), PLACES - |kept|);
      if scaled > U128_MAX then Err else Ok(scaled)
  }

  function CanonicalWholeDigits(whole: string): (r: string)
    requires AllDigits(whole)
    ensures AllDigits(r)
  {
    CanonicalWholeIsDec(whole);
    CanonicalWhole(whole)
  }

  /** The two loops over the kept fraction digits. */
  method KeptFraction(fraction: string) returns (value: nat)
    requires AllDigits(fraction)
    ensures value == Scaled(ToNat(First(fraction)), PLACES - |First(fraction)|)
  {
    var kept := First(fraction);
    value := 0;
    for i := 0 to |kept|
      invariant value == ToNat(kept[..i])
    {
      assert kept[..i + 1][..i] == kept[..i];
      value := value * 10 + DigitValue(kept[i]);
    }
    assert kept[..|kept|] == kept;
    var digits := |kept|;
    assert Scaled(value, 0) == value;
    while digits < PLACES
      invariant |kept| <= digits <= PLACES
      invariant value == Scaled(ToNat(kept), digits - |kept|)
    {
      ScaledTwice(ToNat(kept), digits - |kept|, 1);
      assert Pow(10, 1) == 10;
      value := value * 10;
      digits := digits + 1;
    }
  }

  predicate AnyNonZero(s: string) {
    exists i | 0 <= i < |s| :: s[i] != '0'
  }

  /** `xml_currency_should_round_up` */
  predicate RoundsUp(fraction: string)
    requires AllDigits(fraction)
  {
    |fraction| > PLACES
    && (fraction[PLACES] > '5'
        || (fraction[PLACES] == '5' && (AnyNonZero(fraction[PLACES + 1..]) || DigitValue(fraction[PLACES - 1]) % 2 == 1)))
  }

  /** `xml_currency_text` up to the text: ten-thousandths that fit a signed 64-bit integer. */
  function Currency(negative: bool, whole: string, fraction: string): Result<nat>
    requires AllDigits(whole) && AllDigits(fraction)
  {
    var kept :- ScaledAbs(whole, fraction);
    var scaled := if RoundsUp(fraction) then kept + 1 else kept;
    if scaled > U128_MAX || scaled > Limit(negative) then Err else Ok(scaled)
  }

  function Limit(negative: bool): nat {
    if negative then I64_MAX + 1 else I64_MAX
  }

  /** q is n / d rounded to the nearest integer, ties to the even one. */
  predicate HalfEven(n: nat, d: nat, q: nat) {
    var twiceOff: int := 2 * (q * d - n);
    && twiceOff <= d && twiceOff + d >= 0
    && (twiceOff == d || twiceOff + d == 0 ==> q % 2 == 0)
  }

  lemma AtLeastTwice(d: nat, k: int)
    ensures k >= 2 ==> k * d >= 2 * d
  {
  }

  lemma NotFarther(n: nat, d: nat, p: nat, q: nat)
    requires d > 0 && HalfEven(n, d, p) && HalfEven(n, d, q)
    ensures p <= q
  {
    assert p * d - q * d == (p - q) * d;
    AtLeastTwice(d, p - q);
    assert p == q + 1 ==> 2 * (p * d - n) == d && 2 * (q * d - n) + d == 0;
  }

  lemma HalfEvenIsUnique(n: nat, d: nat, p: nat, q: nat)
    requires d > 0 && HalfEven(n, d, p) && HalfEven(n, d, q)
    ensures p == q
  {
    NotFarther(n, d, p, q);
    NotFarther(n, d, q, p);
  }

  // ---------------------------------------------------------------- what the digits decide

  lemma {:induction false} AnyNonZeroIsPositive(s: string)
    requires AllDigits(s)
    ensures AnyNonZero(s) <==> ToNat(s) > 0
  {
    if s != [] {
      var init := s[..|s| - 1];
      AnyNonZeroIsPositive(init);
      if AnyNonZero(init) {
        var i :| 0 <= i < |init| && init[i] != '0';
        assert s[i] != '0';
      }
      if s[|s| - 1] != '0' {
        assert AnyNonZero(s);
      } else if AnyNonZero(s) {
        var i :| 0 <= i < |s| && s[i] != '0';
        assert init[i] != '0';
      }
    }
  }

  /** A digit and the digits behind it, as one number. */
  lemma HeadAndTail(c: char, rest: string)
    requires IsDigit(c) && AllDigits(rest)
    ensures AllDigits([c] + rest) && ToNat([c] + rest) == DigitValue(c) * Pow(10, |rest|) + ToNat(rest)
    ensures ToNat(rest) < Pow(10, |rest|)
  {
    ToNatAppend([c], rest);
    assert ToNat([c]) == DigitValue(c) by {
      assert [c][..0] == [];
    }
    ToNatBound(rest);
  }

  /** The first dropped digit, and then the rest, tell which side of a half they are on. */
  lemma HalfOf(digit: nat, tail: nat, p: nat)
    requires digit < 10 && tail < p
    ensures var r := digit * p + tail;
            && (digit < 5 ==> 2 * r < 10 * p)
            && (digit > 5 ==> 2 * r > 10 * p)
            && (digit == 5 ==> (2 * r == 10 * p <==> tail == 0) && 2 * r >= 10 * p)
  {
    if digit < 5 {
      assert digit * p <= 4 * p;
    } else if digit > 5 {
      assert digit * p >= 6 * p;
    }
  }

  lemma DroppedDigits(c: char, rest: string)
    requires IsDigit(c) && AllDigits(rest)
    ensures AllDigits([c] + rest)
    ensures var r, d := ToNat([c] + rest), Pow(10, 1 + |rest|);
            && r < d
            && (c < '5' ==> 2 * r < d) && (c > '5' ==> 2 * r > d)
            && (c == '5' ==> (2 * r > d <==> AnyNonZero(rest)) && 2 * r >= d)
  {
    HeadAndTail(c, rest);
    HalfOf(DigitValue(c), ToNat(rest), Pow(10, |rest|));
    AnyNonZeroIsPositive(rest);
    ToNatBound([c] + rest);
  }

  lemma LastDigitParity(s: string)
    requires AllDigits(s) && s != []
    ensures ToNat(s) % 2 == DigitValue(s[|s| - 1]) % 2
  {
    TenIsEven(ToNat(s[..|s| - 1]), DigitValue(s[|s| - 1]));
  }

  lemma TenIsEven(n: nat, d: nat)
    ensures (10 * n + d) % 2 == d % 2
  {
  }

  /** Rounding at a digit boundary: k units and a remainder r below one unit. */
  lemma RoundAtUnit(k: nat, r: nat, d: nat, up: bool)
    requires r < d
    requires 2 * r < d ==> !up
    requires 2 * r > d ==> up
    requires 2 * r == d ==> (up <==> k % 2 == 1)
    ensures HalfEven(k * d + r, d, if up then k + 1 else k)
  {
    assert (k + 1) * d == k * d + d;
  }

  lemma TwiceOffScales(n: int, d: int, q: int, m: int)
    ensures 2 * (q * (d * m) - n * m) == (2 * (q * d - n)) * m
  {
    RegroupProduct(q, d, m);
    RegroupProduct(2, q * d - n, m);
    assert (q * d - n) * m == (q * d) * m - n * m;
  }

  /** Both sides of a division enlarged alike round alike. */
  lemma HalfEvenScales(n: nat, d: nat, q: nat, m: nat)
    requires m > 0 && HalfEven(n, d, q)
    ensures HalfEven(n * m, d * m, q)
  {
    var e: int := 2 * (q * d - n);
    TwiceOffScales(n, d, q, m);
    assert d * m - e * m == (d - e) * m && e * m + d * m == (e + d) * m;
    KeepsSign(d - e, m);
    KeepsSign(e + d, m);
  }

  lemma KeepsSign(a: int, m: nat)
    requires m > 0
    ensures (a == 0 <==> a * m == 0) && (a >= 0 ==> a * m >= 0)
  {
  }

  // ---------------------------------------------------------------- currency rounding

  /** The number in units of 10^-|fraction|, and the cut value in ten-thousandths. */
  lemma LongFraction(whole: string, fraction: string)
    requires AllDigits(whole) && AllDigits(fraction) && |fraction| > PLACES
    ensures AllDigits(whole + fraction[..PLACES]) && AllDigits(fraction[PLACES..])
    ensures ToNat(whole + fraction) == Scaled(ToNat(whole + fraction[..PLACES]), |fraction| - PLACES) + ToNat(fraction[PLACES..])
    ensures HalfEven(ToNat(whole + fraction), Pow(10, |fraction| - PLACES),
                     if RoundsUp(fraction) then ToNat(whole + fraction[..PLACES]) + 1 else ToNat(whole + fraction[..PLACES]))
  {
    var kept, dropped := whole + fraction[..PLACES], fraction[PLACES..];
    assert whole + fraction == kept + dropped;
    ToNatAppend(kept, dropped);
    var c, rest := fraction[PLACES], fraction[PLACES + 1..];
    assert dropped == [c] + rest;
    DroppedDigits(c, rest);
    LastDigitParity(kept);
    assert kept[|kept| - 1] == fraction[PLACES - 1];
    RoundAtUnit(ToNat(kept), ToNat(dropped), Pow(10, |dropped|), RoundsUp(fraction));
  }

  /** The cut value as the source computes it, without overflow. */
  function Cut(whole: string, fraction: string): nat
    requires AllDigits(whole) && AllDigits(fraction)
  {
    var kept := First(fraction);
    Scaled(ToNat(whole), PLACES) + Scaled(ToNat(kept), PLACES - |kept|)
  }

  lemma CutIsDigits(whole: string, fraction: string)
    requires AllDigits(whole) && AllDigits(fraction)
    ensures Cut(whole, fraction) == Scaled(ToNat(whole + First(fraction)), PLACES - |First(fraction)|)
  {
    var kept := First(fraction);
    var k := PLACES - |kept|;
    ToNatAppend(whole, kept);
    ScaledTwice(ToNat(whole), |kept|, k);
    Distribute(ToNat(whole), Pow(10, |kept|), ToNat(kept), Pow(10, k));
    RegroupProduct(ToNat(whole), Pow(10, |kept|), Pow(10, k));
  }

  /** The value the source arrives at. */
  function RoundedUnits(whole: string, fraction: string): nat
    requires AllDigits(whole) && AllDigits(fraction)
  {
    if RoundsUp(fraction) then Cut(whole, fraction) + 1 else Cut(whole, fraction)
  }

  lemma RoundedLong(whole: string, fraction: string)
    requires AllDigits(whole) && AllDigits(fraction) && |fraction| > PLACES
    ensures HalfEven(Scaled(ToNat(whole + fraction), PLACES), Pow(10, |fraction|), RoundedUnits(whole, fraction))
  {
    var kept := ToNat(whole + fraction[..PLACES]);
    var q := if RoundsUp(fraction) then kept + 1 else kept;
    LongFraction(whole, fraction);
    CutOfLong(whole, fraction);
    assert q == RoundedUnits(whole, fraction);
    RoundsAtPlaces(ToNat(whole + fraction), |fraction|, q);
  }

  lemma CutOfLong(whole: string, fraction: string)
    requires AllDigits(whole) && AllDigits(fraction) && |fraction| > PLACES
    ensures Cut(whole, fraction) == ToNat(whole + fraction[..PLACES])
  {
    CutIsDigits(whole, fraction);
    var n := ToNat(whole + fraction[..PLACES]);
    assert Scaled(n, 0) == n;
  }

  lemma RoundsAtPlaces(n: nat, length: nat, q: nat)
    requires length > PLACES && HalfEven(n, Pow(10, length - PLACES), q)
    ensures HalfEven(Scaled(n, PLACES), Pow(10, length), q)
  {
    PowPositive(10, PLACES);
    PowAdd(10, length - PLACES, PLACES);
    HalfEvenScales(n, Pow(10, length - PLACES), q, Pow(10, PLACES));
  }

  lemma RoundedShort(whole: string, fraction: string)
    requires AllDigits(whole) && AllDigits(fraction) && |fraction| <= PLACES
    ensures HalfEven(Scaled(ToNat(whole + fraction), PLACES), Pow(10, |fraction|), RoundedUnits(whole, fraction))
  {
    CutIsDigits(whole, fraction);
    ScaledTwice(ToNat(whole + fraction), PLACES - |fraction|, |fraction|);
    PowPositive(10, |fraction|);
    ExactIsHalfEven(Cut(whole, fraction), Pow(10, |fraction|));
  }

  lemma RoundedCut(whole: string, fraction: string)
    requires AllDigits(whole) && AllDigits(fraction)
    ensures HalfEven(Scaled(ToNat(whole + fraction), PLACES), Pow(10, |fraction|), RoundedUnits(whole, fraction))
  {
    if |fraction| > PLACES {
      RoundedLong(whole, fraction);
    } else {
      RoundedShort(whole, fraction);
    }
  }

  lemma ExactIsHalfEven(q: nat, d: nat)
    requires d > 0
    ensures HalfEven(q * d, d, q)
  {
  }

  /** On digits of any length: the conversion succeeds exactly when the value rounded half to even
      at four places fits a signed 64-bit count of ten-thousandths, and then yields that count. */
  lemma CurrencyRounds(negative: bool, whole: string, fraction: string, rounded: nat)
    requires AllDigits(whole) && AllDigits(fraction)
    requires HalfEven(ToNat(whole + fraction) * 10_000, Pow(10, |fraction|), rounded)
    ensures Currency(negative, whole, fraction)
            == if rounded <= (if negative then 9_223_372_036_854_775_808 else 9_223_372_036_854_775_807) then Ok(rounded) else Err
  {
    RoundedCut(whole, fraction);
    assert Pow(10, PLACES) == 10_000;
    PowPositive(10, |fraction|);
    HalfEvenIsUnique(Scaled(ToNat(whole + fraction), PLACES), Pow(10, |fraction|), RoundedUnits(whole, fraction), rounded);
    CurrencyIsRoundedUnits(negative, whole, fraction);
  }

  /** Half a ten-thousandth goes to the even neighbour, more than half up and less down. */
  lemma {:induction false} HalvesGoToEven(negative: bool)
    ensures Currency(negative, "0", "00005") == Ok(0)
    ensures Currency(negative, "0", "00015") == Ok(2)
    ensures Currency(negative, "0", "00006") == Ok(1)
    ensures Currency(negative, "0", "00014") == Ok(1)
  {
    FewDigits();
    FiveDigits("00005", "5", 5);
    FiveDigits("00015", "15", 15);
    FiveDigits("00006", "6", 6);
    FiveDigits("00014", "14", 14);
    SmallCurrency(negative, "00005", 5, 0);
    SmallCurrency(negative, "00015", 15, 2);
    SmallCurrency(negative, "00006", 6, 1);
    SmallCurrency(negative, "00014", 14, 1);
  }

  lemma {:induction false} FewDigits()
    ensures ToNat("5") == 5 && ToNat("6") == 6 && ToNat("14") == 14 && ToNat("15") == 15
  {
    DecRoundTrip(5);
    DecRoundTrip(6);
    DecRoundTrip(14);
    DecRoundTrip(15);
    assert Dec(5) == "5" && Dec(6) == "6" && Dec(14) == "14" && Dec(15) == "15";
  }

  /** A fraction of five digits behind a zero. */
  lemma {:induction false} FiveDigits(fraction: string, last: string, n: nat)
    requires AllDigits(last) && |last| <= 5 && ToNat(last) == n && fraction == Repeat('0', 5 - |last|) + last
    ensures AllDigits(fraction) && AllDigits("0" + fraction) && ToNat("0" + fraction) == n
  {
    LeadingZeros(6 - |last|, last);
    assert "0" + fraction == Repeat('0', 6 - |last|) + last;
  }

  lemma {:induction false} SmallCurrency(negative: bool, fraction: string, n: nat, rounded: nat)
    requires |fraction| == 5 && AllDigits(fraction) && AllDigits("0" + fraction) && ToNat("0" + fraction) == n
    requires HalfEven(n * 10_000, 100_000, rounded) && rounded < 100
    ensures Currency(negative, "0", fraction) == Ok(rounded)
  {
    assert Pow(10, 5) == 100_000;
    CurrencyRounds(negative, "0", fraction, rounded);
  }

  /** No check on the way refuses a value the last one would take. */
  lemma CurrencyIsRoundedUnits(negative: bool, whole: string, fraction: string)
    requires AllDigits(whole) && AllDigits(fraction)
    ensures Currency(negative, whole, fraction)
            == if RoundedUnits(whole, fraction) <= Limit(negative) then Ok(RoundedUnits(whole, fraction)) else Err
  {
    WholeUnits(whole);
    PowPositive(10, PLACES);
    MulUp(ToNat(whole), Pow(10, PLACES));
    assert Scaled(ToNat(whole), PLACES) >= ToNat(whole);
  }

  lemma WholeUnits(whole: string)
    requires AllDigits(whole)
    ensures ToNat(CanonicalWholeDigits(whole)) == ToNat(whole)
  {
    CanonicalWholeIsDec(whole);
    DecRoundTrip(ToNat(whole));
  }

  lemma MulUp(n: nat, p: nat)
    requires p > 0
    ensures n * p >= n
  {
  }

  /** A rounded value always exists, so the statement above leaves no text out. */
  lemma RoundedExists(whole: string, fraction: string) returns (rounded: nat)
    requires AllDigits(whole) && AllDigits(fraction)
    ensures HalfEven(ToNat(whole + fraction) * 10_000, Pow(10, |fraction|), rounded)
  {
    RoundedCut(whole, fraction);
    assert Pow(10, PLACES) == 10_000;
    rounded := RoundedUnits(whole, fraction);
  }

  /** The text of an accepted currency value parses back to the rounded count. */
  lemma CurrencyTextParsesBack(negative: bool, whole: string, fraction: string)
    requires AllDigits(whole) && AllDigits(fraction) && Currency(negative, whole, fraction).Ok?
    ensures var count := Currency(negative, whole, fraction).value;
            ParseDecimalText(FormatByInsertion(count, PLACES, negative), Some(PLACES), None)
            == Ok(DecimalParts(negative && count != 0, count, PLACES))
  {
    PrintParse(Currency(negative, whole, fraction).value, PLACES, negative);
  }
}
