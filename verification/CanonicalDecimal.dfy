/** Comparing decimals by a canonical text. */
module CanonicalDecimal {
  import opened Prelude
  import opened Text
  import opened Decimal

  /** `trim_start_matches('0')`, and a single zero if nothing is left */
  function CanonicalWhole(whole: string): string {
    var kept := DropLeading(whole, '0');
    if kept == [] then "0" else kept
  }

  /** `canonical_decimal_text` behind the trim */
  function CanonicalOf(negative: bool, whole: string, fraction: string): string {
    var whole := CanonicalWhole(whole);
    var fraction := DropTrailing(fraction, '0');
    if fraction != [] then Sign(negative) + (whole + ("." + fraction))
    else if negative && whole != "0" then "-" + whole
    else whole
  }

  /** `canonical_decimal_text` */
  function CanonicalText(raw: string): string {
    var trimmed := Trim(raw);
    var negative := trimmed != [] && trimmed[0] == '-';
    var body := StripPrefix(trimmed, '-');
    match SplitOnce(body, '.')
    case Some(parts) => CanonicalOf(negative, parts.0, parts.1)
    case None => CanonicalOf(negative, body, "")
  }

  /** The plain decimal texts: no plus sign, which the comparison does not know. */
  predicate Plain(t: DecimalText) {
    t.Valid() && !t.plus
  }

  function Digits(t: DecimalText): nat
    requires t.Valid()
  {
    ToNat(t.whole + t.fraction)
  }

  /** Equal as numbers: the same magnitude over a common power of ten, and the same sign
      unless they are zero. */
  predicate SameNumber(a: DecimalText, b: DecimalText)
    requires a.Valid() && b.Valid()
  {
    && Scaled(Digits(a), |b.fraction|) == Scaled(Digits(b), |a.fraction|)
    && (a.minus == b.minus || Digits(a) == 0)
  }

  // ---------------------------------------------------------------- the canonical text is the printed one

  lemma CanonicalWholeIsDec(whole: string)
    requires AllDigits(whole)
    ensures CanonicalWhole(whole) == Dec(ToNat(whole))
  {
    DropLeadingDigits(whole);
    DropLeadingSplits(whole, '0');
    var kept := DropLeading(whole, '0');
    if kept != [] {
      ShortestIsDec(kept);
    }
  }

  /** Cutting digits at the fraction divides their number. */
  lemma CutDigits(whole: string, fraction: string)
    requires AllDigits(whole) && AllDigits(fraction)
    ensures var n := ToNat(whole + fraction);
            && ToNat(whole) == WholePart(n, |fraction|)
            && (fraction != [] ==> fraction == Pad(FractionPart(n, |fraction|), |fraction|))
  {
    var n := ToNat(whole + fraction);
    ToNatAppend(whole, fraction);
    ToNatBound(fraction);
    PartsOf(n, |fraction|, ToNat(whole), ToNat(fraction));
    if fraction != [] {
      PadIsFixedWidth(ToNat(fraction), |fraction|);
      SameWidthSameText(fraction, Pad(ToNat(fraction), |fraction|));
    }
  }

  lemma {:induction false} DropTrailingZeros(s: string, n: nat)
    ensures DropTrailing(s + Repeat('0', n), '0') == DropTrailing(s, '0')
  {
    if n == 0 {
      assert s + Repeat('0', 0) == s;
    } else {
      assert (s + Repeat('0', n))[..|s| + n - 1] == s + Repeat('0', n - 1);
      DropTrailingZeros(s, n - 1);
    }
  }

  lemma CanonicalOfIsPrinted(negative: bool, whole: string, fraction: string)
    requires AllDigits(whole) && AllDigits(fraction)
    ensures CanonicalOf(negative, whole, fraction) == FormatByInsertion(ToNat(whole + fraction), |fraction|, negative)
  {
    var n := ToNat(whole + fraction);
    CanonicalWholeIsDec(whole);
    CutDigits(whole, fraction);
    InsertionText(n, |fraction|);
    ZeroShows(whole, fraction);
    var kept := DropTrailing(fraction, '0');
    assert kept == PrintedFraction(n, |fraction|);
    assert kept == [] ==> Dec(ToNat(whole)) + [] == Dec(ToNat(whole));
    assert kept != [] ==> "" + (Dec(ToNat(whole)) + ("." + kept)) == Dec(ToNat(whole)) + ("." + kept);
  }

  /** The number is zero just when both canonical parts are. */
  lemma {:induction false} ZeroShows(whole: string, fraction: string)
    requires AllDigits(whole) && AllDigits(fraction)
    ensures ToNat(whole + fraction) == 0 <==> Dec(ToNat(whole)) == "0" && DropTrailing(fraction, '0') == []
  {
    ToNatAppend(whole, fraction);
    PowPositive(10, |fraction|);
    ZeroText(ToNat(whole));
    FractionZero(fraction);
    ProductZero(ToNat(whole), Pow(10, |fraction|));
  }

  lemma {:induction false} ZeroText(n: nat)
    ensures Dec(n) == "0" <==> n == 0
  {
    DecRoundTrip(n);
    DecRoundTrip(0);
  }

  lemma ProductZero(a: nat, b: nat)
    requires b > 0
    ensures a * b == 0 <==> a == 0
  {
    if a > 0 {
      MulAtLeast(b, a);
    }
  }

  lemma {:induction false} FractionZero(fraction: string)
    requires AllDigits(fraction)
    ensures DropTrailing(fraction, '0') == [] <==> ToNat(fraction) == 0
  {
    if fraction != [] && fraction[|fraction| - 1] == '0' {
      FractionZero(fraction[..|fraction| - 1]);
    }
  }

  /** The comparison's canonical text of a plain decimal is the text the printers give its digits. */
  lemma CanonicalIsPrinted(t: DecimalText, left: string, right: string)
    requires Plain(t) && AllWhitespace(left) && AllWhitespace(right)
    ensures CanonicalText(left + t.Render() + right) == FormatByInsertion(Digits(t), |t.fraction|, t.minus)
  {
    RenderStrips(t);
    TrimPadding(left, t.Render(), right);
    UnsignedSplits(t);
    StripPrefixed(t.minus, '-', t.Unsigned());
    CanonicalOfIsPrinted(t.minus, t.whole, t.fraction);
  }

  // ---------------------------------------------------------------- equal texts, equal numbers

  /** The digits of a number written k places further left. */
  function Scaled(n: nat, k: nat): nat {
    n * Pow(10, k)
  }

  lemma ScaledBelow(f: nat, scale: nat, k: nat)
    requires f < Pow(10, scale)
    ensures Scaled(f, k) < Pow(10, scale + k)
  {
    PowAdd(10, scale, k);
    PowPositive(10, k);
    ProductBelow(f, Pow(10, scale), Pow(10, k));
  }

  lemma ProductBelow(f: nat, p: nat, q: nat)
    requires f < p && q > 0
    ensures f * q < p * q
  {
  }

  lemma Distribute(w: nat, p: nat, f: nat, q: nat)
    ensures (w * p + f) * q == w * (p * q) + f * q
  {
    RegroupProduct(w, p, q);
  }

  lemma ShiftedParts(value: nat, scale: nat, k: nat)
    ensures WholePart(Scaled(value, k), scale + k) == WholePart(value, scale)
    ensures FractionPart(Scaled(value, k), scale + k) == Scaled(FractionPart(value, scale), k)
  {
    PowPositive(10, scale);
    var w, f := WholePart(value, scale), FractionPart(value, scale);
    DivideBack(value, scale);
    PowAdd(10, scale, k);
    Distribute(w, Pow(10, scale), f, Pow(10, k));
    ScaledBelow(f, scale, k);
    PartsOf(Scaled(value, k), scale + k, w, Scaled(f, k));
  }

  lemma DivideBack(value: nat, scale: nat)
    ensures FractionPart(value, scale) < Pow(10, scale)
    ensures value == WholePart(value, scale) * Pow(10, scale) + FractionPart(value, scale)
  {
    PowPositive(10, scale);
  }

  lemma PadShift(f: nat, scale: nat, k: nat)
    requires scale > 0 && f < Pow(10, scale)
    ensures Pad(Scaled(f, k), scale + k) == Pad(f, scale) + Repeat('0', k)
  {
    PadIsFixedWidth(f, scale);
    ScaledBelow(f, scale, k);
    PadIsFixedWidth(Scaled(f, k), scale + k);
    TrailingZeros(Pad(f, scale), k);
    SameWidthSameText(Pad(Scaled(f, k), scale + k), Pad(f, scale) + Repeat('0', k));
  }

  lemma NoFraction(value: nat, k: nat)
    ensures PrintedFraction(Scaled(value, k), k) == []
  {
    if k > 0 {
      PowPositive(10, k);
      PartsOf(Scaled(value, k), k, value, 0);
      PadIsFixedWidth(0, k);
      FractionZero(Pad(0, k));
    }
  }

  lemma FractionAtMoreDigits(value: nat, scale: nat, k: nat)
    ensures PrintedFraction(Scaled(value, k), scale + k) == PrintedFraction(value, scale)
  {
    if scale == 0 {
      NoFraction(value, k);
    } else {
      ShiftedParts(value, scale, k);
      DivideBack(value, scale);
      PadShift(FractionPart(value, scale), scale, k);
      DropTrailingZeros(Pad(FractionPart(value, scale), scale), k);
    }
  }

  lemma ScaledZero(value: nat, k: nat)
    ensures Scaled(value, k) == 0 <==> value == 0
  {
    PowPositive(10, k);
    ProductZero(value, Pow(10, k));
  }

  lemma SameParts(m: nat, a: nat, n: nat, b: nat)
    requires WholePart(m, a) == WholePart(n, b) && PrintedFraction(m, a) == PrintedFraction(n, b)
    ensures FormatByInsertion(m, a, false) == FormatByInsertion(n, b, false)
  {
    InsertionText(m, a);
    InsertionText(n, b);
  }

  lemma UnsignedAtMoreDigits(value: nat, scale: nat, k: nat)
    ensures FormatByInsertion(Scaled(value, k), scale + k, false) == FormatByInsertion(value, scale, false)
  {
    ShiftedParts(value, scale, k);
    FractionAtMoreDigits(value, scale, k);
    SameParts(Scaled(value, k), scale + k, value, scale);
  }

  /** Writing a number with more fraction digits prints the same text. */
  lemma MoreDigitsSameText(value: nat, scale: nat, k: nat, negative: bool)
    ensures FormatByInsertion(Scaled(value, k), scale + k, negative) == FormatByInsertion(value, scale, negative)
  {
    UnsignedAtMoreDigits(value, scale, k);
    ScaledZero(value, k);
    SignedText(value, scale, negative);
    SignedText(Scaled(value, k), scale + k, negative);
  }

  lemma SignedText(value: nat, scale: nat, negative: bool)
    ensures FormatByInsertion(value, scale, negative)
            == if negative && value != 0 then "-" + FormatByInsertion(value, scale, false) else FormatByInsertion(value, scale, false)
  {
  }

  lemma EqualNumbersEqualTexts(m: nat, a: nat, n: nat, b: nat, negative: bool)
    requires Scaled(m, b) == Scaled(n, a)
    ensures FormatByInsertion(m, a, negative) == FormatByInsertion(n, b, negative)
  {
    MoreDigitsSameText(m, a, b, negative);
    MoreDigitsSameText(n, b, a, negative);
  }

  lemma EqualTextsEqualNumbers(m: nat, a: nat, x: bool, n: nat, b: nat, y: bool)
    requires FormatByInsertion(m, a, x) == FormatByInsertion(n, b, y)
    ensures Scaled(m, b) == Scaled(n, a)
    ensures (x && m != 0) == (y && n != 0)
  {
    PrintedRenders(m, a, x);
    PrintedRenders(n, b, y);
    DecomposeRendered(Printed(m, a, x));
    DecomposeRendered(Printed(n, b, y));
    PrintedUnits(m, a, x);
    PrintedUnits(n, b, y);
    SameDigitsScale(Printed(m, a, x), a, b);
  }

  lemma SameDigitsScale(t: DecimalText, a: nat, b: nat)
    requires t.Valid() && |t.fraction| <= a && |t.fraction| <= b
    ensures Scaled(t.Units(a), b) == Scaled(t.Units(b), a)
  {
    var n, k := Digits(t), |t.fraction|;
    assert t.Units(a) == Scaled(n, a - k) && t.Units(b) == Scaled(n, b - k);
    ScaledTwice(n, a - k, b);
    ScaledTwice(n, b - k, a);
  }

  lemma ScaledTwice(n: nat, j: nat, k: nat)
    ensures Scaled(Scaled(n, j), k) == Scaled(n, j + k)
  {
    PowAdd(10, j, k);
    RegroupProduct(n, Pow(10, j), Pow(10, k));
  }

  /** Two plain decimals, of any length and with any padding, get one canonical text if and only
      if they are the same number. */
  lemma CanonicalDecidesEquality(a: DecimalText, b: DecimalText, left: string, right: string)
    requires Plain(a) && Plain(b) && AllWhitespace(left) && AllWhitespace(right)
    ensures CanonicalText(left + a.Render() + right) == CanonicalText(left + b.Render() + right) <==> SameNumber(a, b)
  {
    CanonicalIsPrinted(a, left, right);
    CanonicalIsPrinted(b, left, right);
    var m, n := Digits(a), Digits(b);
    var s, t := |a.fraction|, |b.fraction|;
    ScaledZero(m, t);
    ScaledZero(n, s);
    if SameNumber(a, b) {
      EqualNumbersEqualTexts(m, s, n, t, a.minus);
    }
    if FormatByInsertion(m, s, a.minus) == FormatByInsertion(n, t, b.minus) {
      EqualTextsEqualNumbers(m, s, a.minus, n, t, b.minus);
    }
  }
}
