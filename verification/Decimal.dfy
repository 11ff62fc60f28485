/** Decimal text: the two printers, the parser, and what number a text stands for. */
module Decimal {
  import opened Prelude
  import opened Text

  const U128_MAX: nat := 0xffff_ffff_ffff_ffff_ffff_ffff_ffff_ffff

  // ---------------------------------------------------------------- digit strings

  function DigitValue(c: char): nat
    requires IsDigit(c)
  {
    (c - '0') as nat
  }

  function DigitChar(d: nat): (c: char)
    requires d < 10
    ensures IsDigit(c) && DigitValue(c) == d
  {
    '0' + d as char
  }

  /** `to_string` of an unsigned integer */
  function Dec(n: nat): (r: string)
    ensures AllDigits(r) && r != []
  {
    if n < 10 then [DigitChar(n)] else Dec(n / 10) + [DigitChar(n % 10)]
  }

  function ToNat(s: string): nat
    requires AllDigits(s)
  {
    if s == [] then 0 else 10 * ToNat(s[..|s| - 1]) + DigitValue(s[|s| - 1])
  }

  lemma {:induction false} DecRoundTrip(n: nat)
    ensures ToNat(Dec(n)) == n
    ensures if n < 10 then |Dec(n)| == 1 else Dec(n)[0] != '0'
    ensures n > 0 ==> Dec(n)[0] != '0'
  {
    if n >= 10 {
      DecRoundTrip(n / 10);
      assert Dec(n)[..|Dec(n)| - 1] == Dec(n / 10);
    }
  }

  lemma {:induction false} ToNatAppend(a: string, b: string)
    requires AllDigits(a) && AllDigits(b)
    ensures ToNat(a + b) == ToNat(a) * Pow(10, |b|) + ToNat(b)
  {
    if b == [] {
      assert a + b == a;
    } else {
      var last := |b| - 1;
      assert (a + b)[..|a + b| - 1] == a + b[..last];
      ToNatAppend(a, b[..last]);
      ScaleByTen(ToNat(a), Pow(10, last));
    }
  }

  lemma ScaleByTen(x: nat, p: nat)
    ensures x * (10 * p) == 10 * (x * p)
  {
  }

  lemma {:induction false} ToNatBound(s: string)
    requires AllDigits(s)
    ensures ToNat(s) < Pow(10, |s|)
  {
    if s != [] {
      ToNatBound(s[..|s| - 1]);
    }
  }

  lemma {:induction false} ZerosAreZero(n: nat)
    ensures AllDigits(Repeat('0', n)) && ToNat(Repeat('0', n)) == 0
  {
    if n > 0 {
      assert Repeat('0', n)[..n - 1] == Repeat('0', n - 1);
      ZerosAreZero(n - 1);
    }
  }

  lemma LeadingZeros(n: nat, s: string)
    requires AllDigits(s)
    ensures AllDigits(Repeat('0', n) + s) && ToNat(Repeat('0', n) + s) == ToNat(s)
  {
    ZerosAreZero(n);
    ToNatAppend(Repeat('0', n), s);
  }

  lemma TrailingZeros(s: string, n: nat)
    requires AllDigits(s)
    ensures AllDigits(s + Repeat('0', n)) && ToNat(s + Repeat('0', n)) == ToNat(s) * Pow(10, n)
  {
    ZerosAreZero(n);
    ToNatAppend(s, Repeat('0', n));
  }

  lemma {:induction false} SameWidthSameText(a: string, b: string)
    requires AllDigits(a) && AllDigits(b) && |a| == |b| && ToNat(a) == ToNat(b)
    ensures a == b
  {
    if a != [] {
      var last := |a| - 1;
      assert DigitValue(a[last]) == DigitValue(b[last]) && ToNat(a[..last]) == ToNat(b[..last]);
      SameWidthSameText(a[..last], b[..last]);
      assert a == a[..last] + [a[last]] && b == b[..last] + [b[last]];
    }
  }

  lemma {:induction false} PowPositive(base: nat, n: nat)
    requires base > 0
    ensures Pow(base, n) > 0
  {
    if n > 0 {
      PowPositive(base, n - 1);
    }
  }

  lemma {:induction false} PowAdd(base: nat, a: nat, b: nat)
    ensures Pow(base, a + b) == Pow(base, a) * Pow(base, b)
  {
    if a > 0 {
      PowAdd(base, a - 1, b);
      RegroupProduct(base, Pow(base, a - 1), Pow(base, b));
    }
  }

  lemma PowMonotone(base: nat, a: nat, b: nat)
    requires base > 0 && a <= b
    ensures Pow(base, a) <= Pow(base, b)
  {
    PowAdd(base, a, b - a);
    PowPositive(base, b - a);
    PowPositive(base, a);
    MulAtLeast(Pow(base, a), Pow(base, b - a));
  }

  /** A digit string without leading zeros is at least 10^(length - 1). */
  lemma {:induction false} NoLeadingZeroLarge(s: string)
    requires AllDigits(s) && s != [] && s[0] != '0'
    ensures ToNat(s) >= Pow(10, |s| - 1)
  {
    if |s| > 1 {
      NoLeadingZeroLarge(s[..|s| - 1]);
    }
  }

  predicate NoSuperfluousZero(s: string) {
    s != [] && (|s| == 1 || s[0] != '0')
  }

  lemma ShortestIsNotLonger(s: string, t: string)
    requires AllDigits(s) && AllDigits(t) && NoSuperfluousZero(s) && t != [] && ToNat(s) == ToNat(t)
    ensures |s| <= |t|
  {
    if |t| < |s| {
      NoLeadingZeroLarge(s);
      ToNatBound(t);
      PowMonotone(10, |t|, |s| - 1);
    }
  }

  /** The one text of a number without superfluous leading zeros. */
  lemma ShortestIsDec(s: string)
    requires AllDigits(s) && NoSuperfluousZero(s)
    ensures s == Dec(ToNat(s))
  {
    var t := Dec(ToNat(s));
    DecRoundTrip(ToNat(s));
    ShortestIsNotLonger(s, t);
    ShortestIsNotLonger(t, s);
    SameWidthSameText(s, t);
  }

  // ---------------------------------------------------------------- the two printers

  /** The number without its last `scale` digits, and those digits. */
  function WholePart(value: nat, scale: nat): nat {
    PowPositive(10, scale);
    value / Pow(10, scale)
  }

  function FractionPart(value: nat, scale: nat): nat {
    PowPositive(10, scale);
    value % Pow(10, scale)
  }

  lemma PartsOf(value: nat, scale: nat, whole: nat, fraction: nat)
    requires fraction < Pow(10, scale) && value == whole * Pow(10, scale) + fraction
    ensures WholePart(value, scale) == whole && FractionPart(value, scale) == fraction
  {
    DivModUnique(value, Pow(10, scale), whole, fraction);
  }

  /** `{n:0width$}` */
  function Pad(n: nat, width: nat): (r: string)
    ensures AllDigits(r)
  {
    var digits := Dec(n);
    Repeat('0', if |digits| < width then width - |digits| else 0) + digits
  }

  lemma PadIsFixedWidth(n: nat, width: nat)
    requires n < Pow(10, width) && width > 0
    ensures |Pad(n, width)| == width && ToNat(Pad(n, width)) == n
  {
    DecRoundTrip(n);
    if |Dec(n)| > width {
      NoLeadingZeroLarge(Dec(n));
      PowMonotone(10, width, |Dec(n)| - 1);
    }
    LeadingZeros(if |Dec(n)| < width then width - |Dec(n)| else 0, Dec(n));
  }

  function Sign(negative: bool): string {
    if negative then "-" else ""
  }

  /** Trailing zeros go, and then a point nothing follows. */
  function TrimFraction(text: string): string {
    DropTrailing(DropTrailing(text, '0'), '.')
  }

  /** `format_scaled_u128`: divide, print both parts, trim. */
  function FormatByDivision(value: nat, scale: nat, negative: bool): Result<string> {
    if Pow(10, scale) > U128_MAX then Err
    else if scale == 0 then Ok(Sign(negative) + Dec(value))
    else Ok(TrimFraction(Sign(negative) + Dec(WholePart(value, scale)) + ("." + Pad(FractionPart(value, scale), scale))))
  }

  /** The digits widened until one stands left of the point. */
  function Widened(value: nat, scale: nat): (r: string)
    ensures AllDigits(r) && |r| > scale
  {
    var digits := Dec(value);
    if |digits| <= scale then Repeat('0', scale + 1 - |digits|) + digits else digits
  }

  lemma WidenedValue(value: nat, scale: nat)
    ensures ToNat(Widened(value, scale)) == value
  {
    DecRoundTrip(value);
    if |Dec(value)| <= scale {
      LeadingZeros(scale + 1 - |Dec(value)|, Dec(value));
    }
  }

  /** `digits.insert(split, '.')` */
  function PointInserted(digits: string, scale: nat): string
    requires |digits| > scale
  {
    digits[..|digits| - scale] + ("." + digits[|digits| - scale..])
  }

  /** `format_scaled_u128_decimal`: insert the point into the digit string, trim. */
  function FormatByInsertion(value: nat, scale: nat, negative: bool): string {
    var text := if scale == 0 then Dec(value) else TrimFraction(PointInserted(Widened(value, scale), scale));
    if negative && value != 0 then "-" + text else text
  }

  /** `while digits.ends_with('0') { digits.pop() }` */
  method PopZeros(text: string) returns (digits: string)
    ensures digits == DropTrailing(text, '0')
  {
    digits := text;
    while digits != [] && digits[|digits| - 1] == '0'
      invariant DropTrailing(digits, '0') == DropTrailing(text, '0')
      decreases |digits|
    {
      digits := digits[..|digits| - 1];
    }
  }

  method InsertAndTrim(digits: string, scale: nat) returns (text: string)
    requires AllDigits(digits) && |digits| > scale
    ensures text == TrimFraction(PointInserted(digits, scale))
  {
    OnePointAtTheEnd(digits, scale);
    text := PopZeros(PointInserted(digits, scale));
    if text != [] && text[|text| - 1] == '.' {
      text := text[..|text| - 1];
    }
  }

  method Widen(value: nat, scale: nat) returns (digits: string)
    ensures digits == Widened(value, scale)
  {
    digits := Dec(value);
    if |digits| <= scale {
      digits := Repeat('0', scale + 1 - |digits|) + digits;
    }
  }

  /** The insertion printer as the source runs it, on one growing and shrinking string. */
  method PrintByInsertion(value: nat, scale: nat, negative: bool) returns (text: string)
    ensures text == FormatByInsertion(value, scale, negative)
  {
    text := Dec(value);
    if scale > 0 {
      text := Widen(value, scale);
      text := InsertAndTrim(text, scale);
    }
    if negative && value != 0 {
      text := "-" + text;
    }
  }

  /** The trimmed fraction, with its point unless it is empty. */
  function Tail(fraction: string): string {
    var kept := DropTrailing(fraction, '0');
    if kept == [] then [] else "." + kept
  }

  lemma ZerosTrimmed(head: string, fraction: string)
    ensures DropTrailing(head + ("." + fraction), '0') == head + ("." + DropTrailing(fraction, '0'))
  {
    assert head + ("." + fraction) == (head + ".") + fraction;
    DropTrailingBehind(head + ".", fraction, '0');
    assert (head + ".") + DropTrailing(fraction, '0') == head + ("." + DropTrailing(fraction, '0'));
  }

  lemma PointTrimmed(head: string, kept: string)
    requires AllDigits(kept) && head != [] && head[|head| - 1] != '.'
    ensures DropTrailing(head + ("." + kept), '.') == head + (if kept == [] then [] else "." + kept)
  {
    DropTrailingBehind(head, "." + kept, '.');
    if kept == [] {
      assert "." + kept == "." && "."[..0] == [];
    } else {
      assert ("." + kept)[|kept|] == kept[|kept| - 1];
    }
  }

  /** After the zeros are gone at most one point is left to drop. */
  lemma TrimmedFraction(head: string, fraction: string)
    requires AllDigits(fraction) && head != [] && head[|head| - 1] != '.'
    ensures TrimFraction(head + ("." + fraction)) == head + Tail(fraction)
  {
    ZerosTrimmed(head, fraction);
    DropTrailingSplits(fraction, '0');
    PointTrimmed(head, DropTrailing(fraction, '0'));
  }

  lemma {:induction false} DigitsStay(fraction: string)
    requires AllDigits(fraction)
    ensures AllDigits(DropTrailing(fraction, '0'))
  {
    DropTrailingSplits(fraction, '0');
    var kept := DropTrailing(fraction, '0');
    assert forall i | 0 <= i < |kept| :: kept[i] == fraction[i];
  }

  lemma {:induction false} OnePointAtTheEnd(digits: string, scale: nat)
    requires AllDigits(digits) && |digits| > scale
    ensures var text := DropTrailing(PointInserted(digits, scale), '0');
            DropTrailing(text, '.') == if text != [] && text[|text| - 1] == '.' then text[..|text| - 1] else text
  {
    var head, fraction := digits[..|digits| - scale], digits[|digits| - scale..];
    ZerosTrimmed(head, fraction);
    DigitsStay(fraction);
    PointBehindHead(head, DropTrailing(fraction, '0'));
  }

  lemma PointBehindHead(head: string, kept: string)
    requires AllDigits(head) && head != [] && AllDigits(kept)
    ensures var text := head + ("." + kept);
            DropTrailing(text, '.') == if text[|text| - 1] == '.' then text[..|text| - 1] else text
  {
    var text := head + ("." + kept);
    if kept == [] {
      assert text[|text| - 2] == head[|head| - 1];
      DropTrailingStops(text, '.');
    } else {
      assert text[|text| - 1] == kept[|kept| - 1];
    }
  }

  lemma DropTrailingStops(s: string, c: char)
    requires |s| >= 2 && s[|s| - 1] == c && s[|s| - 2] != c
    ensures DropTrailing(s, c) == s[..|s| - 1]
  {
  }

  /** Cutting a digit string at the scale divides its number by 10^scale. */
  lemma CutIsDivision(digits: string, scale: nat, value: nat)
    requires AllDigits(digits) && |digits| > scale > 0 && ToNat(digits) == value
    ensures ToNat(digits[..|digits| - scale]) == WholePart(value, scale)
    ensures digits[|digits| - scale..] == Pad(FractionPart(value, scale), scale)
  {
    var whole, fraction := digits[..|digits| - scale], digits[|digits| - scale..];
    assert digits == whole + fraction;
    ToNatAppend(whole, fraction);
    ToNatBound(fraction);
    PartsOf(value, scale, ToNat(whole), ToNat(fraction));
    PadIsFixedWidth(ToNat(fraction), scale);
    SameWidthSameText(fraction, Pad(ToNat(fraction), scale));
  }

  lemma WidenedCut(value: nat, scale: nat)
    requires scale > 0
    ensures var digits := Widened(value, scale);
            && digits[..|digits| - scale] == Dec(WholePart(value, scale))
            && digits[|digits| - scale..] == Pad(FractionPart(value, scale), scale)
  {
    var digits := Widened(value, scale);
    var whole := digits[..|digits| - scale];
    WidenedValue(value, scale);
    CutIsDivision(digits, scale, value);
    DecRoundTrip(value);
    assert whole[0] == digits[0];
    ShortestIsDec(whole);
  }

  lemma SplitIsDivision(value: nat, scale: nat)
    requires scale > 0
    ensures PointInserted(Widened(value, scale), scale)
            == Dec(WholePart(value, scale)) + ("." + Pad(FractionPart(value, scale), scale))
    ensures ToNat(Dec(WholePart(value, scale)) + Pad(FractionPart(value, scale), scale)) == value
    ensures |Pad(FractionPart(value, scale), scale)| == scale
  {
    var digits := Widened(value, scale);
    WidenedCut(value, scale);
    WidenedValue(value, scale);
    assert digits == digits[..|digits| - scale] + digits[|digits| - scale..];
  }

  /** Both printers give one text, at every magnitude and every scale a u128 power of ten
      allows, except that only the division printer signs zero. */
  lemma PrintersAgree(value: nat, scale: nat, negative: bool)
    requires Pow(10, scale) <= U128_MAX
    ensures FormatByDivision(value, scale, negative).Ok?
    ensures FormatByDivision(value, scale, negative).value == FormatByInsertion(value, scale, negative)
            <==> !(negative && value == 0)
  {
    PrintersAgreeUpToSign(value, scale, negative);
    InsertionText(value, scale);
    var text := FormatByInsertion(value, scale, false);
    assert text[0] == Dec(WholePart(value, scale))[0];
    if negative {
      assert (Sign(negative) + text)[0] == '-';
    } else {
      assert Sign(negative) + text == text;
    }
  }

  lemma TrimmedUnderSign(sign: string, whole: string, fraction: string)
    requires AllDigits(fraction) && AllDigits(whole) && whole != []
    ensures TrimFraction(sign + whole + ("." + fraction)) == sign + TrimFraction(whole + ("." + fraction))
  {
    assert (sign + whole)[|sign + whole| - 1] == whole[|whole| - 1];
    TrimmedFraction(whole, fraction);
    TrimmedFraction(sign + whole, fraction);
    assert sign + whole + Tail(fraction) == sign + (whole + Tail(fraction));
  }

  lemma PrintersAgreeUpToSign(value: nat, scale: nat, negative: bool)
    requires Pow(10, scale) <= U128_MAX
    ensures FormatByDivision(value, scale, negative) == Ok(Sign(negative) + FormatByInsertion(value, scale, false))
  {
    if scale > 0 {
      SplitIsDivision(value, scale);
      TrimmedUnderSign(Sign(negative), Dec(WholePart(value, scale)), Pad(FractionPart(value, scale), scale));
    }
  }

  /** How many units of 10^-scale the digits around a point stand for. */
  function UnitsOf(whole: string, fraction: string, scale: nat): nat
    requires AllDigits(whole) && AllDigits(fraction) && |fraction| <= scale
  {
    ToNat(whole + fraction) * Pow(10, scale - |fraction|)
  }

  /** The fraction digits a printer leaves. */
  function PrintedFraction(value: nat, scale: nat): string {
    if scale == 0 then [] else DropTrailing(Pad(FractionPart(value, scale), scale), '0')
  }

  function ShownText(whole: nat, fraction: string): string {
    Dec(whole) + (if fraction == [] then [] else "." + fraction)
  }

  lemma InsertionText(value: nat, scale: nat)
    ensures FormatByInsertion(value, scale, false) == ShownText(WholePart(value, scale), PrintedFraction(value, scale))
  {
    if scale > 0 {
      SplitIsDivision(value, scale);
      var whole := Dec(WholePart(value, scale));
      assert IsDigit(whole[|whole| - 1]);
      TrimmedFraction(whole, Pad(FractionPart(value, scale), scale));
    } else {
      assert value / 1 == value;
      assert Dec(value) + [] == Dec(value);
    }
  }

  /** Dropping the fraction's trailing zeros keeps the number. */
  lemma TrimmedUnits(whole: string, padded: string)
    requires AllDigits(whole) && AllDigits(padded)
    ensures var fraction := DropTrailing(padded, '0');
            && AllDigits(fraction) && |fraction| <= |padded|
            && UnitsOf(whole, fraction, |padded|) == ToNat(whole + padded)
  {
    var fraction := DropTrailing(padded, '0');
    DropTrailingSplits(padded, '0');
    assert forall i | 0 <= i < |fraction| :: fraction[i] == padded[i];
    PaddedUnits(whole, fraction, |padded| - |fraction|);
  }

  lemma PaddedUnits(whole: string, fraction: string, n: nat)
    requires AllDigits(whole) && AllDigits(fraction)
    ensures AllDigits(whole + (fraction + Repeat('0', n)))
    ensures ToNat(whole + (fraction + Repeat('0', n))) == UnitsOf(whole, fraction, |fraction| + n)
  {
    TrailingZeros(whole + fraction, n);
    assert whole + (fraction + Repeat('0', n)) == whole + fraction + Repeat('0', n);
  }

  lemma InsertionDigits(value: nat, scale: nat)
    ensures var fraction := PrintedFraction(value, scale);
            && AllDigits(fraction) && |fraction| <= scale
            && UnitsOf(Dec(WholePart(value, scale)), fraction, scale) == value
  {
    var whole := Dec(WholePart(value, scale));
    if scale > 0 {
      SplitIsDivision(value, scale);
      TrimmedUnits(whole, Pad(FractionPart(value, scale), scale));
    } else {
      PartsOf(value, 0, value, 0);
      assert whole + [] == whole;
      DecRoundTrip(value);
    }
  }

  // ---------------------------------------------------------------- the parser

  datatype DecimalParts = DecimalParts(negative: bool, magnitude: nat, scale: nat)

  /** `validate_precision`; ten to the precision must itself fit in 128 bits. */
  predicate FitsPrecision(magnitude: nat, precision: Option<nat>) {
    precision.Some? ==> Pow(10, precision.value) <= U128_MAX && magnitude < Pow(10, precision.value)
  }

  /** A precision is a number of digits: the magnitude has no more of them, and 38 is the most there can be. */
  lemma PrecisionIsDigits(magnitude: nat, precision: nat)
    requires precision > 0
    ensures FitsPrecision(magnitude, Some(precision)) <==> precision <= 38 && |Dec(magnitude)| <= precision
  {
    DecRoundTrip(magnitude);
    ToNatBound(Dec(magnitude));
    Power38();
    if precision <= 38 {
      PowMonotone(10, precision, 38);
    } else {
      PowMonotone(10, 39, precision);
    }
    if |Dec(magnitude)| <= precision {
      PowMonotone(10, |Dec(magnitude)|, precision);
    } else {
      NoLeadingZeroLarge(Dec(magnitude));
      PowMonotone(10, precision, |Dec(magnitude)| - 1);
    }
  }

  lemma Power38()
    ensures Pow(10, 38) <= U128_MAX < Pow(10, 39)
  {
    assert Pow(10, 9) == 1_000_000_000;
    PowAdd(10, 9, 10);
    assert Pow(10, 10) == 10_000_000_000;
    PowAdd(10, 19, 19);
    assert Pow(10, 39) == 10 * Pow(10, 38);
  }

  function StripPrefix(s: string, c: char): string {
    if s != [] && s[0] == c then s[1..] else s
  }

  function Prefixed(present: bool, c: char, s: string): string {
    if present then [c] + s else s
  }

  lemma StripPrefixed(present: bool, c: char, s: string)
    requires s == [] || s[0] != c
    ensures StripPrefix(Prefixed(present, c, s), c) == s
  {
    assert ([c] + s)[1..] == s;
  }

  lemma PrefixedAgain(s: string, c: char)
    ensures s == Prefixed(s != [] && s[0] == c, c, StripPrefix(s, c))
  {
    if s != [] {
      assert s == [s[0]] + s[1..];
    }
  }

  /** `digits.parse::<u128>().unwrap_or(0)` */
  function ParseU128OrZero(digits: string): nat
    requires AllDigits(digits)
  {
    if ToNat(digits) <= U128_MAX then ToNat(digits) else 0
  }

  lemma DropLeadingDigits(s: string)
    requires AllDigits(s)
    ensures AllDigits(DropLeading(s, '0')) && ToNat(DropLeading(s, '0')) == ToNat(s)
  {
    DropLeadingSplits(s, '0');
    var r := DropLeading(s, '0');
    assert r == s[|s| - |r|..];
    LeadingZeros(|s| - |r|, r);
  }

  /** The digits behind the sign at the wanted scale, read as a number. */
  function ScaledMagnitude(whole: string, fraction: string, scale: nat): nat
    requires AllDigits(whole) && AllDigits(fraction) && |fraction| <= scale
  {
    TrailingZeros(whole + fraction, scale - |fraction|);
    DropLeadingDigits(whole + fraction + Repeat('0', scale - |fraction|));
    ParseU128OrZero(DropLeading(whole + fraction + Repeat('0', scale - |fraction|), '0'))
  }

  function ParseBody(negative: bool, whole: string, fraction: string, scale: nat, precision: Option<nat>): Result<DecimalParts> {
    if whole == [] && fraction == [] then Err
    else if !AllDigits(whole) || !AllDigits(fraction) then Err
    else if |fraction| > scale then Err
    else
      var magnitude := ScaledMagnitude(whole, fraction, scale);
      if FitsPrecision(magnitude, precision) then Ok(DecimalParts(negative && magnitude != 0, magnitude, scale)) else Err
  }

  /** The texts the parser is meant for: signs, digits, and a point with more digits. */
  datatype DecimalText = DecimalText(minus: bool, plus: bool, whole: string, point: bool, fraction: string) {
    predicate Valid() {
      AllDigits(whole) && AllDigits(fraction) && (whole != [] || fraction != []) && (fraction != [] ==> point)
    }
    function Unsigned(): string {
      if point then whole + ("." + fraction) else whole
    }
    function Render(): string {
      Prefixed(minus, '-', Prefixed(plus, '+', Unsigned()))
    }
    function Units(scale: nat): nat
      requires Valid() && |fraction| <= scale
    {
      UnitsOf(whole, fraction, scale)
    }
    function Scale(expected: Option<nat>): nat {
      if expected.Some? then expected.value else |fraction|
    }
  }

  /** Sign, digits and fraction as the parser cuts them off a trimmed text. */
  function Decompose(trimmed: string): DecimalText {
    var unsigned := StripPrefix(trimmed, '-');
    var body := StripPrefix(unsigned, '+');
    var minus, plus := trimmed != [] && trimmed[0] == '-', unsigned != [] && unsigned[0] == '+';
    match SplitOnce(body, '.')
    case Some(parts) => DecimalText(minus, plus, parts.0, true, parts.1)
    case None => DecimalText(minus, plus, body, false, "")
  }

  /** `parse_decimal_text` */
  function ParseDecimalText(text: string, expectedScale: Option<nat>, precision: Option<nat>): Result<DecimalParts> {
    var t := Decompose(Trim(text));
    ParseBody(t.minus, t.whole, t.fraction, t.Scale(expectedScale), precision)
  }

  lemma SplitRejoins(body: string)
    ensures match SplitOnce(body, '.')
            case Some(parts) => parts.0 + ("." + parts.1) == body
            case None => true
  {
    var split := SplitOnce(body, '.');
    if split.Some? {
      Regrouped(split.value.0, ".", split.value.1);
    }
  }

  lemma RenderDecomposed(trimmed: string)
    ensures Decompose(trimmed).Render() == trimmed
  {
    var unsigned := StripPrefix(trimmed, '-');
    PrefixedAgain(trimmed, '-');
    PrefixedAgain(unsigned, '+');
    SplitRejoins(StripPrefix(unsigned, '+'));
  }

  lemma UnsignedSplits(t: DecimalText)
    requires t.Valid()
    ensures SplitOnce(t.Unsigned(), '.') == if t.point then Some((t.whole, t.fraction)) else None
    ensures t.Unsigned() != [] && t.Unsigned()[0] != '-' && t.Unsigned()[0] != '+'
    ensures !IsWhitespace(t.Unsigned()[0]) && !IsWhitespace(t.Unsigned()[|t.Unsigned()| - 1])
  {
    var u := t.Unsigned();
    if t.point {
      assert u == t.whole + ['.'] + t.fraction;
      SplitOnceAt(t.whole, '.', t.fraction);
      assert u[0] == if t.whole == [] then '.' else t.whole[0];
      assert u[|u| - 1] == if t.fraction == [] then '.' else t.fraction[|t.fraction| - 1];
    } else {
      assert u == t.whole;
    }
  }

  /** Where a signed text begins and ends. */
  lemma PrefixEnds(present: bool, c: char, s: string)
    requires s != []
    ensures var r := Prefixed(present, c, s); r != [] && r[0] == (if present then c else s[0]) && r[|r| - 1] == s[|s| - 1]
  {
  }

  lemma RenderStrips(t: DecimalText)
    requires t.Valid()
    ensures var r := t.Render();
            && r != [] && !IsWhitespace(r[0]) && !IsWhitespace(r[|r| - 1])
            && (r[0] == '-' <==> t.minus)
            && StripPrefix(StripPrefix(r, '-'), '+') == t.Unsigned()
  {
    UnsignedSplits(t);
    var plus := Prefixed(t.plus, '+', t.Unsigned());
    PrefixEnds(t.plus, '+', t.Unsigned());
    PrefixEnds(t.minus, '-', plus);
    StripPrefixed(t.plus, '+', t.Unsigned());
    StripPrefixed(t.minus, '-', plus);
  }

  lemma DecomposeRendered(t: DecimalText)
    requires t.Valid()
    ensures Decompose(t.Render()) == t
  {
    RenderStrips(t);
    UnsignedSplits(t);
    StripPrefixed(t.minus, '-', Prefixed(t.plus, '+', t.Unsigned()));
  }

  /** What a text's number becomes. */
  function Meaning(t: DecimalText, scale: nat, precision: Option<nat>): Result<DecimalParts>
    requires t.Valid()
  {
    if |t.fraction| > scale then Err
    else
      var units := t.Units(scale);
      var kept := if units <= U128_MAX then units else 0;
      if FitsPrecision(kept, precision) then Ok(DecimalParts(t.minus && kept != 0, kept, scale)) else Err
  }

  /** What the parser makes of every text it is meant for: exactly its number, unless the
      number needs more than 128 bits, which silently reads as zero. */
  lemma {:induction false} ParseMeaning(t: DecimalText, left: string, right: string, expected: Option<nat>, precision: Option<nat>)
    requires t.Valid() && AllWhitespace(left) && AllWhitespace(right)
    ensures ParseDecimalText(left + t.Render() + right, expected, precision) == Meaning(t, t.Scale(expected), precision)
  {
    RenderStrips(t);
    TrimPadding(left, t.Render(), right);
    DecomposeRendered(t);
    ParseTrimmed(left + t.Render() + right, t, expected, precision);
  }

  lemma {:induction false} ParseTrimmed(text: string, t: DecimalText, expected: Option<nat>, precision: Option<nat>)
    requires t.Valid() && Decompose(Trim(text)) == t
    ensures ParseDecimalText(text, expected, precision) == Meaning(t, t.Scale(expected), precision)
  {
    BodyMeaning(t, t.Scale(expected), precision);
  }

  lemma BodyMeaning(t: DecimalText, scale: nat, precision: Option<nat>)
    requires t.Valid()
    ensures ParseBody(t.minus, t.whole, t.fraction, scale, precision) == Meaning(t, scale, precision)
  {
    if |t.fraction| <= scale {
      MagnitudeIsUnits(t, scale);
    }
  }

  lemma MagnitudeIsUnits(t: DecimalText, scale: nat)
    requires t.Valid() && |t.fraction| <= scale
    ensures ScaledMagnitude(t.whole, t.fraction, scale) == if t.Units(scale) <= U128_MAX then t.Units(scale) else 0
  {
    TrailingZeros(t.whole + t.fraction, scale - |t.fraction|);
    DropLeadingDigits(t.whole + t.fraction + Repeat('0', scale - |t.fraction|));
  }

  /** Nothing else is accepted. */
  lemma ParseAcceptsOnlyDecimals(text: string, expected: Option<nat>, precision: Option<nat>) returns (t: DecimalText)
    requires ParseDecimalText(text, expected, precision).Ok?
    ensures t.Valid() && t.Render() == Trim(text) && t == Decompose(Trim(text))
  {
    t := Decompose(Trim(text));
    RenderDecomposed(Trim(text));
  }

  /** The number a text stands for, whatever its size: None for a text that is no decimal or has more
      places than the scale. */
  function Meant(text: string, expected: Option<nat>): Option<DecimalParts> {
    var t := Decompose(Trim(text));
    var scale := t.Scale(expected);
    if t.Valid() && |t.fraction| <= scale then Some(DecimalParts(t.minus && t.Units(scale) != 0, t.Units(scale), scale)) else None
  }

  /** A text is parsed as the number it stands for exactly when that fits 128 bits, and as zero
      otherwise. */
  lemma ParsedIsMeant(text: string, expected: Option<nat>, precision: Option<nat>)
    requires ParseDecimalText(text, expected, precision).Ok?
    ensures Meant(text, expected).Some?
    ensures var meant, parsed := Meant(text, expected).value, ParseDecimalText(text, expected, precision).value;
            && (parsed == meant <==> meant.magnitude <= U128_MAX)
            && (meant.magnitude > U128_MAX ==> parsed == DecimalParts(false, 0, meant.scale))
  {
    var t := ParseAcceptsOnlyDecimals(text, expected, precision);
    BodyMeaning(Decompose(Trim(text)), Decompose(Trim(text)).Scale(expected), precision);
  }

  /** The printed text, as parts. */
  function Printed(value: nat, scale: nat, negative: bool): DecimalText {
    var fraction := PrintedFraction(value, scale);
    DecimalText(negative && value != 0, false, Dec(WholePart(value, scale)), fraction != [], fraction)
  }

  lemma PrintedRenders(value: nat, scale: nat, negative: bool)
    ensures Printed(value, scale, negative).Valid()
    ensures Printed(value, scale, negative).Render() == FormatByInsertion(value, scale, negative)
  {
    InsertionDigits(value, scale);
    InsertionText(value, scale);
    var whole := Dec(WholePart(value, scale));
    assert whole + [] == whole;
  }

  lemma PrintedMeaning(value: nat, scale: nat, negative: bool, precision: Option<nat>)
    ensures Printed(value, scale, negative).Valid()
    ensures ParseDecimalText(FormatByInsertion(value, scale, negative), Some(scale), precision)
            == Meaning(Printed(value, scale, negative), scale, precision)
  {
    var t := Printed(value, scale, negative);
    PrintedRenders(value, scale, negative);
    RenderStrips(t);
    TrimNothing(t.Render());
    DecomposeRendered(t);
    BodyMeaning(t, scale, precision);
  }

  lemma PrintedUnits(value: nat, scale: nat, negative: bool)
    ensures var t := Printed(value, scale, negative);
            && t.Valid() && t.minus == (negative && value != 0)
            && |t.fraction| <= scale && t.Units(scale) == value
  {
    PrintedRenders(value, scale, negative);
    InsertionDigits(value, scale);
  }

  /** Printing and parsing at one scale: the magnitude and the sign of a nonzero number come
      back if and only if the magnitude fits in 128 bits. */
  lemma PrintParse(value: nat, scale: nat, negative: bool)
    ensures ParseDecimalText(FormatByInsertion(value, scale, negative), Some(scale), None)
            == Ok(DecimalParts(negative && value != 0, value, scale))
            <==> value <= U128_MAX
  {
    PrintedMeaning(value, scale, negative, None);
    PrintedUnits(value, scale, negative);
  }

  /** The same with a descriptor precision the magnitude respects. */
  lemma PrintParseWithin(value: nat, scale: nat, negative: bool, precision: nat)
    requires Pow(10, precision) <= U128_MAX && value < Pow(10, precision)
    ensures ParseDecimalText(FormatByInsertion(value, scale, negative), Some(scale), Some(precision))
            == Ok(DecimalParts(negative && value != 0, value, scale))
  {
    PrintedMeaning(value, scale, negative, Some(precision));
    PrintedUnits(value, scale, negative);
  }
}
