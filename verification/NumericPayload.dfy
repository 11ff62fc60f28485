/** The binary NUMERIC, DECIMAL and VARNUMERIC payloads, and the variable-length bytes the last
    one travels in. */
module NumericPayload {
  import opened Prelude
  import opened Text
  import opened Decimal

  /** The descriptor entries the payload writers and readers look at. */
  datatype NumericField = NumericField(definedSize: nat, precision: nat, scale: nat, fixed: bool, long: bool)

  /** 128 bits in bytes, and the 96 a DECIMAL keeps. */
  const WORD := 16
  const DECIMAL_BYTES := 12

  function SignByte(negative: bool): byte {
    if negative then 0 else 1
  }

  lemma Widths()
    ensures Pow(256, 16) == U128_MAX + 1
    ensures Pow(10, 38) <= U128_MAX < Pow(10, 39)
    ensures Pow(10, 28) <= Pow(256, 12)
  {
    PowAdd(256, 8, 8);
    assert Pow(256, 8) == 0x1_0000_0000_0000_0000;
    PowAdd(256, 8, 4);
    assert Pow(256, 4) == 0x1_0000_0000;
    PowAdd(10, 19, 19);
    assert Pow(10, 19) == 1_00000_00000_00000_0000;
    PowAdd(10, 19, 20);
    assert Pow(10, 20) == 10_00000_00000_00000_0000;
    PowAdd(10, 19, 9);
    assert Pow(10, 9) == 1_000_000_000;
  }

  lemma PowerOfTen38()
    ensures Pow(10, 38) == 100_000_000_000_000_000_000_000_000_000_000_000_000
  {
    assert Pow(10, 9) == 1_000_000_000;
    PowAdd(10, 9, 10);
    assert Pow(10, 10) == 10_000_000_000;
    PowAdd(10, 19, 19);
  }

  lemma PrecisionBound(precision: nat)
    ensures Pow(10, precision) <= U128_MAX <==> precision <= 38
  {
    PowerOfTen38();
    if precision <= 38 {
      PowMonotone(10, precision, 38);
    } else {
      PowMonotone(10, 39, precision);
      assert Pow(10, 39) == 10 * Pow(10, 38);
    }
  }

  // ---------------------------------------------------------------- checks of the readers

  predicate PrecisionOk(precision: nat) {
    1 <= precision <= 38
  }

  predicate ScaleOk(scale: nat, precision: nat) {
    scale <= 38 && scale <= precision
  }

  /** `numeric_precision_value`, `numeric_scale_value`, `numeric_sign_value` and
      `validate_numeric_magnitude_precision` in a row. */
  function CheckNumeric(precision: nat, scale: nat, sign: nat, magnitude: nat): Result<DecimalParts> {
    if !PrecisionOk(precision) || !ScaleOk(scale, precision) || sign > 1 then Err
    else if !FitsPrecision(magnitude, Some(precision)) then Err
    else Ok(DecimalParts(sign == 0, magnitude, scale))
  }

  /** The text every reader returns. */
  function TextOf(parts: DecimalParts): Result<string> {
    FormatByDivision(parts.magnitude, parts.scale, parts.negative)
  }

  /** Parts the writer parsed: 128 bits at most, and no negative zero. */
  predicate Normal(parts: DecimalParts) {
    parts.magnitude <= U128_MAX && (parts.negative ==> parts.magnitude != 0)
  }

  lemma ParsedIsNormal(text: string, scale: Option<nat>, precision: Option<nat>)
    requires ParseDecimalText(text, scale, precision).Ok?
    ensures var parts := ParseDecimalText(text, scale, precision).value;
            && Normal(parts) && FitsPrecision(parts.magnitude, precision)
            && (scale.Some? ==> parts.scale == scale.value)
  {
  }

  /** A reader's text parses back to the parts the writer encoded. */
  lemma TextParsesBack(parts: DecimalParts)
    requires Normal(parts) && parts.scale <= 38
    ensures TextOf(parts).Ok?
    ensures ParseDecimalText(TextOf(parts).value, Some(parts.scale), None) == Ok(parts)
  {
    PrecisionBound(parts.scale);
    PrintersAgree(parts.magnitude, parts.scale, parts.negative);
    PrintParse(parts.magnitude, parts.scale, parts.negative);
  }

  // ---------------------------------------------------------------- NUMERIC

  function ParseNumeric(field: NumericField, text: string): Result<DecimalParts> {
    if field.precision > 255 then Err
    else
      var parts :- ParseDecimalText(text, Some(field.scale), Some(field.precision));
      if field.scale > 255 then Err else Ok(parts)
  }

  /** `write_numeric` */
  function WriteNumeric(field: NumericField, text: string): Result<seq<byte>> {
    var parts :- ParseNumeric(field, text);
    Ok([field.precision, field.scale, SignByte(parts.negative)] + LittleEndian(parts.magnitude, WORD))
  }

  /** `read_numeric_advance` up to the text */
  function ReadNumeric(field: NumericField, raw: seq<byte>): Result<DecimalParts> {
    if field.definedSize != 19 || |raw| != 19 then Err else CheckNumeric(raw[0], raw[1], raw[2], FromLittleEndian(raw[3..]))
  }

  lemma CheckMeans(precision: nat, scale: nat, sign: nat, magnitude: nat)
    ensures CheckNumeric(precision, scale, sign, magnitude)
            == if 1 <= precision <= 38 && scale <= precision && sign <= 1 && |Dec(magnitude)| <= precision
               then Ok(DecimalParts(sign == 0, magnitude, scale)) else Err
  {
    if precision > 0 {
      PrecisionIsDigits(magnitude, precision);
    }
  }

  /** Which nineteen bytes a NUMERIC column takes, and as what: the precision, the scale, a sign byte that is
      1 for a positive number, and the magnitude, of no more digits than the precision says. */
  lemma NumericAccepted(field: NumericField, raw: seq<byte>)
    requires field.definedSize == 19 && |raw| == 19
    ensures ReadNumeric(field, raw)
            == if 1 <= raw[0] <= 38 && raw[1] <= raw[0] && raw[2] <= 1 && |Dec(FromLittleEndian(raw[3..]))| <= raw[0]
               then Ok(DecimalParts(raw[2] == 0, FromLittleEndian(raw[3..]), raw[1])) else Err
  {
    CheckMeans(raw[0], raw[1], raw[2], FromLittleEndian(raw[3..]));
  }

  /** A written NUMERIC is read back as the parts it was parsed to exactly when the descriptor has the
      width, a precision other than zero, and no larger scale. It is read back as the number its text
      stands for exactly when that also fits 128 bits. */
  lemma NumericRoundTrip(field: NumericField, text: string)
    requires WriteNumeric(field, text).Ok?
    ensures Meant(text, Some(field.scale)).Some?
    ensures var back := ReadNumeric(field, WriteNumeric(field, text).value);
            var meant := Meant(text, Some(field.scale)).value;
            var accepted := field.definedSize == 19 && 1 <= field.precision && field.scale <= field.precision;
            && (back == ParseNumeric(field, text) <==> accepted)
            && (back == Ok(meant) <==> accepted && meant.magnitude <= U128_MAX)
  {
    var parts := ParseNumeric(field, text).value;
    ParsedIsNormal(text, Some(field.scale), Some(field.precision));
    ParsedIsMeant(text, Some(field.scale), Some(field.precision));
    PrecisionBound(field.precision);
    Widths();
    LittleEndianRoundTrip(parts.magnitude, WORD);
    var raw := WriteNumeric(field, text).value;
    assert raw[3..] == LittleEndian(parts.magnitude, WORD);
  }

  /** `validate_decimal_descriptor`, `exact_size` and the validator's field checks */
  predicate DescriptorValid(field: NumericField, width: nat, maxPrecision: nat) {
    && field.definedSize == width
    && 1 <= field.precision <= maxPrecision && field.scale <= maxPrecision && field.scale <= field.precision
  }

  /** Behind the descriptor checks of the whole writer only a number beyond 128 bits is lost. */
  lemma ValidatedNumericRoundTrip(field: NumericField, text: string)
    requires DescriptorValid(field, 19, 38) && WriteNumeric(field, text).Ok?
    ensures Meant(text, Some(field.scale)).Some?
    ensures ReadNumeric(field, WriteNumeric(field, text).value) == Ok(Meant(text, Some(field.scale)).value)
            <==> Meant(text, Some(field.scale)).value.magnitude <= U128_MAX
  {
    NumericRoundTrip(field, text);
  }

  /** A five in a column of 38 decimal places passes every check, is too large for 128 bits once it is
      scaled, and is written and read back as zero. */
  lemma FiveIsWrittenAsZero()
    ensures var field := NumericField(19, 38, 38, true, false);
            && DescriptorValid(field, 19, 38) && WriteNumeric(field, "5").Ok?
            && ReadNumeric(field, WriteNumeric(field, "5").value) == Ok(DecimalParts(false, 0, 38))
  {
    var field := NumericField(19, 38, 38, true, false);
    FiveParsesAsZero();
    NumericRoundTrip(field, "5");
  }

  lemma FiveParsesAsZero()
    ensures ParseDecimalText("5", Some(38), Some(38)) == Ok(DecimalParts(false, 0, 38))
  {
    var t := DecimalText(false, false, "5", false, "");
    FiveUnits(t);
    PrecisionBound(38);
    PowPositive(10, 38);
    assert [] + t.Render() + [] == t.Render() == "5";
    ParseMeaning(t, [], [], Some(38), Some(38));
  }

  lemma FiveUnits(t: DecimalText)
    requires t == DecimalText(false, false, "5", false, "")
    ensures t.Valid() && t.Units(38) > U128_MAX
  {
    assert "5" + "" == "5" && ToNat("5") == 5;
    PowerOfTen38();
  }

  // ---------------------------------------------------------------- DECIMAL

  /** `decimal_descriptor_precision_scale`; 255 stands for unknown. */
  predicate DecimalDescriptorOk(field: NumericField) {
    (field.precision == 255 && field.scale == 255) || (1 <= field.precision <= 28 && field.scale <= field.precision)
  }

  function DecimalMetadata(field: NumericField): Option<(nat, nat)>
    requires DecimalDescriptorOk(field)
  {
    if field.precision == 255 then None else Some((field.precision, field.scale))
  }

  function ParseForDecimal(field: NumericField, text: string): Result<DecimalParts> {
    ParseDecimalText(text, if field.scale != 255 then Some(field.scale) else None,
                     if field.precision != 255 then Some(field.precision % 256) else None)
  }

  /** `write_decimal_bytes`: the high four bytes stand before the low eight, the top four are
      dropped. */
  function DecimalBytes(reserved: nat, parts: DecimalParts): Result<seq<byte>> {
    if parts.scale > 28 then Err
    else
      var word := LittleEndian(parts.magnitude, WORD);
      Ok(LittleEndian(reserved, 2) + [parts.scale, if parts.negative then 0x80 else 0] + word[8..12] + word[..8])
  }

  /** `write_decimal` */
  function WriteDecimal(field: NumericField, text: string): Result<seq<byte>> {
    var parts :- ParseForDecimal(field, text);
    DecimalBytes(0, parts)
  }

  /** `read_decimal_bytes` up to the text */
  function ReadDecimalBytes(raw: seq<byte>, metadata: Option<(nat, nat)>): Result<DecimalParts>
    requires |raw| == 16
  {
    var reserved, scale, sign := FromLittleEndian(raw[..2]), raw[2], raw[3];
    var magnitude := FromLittleEndian(raw[8..] + raw[4..8]);
    if reserved != 0 && reserved != 14 then Err
    else if scale > 28 || (sign != 0 && sign != 0x80) then Err
    else if metadata.None? then Ok(DecimalParts(sign == 0x80, magnitude, scale))
    else
      var (precision, expected) := metadata.value;
      var zeroFromXml := reserved == 14 && scale == 0 && expected > 0 && magnitude == 0;
      if scale != expected && !zeroFromXml then Err
      else if !FitsPrecision(magnitude, Some(precision)) then Err
      else Ok(DecimalParts(sign == 0x80, magnitude, if zeroFromXml then expected else scale))
  }

  /** `read_decimal_advance` */
  function ReadDecimal(field: NumericField, raw: seq<byte>): Result<DecimalParts> {
    if field.definedSize != 16 || |raw| != 16 || !DecimalDescriptorOk(field) then Err else ReadDecimalBytes(raw, DecimalMetadata(field))
  }

  /** The low bytes of a little-endian word are the number's remainder. */
  lemma {:induction false} LowBytes(n: nat, width: nat, low: nat)
    requires low <= width
    ensures LittleEndian(n, width)[..low] == LittleEndian(n, low)
  {
    if low > 0 {
      LowBytes(n / 256, width - 1, low - 1);
      assert LittleEndian(n, width)[..low] == [n % 256] + LittleEndian(n / 256, width - 1)[..low - 1];
    }
  }

  lemma {:induction false} LittleEndianLoses(n: nat, width: nat)
    requires n >= Pow(256, width)
    ensures FromLittleEndian(LittleEndian(n, width)) != n
  {
    FromLittleEndianBound(LittleEndian(n, width));
  }

  lemma DecimalLayout(reserved: nat, parts: DecimalParts)
    requires parts.scale <= 28
    ensures var raw := DecimalBytes(reserved, parts).value;
            && |raw| == 16 && raw[..2] == LittleEndian(reserved, 2) && raw[2] == parts.scale
            && raw[3] == (if parts.negative then 0x80 else 0)
            && raw[8..] + raw[4..8] == LittleEndian(parts.magnitude, DECIMAL_BYTES)
  {
    var raw, word := DecimalBytes(reserved, parts).value, LittleEndian(parts.magnitude, WORD);
    assert raw[4..8] == word[8..12] && raw[8..] == word[..8];
    assert word[..8] + word[8..12] == word[..12];
    LowBytes(parts.magnitude, WORD, DECIMAL_BYTES);
  }

  /** What the reader makes of the bytes: the low 96 bits, under the descriptor's checks. */
  lemma DecimalReads(parts: DecimalParts, metadata: Option<(nat, nat)>)
    requires parts.scale <= 28
    ensures var raw := DecimalBytes(0, parts).value;
            var kept := FromLittleEndian(LittleEndian(parts.magnitude, DECIMAL_BYTES));
            && |raw| == 16
            && ReadDecimalBytes(raw, metadata)
               == if metadata.Some? && (parts.scale != metadata.value.1 || !FitsPrecision(kept, Some(metadata.value.0))) then Err
                  else Ok(DecimalParts(parts.negative, kept, parts.scale))
  {
    DecimalLayout(0, parts);
    LittleEndianRoundTrip(0, 2);
  }

  lemma MarkedZero(marker: byte, sign: byte)
    requires marker == 0 || marker == 14
    ensures var raw := [marker, 0, 0, sign] + Zeros(12);
            && |raw| == 16 && FromLittleEndian(raw[..2]) == marker && raw[2] == 0 && raw[3] == sign
            && FromLittleEndian(raw[8..] + raw[4..8]) == 0
  {
    var raw := [marker, 0, 0, sign] + Zeros(12);
    assert raw[..2] == [marker, 0];
    TwoBytes(marker, 0);
    assert raw[8..] + raw[4..8] == Zeros(12);
    ZeroBytes(12);
  }

  /** A zero of scale zero behind a reserved word of 14 is the column's zero whatever the column's scale;
      behind a reserved word of 0 it is read only where the column has no scale of its own. */
  lemma ReservedZero(field: NumericField, negative: bool)
    requires field.definedSize == 16 && DecimalDescriptorOk(field)
    ensures ReadDecimal(field, [14, 0, 0, if negative then 0x80 else 0] + Zeros(12))
            == Ok(DecimalParts(negative, 0, if field.precision == 255 then 0 else field.scale))
    ensures ReadDecimal(field, [0, 0, 0, if negative then 0x80 else 0] + Zeros(12))
            == if field.precision == 255 || field.scale == 0 then Ok(DecimalParts(negative, 0, 0)) else Err
  {
    var sign: byte := if negative then 0x80 else 0;
    MarkedZero(14, sign);
    MarkedZero(0, sign);
    PowPositive(10, field.precision);
    PrecisionBound(field.precision);
    var raw := [14, 0, 0, sign] + Zeros(12);
    assert ReadDecimal(field, raw) == ReadDecimalBytes(raw, DecimalMetadata(field));
  }

  /** Which sixteen bytes a DECIMAL column takes, and as what. A reserved word of 14 reads like 0 but for a
      zero of scale zero. */
  lemma DecimalAccepted(field: NumericField, raw: seq<byte>)
    requires field.definedSize == 16 && DecimalDescriptorOk(field) && |raw| == 16
    ensures var magnitude := FromLittleEndian(raw[8..] + raw[4..8]);
            ReadDecimal(field, raw)
            == if (raw[0] != 0 && raw[0] != 14) || raw[1] != 0 || raw[2] > 28 || (raw[3] != 0 && raw[3] != 0x80) then Err
               else if field.precision == 255 then Ok(DecimalParts(raw[3] == 0x80, magnitude, raw[2]))
               else if raw[2] != field.scale && !(raw[0] == 14 && raw[2] == 0 && magnitude == 0) then Err
               else if |Dec(magnitude)| > field.precision then Err
               else Ok(DecimalParts(raw[3] == 0x80, magnitude, field.scale))
  {
    assert raw[..2] == [raw[0], raw[1]];
    TwoBytes(raw[0], raw[1]);
    if field.precision != 255 {
      PrecisionIsDigits(FromLittleEndian(raw[8..] + raw[4..8]), field.precision);
    }
  }

  lemma {:induction false} TwoBytes(low: byte, high: byte)
    ensures FromLittleEndian([low, high]) == low + 256 * high
  {
    assert [low, high][1..] == [high] && [high][1..] == [];
    assert FromLittleEndian([high]) == high;
  }

  lemma NinetySixBits(magnitude: nat)
    ensures FromLittleEndian(LittleEndian(magnitude, DECIMAL_BYTES)) == magnitude <==> magnitude < Pow(256, DECIMAL_BYTES)
  {
    if magnitude < Pow(256, DECIMAL_BYTES) {
      LittleEndianRoundTrip(magnitude, DECIMAL_BYTES);
    } else {
      LittleEndianLoses(magnitude, DECIMAL_BYTES);
    }
  }

  function DecimalScale(field: NumericField): Option<nat> {
    if field.scale != 255 then Some(field.scale) else None
  }

  /** A written DECIMAL is read back exactly when the reader accepts the descriptor and the magnitude
      parsed fits in 96 bits, beyond which the writer drops the top bits without a word. It is read
      back as the number its text stands for exactly when that fits in 96 bits. */
  lemma DecimalRoundTrip(field: NumericField, text: string)
    requires WriteDecimal(field, text).Ok?
    ensures Meant(text, DecimalScale(field)).Some?
    ensures var back := ReadDecimal(field, WriteDecimal(field, text).value);
            var parts, meant := ParseForDecimal(field, text).value, Meant(text, DecimalScale(field)).value;
            var accepted := && field.definedSize == 16
                            && ((field.precision == 255 && field.scale == 255)
                                || (1 <= field.precision <= 28 && field.scale <= field.precision));
            && (back == Ok(parts) <==> accepted && parts.magnitude < 0x1_0000_0000_0000_0000_0000_0000)
            && (back == Ok(meant) <==> accepted && meant.magnitude < 0x1_0000_0000_0000_0000_0000_0000)
  {
    DecimalBytesRoundTrip(field, text);
    NinetySixBitLimit();
    ParsedIsMeant(text, DecimalScale(field), if field.precision != 255 then Some(field.precision % 256) else None);
    Widths();
    var back, meant := ReadDecimal(field, WriteDecimal(field, text).value), Meant(text, DecimalScale(field)).value;
    if back == Ok(meant) {
      ReadDecimalFits(field, WriteDecimal(field, text).value);
    }
  }

  lemma NinetySixBitLimit()
    ensures Pow(256, DECIMAL_BYTES) == 0x1_0000_0000_0000_0000_0000_0000
  {
    PowAdd(256, 8, 4);
    assert Pow(256, 8) == 0x1_0000_0000_0000_0000 && Pow(256, 4) == 0x1_0000_0000;
  }

  /** What the reader returns always fits in 96 bits. */
  lemma ReadDecimalFits(field: NumericField, raw: seq<byte>)
    requires ReadDecimal(field, raw).Ok?
    ensures ReadDecimal(field, raw).value.magnitude < Pow(256, DECIMAL_BYTES) <= U128_MAX
  {
    FromLittleEndianBound(raw[8..] + raw[4..8]);
    assert Pow(256, 12) == 0x1_0000_0000_0000_0000_0000_0000;
  }

  lemma DecimalBytesRoundTrip(field: NumericField, text: string)
    requires WriteDecimal(field, text).Ok?
    ensures ReadDecimal(field, WriteDecimal(field, text).value) == ParseForDecimal(field, text)
            <==> field.definedSize == 16 && DecimalDescriptorOk(field)
                 && ParseForDecimal(field, text).value.magnitude < Pow(256, DECIMAL_BYTES)
  {
    var parts := ParseForDecimal(field, text).value;
    NinetySixBits(parts.magnitude);
    if field.definedSize == 16 && DecimalDescriptorOk(field) {
      DecimalReads(parts, DecimalMetadata(field));
      DescriptorAgrees(field, text);
    }
  }

  /** The text of 2^96 in a column of unknown precision and scale: the one bit above 96 is dropped and
      zero is read back. */
  lemma TopBitIsDropped()
    ensures var field, n := NumericField(16, 255, 255, true, false), Pow(256, DECIMAL_BYTES);
            && n == 0x1_0000_0000_0000_0000_0000_0000
            && ParseForDecimal(field, Dec(n)) == Ok(DecimalParts(false, n, 0))
            && WriteDecimal(field, Dec(n)).Ok?
            && ReadDecimal(field, WriteDecimal(field, Dec(n)).value) == Ok(DecimalParts(false, 0, 0))
  {
    var field, n := NumericField(16, 255, 255, true, false), Pow(256, DECIMAL_BYTES);
    PowAdd(256, 8, 4);
    assert Pow(256, 8) == 0x1_0000_0000_0000_0000 && Pow(256, 4) == 0x1_0000_0000;
    WholeNumberParses(n);
    PowerHasZeroBytes(DECIMAL_BYTES);
    ZeroBytes(DECIMAL_BYTES);
    DecimalReads(DecimalParts(false, n, 0), None);
  }

  /** A whole number in plain digits, at the scale of its own text. */
  lemma {:induction false} WholeNumberParses(n: nat)
    requires n <= U128_MAX
    ensures ParseDecimalText(Dec(n), None, None) == Ok(DecimalParts(false, n, 0))
  {
    DecRoundTrip(n);
    var t := DecimalText(false, false, Dec(n), false, "");
    WholeUnitsOf(n, t);
    assert [] + t.Render() + [] == Dec(n);
    ParseMeaning(t, [], [], None, None);
  }

  lemma {:induction false} WholeUnitsOf(n: nat, t: DecimalText)
    requires t == DecimalText(false, false, Dec(n), false, "")
    ensures t.Valid() && t.Render() == Dec(n) && t.Units(0) == n
  {
    DecRoundTrip(n);
    assert Dec(n) + "" == Dec(n) && Pow(10, 0) == 1;
  }

  lemma {:induction false} PowerHasZeroBytes(width: nat)
    ensures LittleEndian(Pow(256, width), width) == Zeros(width)
  {
    if width > 0 {
      PowerHasZeroBytes(width - 1);
      assert Pow(256, width) % 256 == 0 && Pow(256, width) / 256 == Pow(256, width - 1);
      assert Zeros(width) == [0] + Zeros(width - 1);
    }
  }

  /** A descriptor the reader accepts agrees with what the writer parsed. */
  lemma DescriptorAgrees(field: NumericField, text: string)
    requires ParseForDecimal(field, text).Ok? && DecimalDescriptorOk(field)
    ensures var parts, metadata := ParseForDecimal(field, text).value, DecimalMetadata(field);
            metadata.Some? ==> parts.scale == metadata.value.1 && FitsPrecision(parts.magnitude, Some(metadata.value.0))
  {
    if field.precision != 255 {
      ParsedIsNormal(text, Some(field.scale), Some(field.precision));
    }
  }

  /** With a known precision the parsed magnitude always fits. */
  lemma {:induction false} KnownPrecisionFits(field: NumericField, text: string)
    requires WriteDecimal(field, text).Ok? && field.definedSize == 16 && DecimalDescriptorOk(field) && field.precision != 255
    ensures ReadDecimal(field, WriteDecimal(field, text).value) == ParseForDecimal(field, text)
  {
    KnownPrecisionBound(field, text);
    DecimalBytesRoundTrip(field, text);
  }

  lemma {:induction false} KnownPrecisionBound(field: NumericField, text: string)
    requires ParseForDecimal(field, text).Ok? && 1 <= field.precision <= 28 && field.scale <= field.precision
    ensures ParseForDecimal(field, text).value.magnitude < Pow(256, DECIMAL_BYTES)
  {
    ParsedFitsPrecision(text, field.scale, field.precision);
    PowMonotone(10, field.precision, 28);
    TwentyEightDigits();
  }

  lemma ParsedFitsPrecision(text: string, scale: nat, precision: nat)
    requires ParseDecimalText(text, Some(scale), Some(precision)).Ok?
    ensures ParseDecimalText(text, Some(scale), Some(precision)).value.magnitude < Pow(10, precision)
  {
    ParsedIsNormal(text, Some(scale), Some(precision));
  }

  lemma TwentyEightDigits()
    ensures Pow(10, 28) <= Pow(256, DECIMAL_BYTES)
  {
    Widths();
  }

  // ---------------------------------------------------------------- variable-length bytes

  /** Fixed columns of at most 255 bytes carry no length. */
  predicate Inline(field: NumericField, maxBytes: nat) {
    field.fixed && !field.long && maxBytes <= 255
  }

  function LengthWidth(maxBytes: nat): nat {
    if maxBytes > 255 then 4 else 1
  }

  function Zeros(n: nat): (r: seq<byte>)
    ensures |r| == n
  {
    seq(n, _ => 0)
  }

  function Padded(bytes: seq<byte>, width: nat): seq<byte> {
    if |bytes| < width then bytes + Zeros(width - |bytes|) else bytes
  }

  /** `write_variable_bytes` */
  function WriteVariable(field: NumericField, maxBytes: nat, bytes: seq<byte>): Result<seq<byte>> {
    if !field.long && |bytes| > maxBytes then Err
    else if Inline(field, maxBytes) then Ok(Padded(bytes, maxBytes))
    else Ok(LittleEndian(|bytes|, LengthWidth(maxBytes)) + bytes)
  }

  function Take(count: nat, input: seq<byte>): Result<(seq<byte>, seq<byte>)> {
    if count > |input| then Err else Ok((input[..count], input[count..]))
  }

  /** `read_bytes_advance`; the second part is the input left over. */
  function ReadVariable(field: NumericField, maxBytes: nat, input: seq<byte>): Result<(seq<byte>, seq<byte>)> {
    if Inline(field, maxBytes) then Take(maxBytes, input)
    else
      var header :- Take(LengthWidth(maxBytes), input);
      var length := FromLittleEndian(header.0);
      if !field.long && length > maxBytes then Err else Take(length, header.1)
  }

  /** What the reader hands over for bytes the writer took. */
  function Delivered(field: NumericField, maxBytes: nat, bytes: seq<byte>): seq<byte> {
    if Inline(field, maxBytes) then Padded(bytes, maxBytes) else bytes
  }

  /** How variable bytes stand in the row: a fixed column of at most 255 bytes is filled up with zeros, any
      other carries its length in one byte or, above 255, in four; only a long column takes more bytes
      than it was defined with. */
  lemma VariableLayout(field: NumericField, maxBytes: nat, bytes: seq<byte>)
    ensures WriteVariable(field, maxBytes, bytes).Ok? <==> field.long || |bytes| <= maxBytes
    ensures WriteVariable(field, maxBytes, bytes).Ok? ==>
              var out := WriteVariable(field, maxBytes, bytes).value;
              if field.fixed && !field.long && maxBytes < 256 then
                |out| == maxBytes && bytes <= out && forall k | |bytes| <= k < maxBytes :: out[k] == 0
              else
                var width := if maxBytes < 256 then 1 else 4;
                |out| == width + |bytes| && out[width..] == bytes && out[..width] == LittleEndian(|bytes|, width)
  {
  }

  /** Variable bytes come back, and the next field starts where they end, exactly when the length
      fits its own field; only a long column of at most 255 bytes can break that. */
  lemma VariableRoundTrip(field: NumericField, maxBytes: nat, bytes: seq<byte>, rest: seq<byte>)
    requires WriteVariable(field, maxBytes, bytes).Ok?
    ensures ReadVariable(field, maxBytes, WriteVariable(field, maxBytes, bytes).value + rest)
            == Ok((Delivered(field, maxBytes, bytes), rest))
            <==> Inline(field, maxBytes) || |bytes| < Pow(256, LengthWidth(maxBytes))
  {
    var out := WriteVariable(field, maxBytes, bytes).value;
    if Inline(field, maxBytes) {
      assert (out + rest)[..maxBytes] == out && (out + rest)[maxBytes..] == rest;
    } else {
      var width := LengthWidth(maxBytes);
      var header := LittleEndian(|bytes|, width);
      assert (out + rest)[..width] == header && (out + rest)[width..] == bytes + rest;
      if |bytes| < Pow(256, width) {
        LittleEndianRoundTrip(|bytes|, width);
        assert (bytes + rest)[..|bytes|] == bytes && (bytes + rest)[|bytes|..] == rest;
      } else {
        LittleEndianLoses(|bytes|, width);
      }
    }
  }

  /** 256 bytes in a long column of 255: the length byte is zero, and the reader delivers nothing and
      takes the 256 bytes for the next columns. */
  lemma LengthByteOverflows(rest: seq<byte>)
    ensures var field, bytes := NumericField(255, 0, 0, false, true), Zeros(256);
            && WriteVariable(field, 255, bytes) == Ok([0] + bytes)
            && ReadVariable(field, 255, [0] + bytes + rest) == Ok(([], bytes + rest))
  {
    var bytes, out := Zeros(256), [0] + Zeros(256) + rest;
    var header := LittleEndian(256, 1);
    assert header == [0] + LittleEndian(1, 0) && header == [0];
    assert FromLittleEndian([0]) == 0;
    assert out[..1] == [0] && out[1..] == bytes + rest;
    assert (bytes + rest)[..0] == [] && (bytes + rest)[0..] == bytes + rest;
  }

  lemma OnlyLongColumnsOverflow(field: NumericField, maxBytes: nat, bytes: seq<byte>)
    requires WriteVariable(field, maxBytes, bytes).Ok? && maxBytes < Pow(256, 4)
    requires !(Inline(field, maxBytes) || |bytes| < Pow(256, LengthWidth(maxBytes)))
    ensures field.long && |bytes| > 255
  {
    assert Pow(256, 1) == 256;
  }

  // ---------------------------------------------------------------- VARNUMERIC

  /** `decimal_precision`, cut to a byte as the source's cast does. */
  function DecimalPrecision(parts: DecimalParts): nat {
    var digits := |Dec(parts.magnitude)|;
    var atLeastScale := if parts.scale >= 1 then parts.scale else 1;
    (if digits >= atLeastScale then digits else atLeastScale) % 256
  }

  function ParseForVarNumeric(field: NumericField, text: string): Result<DecimalParts> {
    ParseDecimalText(text, if field.scale <= 38 then Some(field.scale) else None,
                     if 1 <= field.precision <= 38 then Some(field.precision) else None)
  }

  function VarNumericPrecision(field: NumericField, parts: DecimalParts): nat {
    if 1 <= field.precision <= 38 then field.precision else DecimalPrecision(parts)
  }

  /** The bytes up to the last nonzero one, and at least one. */
  function TrimmedLength(word: seq<byte>): (n: nat)
    ensures n <= |word| && (word != [] ==> n >= 1)
  {
    if |word| > 1 && word[|word| - 1] == 0 then TrimmedLength(word[..|word| - 1]) else |word|
  }

  /** The `rposition` scan for it. */
  method FindTrimmedLength(word: seq<byte>) returns (n: nat)
    requires word != []
    ensures n == TrimmedLength(word)
  {
    n := |word|;
    assert word[..|word|] == word;
    while n > 1 && word[n - 1] == 0
      invariant 1 <= n <= |word|
      invariant TrimmedLength(word[..n]) == TrimmedLength(word)
    {
      assert word[..n][..n - 1] == word[..n - 1];
      n := n - 1;
    }
  }

  function TrimmedMagnitude(magnitude: nat): seq<byte> {
    var word := LittleEndian(magnitude, WORD);
    word[..TrimmedLength(word)]
  }

  /** `write_varnumeric` up to the length prefix */
  function VarNumericBytes(field: NumericField, parts: DecimalParts): Result<seq<byte>> {
    var precision := VarNumericPrecision(field, parts);
    if precision > 38 || parts.scale > precision then Err
    else Ok([precision, parts.scale, SignByte(parts.negative)] + TrimmedMagnitude(parts.magnitude))
  }

  function WriteVarNumeric(field: NumericField, text: string): Result<seq<byte>> {
    var parts :- ParseForVarNumeric(field, text);
    var raw :- VarNumericBytes(field, parts);
    WriteVariable(field, field.definedSize, raw)
  }

  /** The checks of `read_varnumeric_advance` on the bytes taken */
  function DecodeVarNumeric(raw: seq<byte>): Result<DecimalParts> {
    if |raw| < 4 || |raw| > 3 + WORD then Err
    else CheckNumeric(raw[0], raw[1], raw[2], FromLittleEndian(raw[3..]))
  }

  /** `read_varnumeric_advance` up to the text */
  function ReadVarNumeric(field: NumericField, input: seq<byte>): Result<(DecimalParts, seq<byte>)> {
    var raw :- ReadVariable(field, field.definedSize, input);
    var parts :- DecodeVarNumeric(raw.0);
    Ok((parts, raw.1))
  }

  /** A VARNUMERIC has the same bytes in front of a magnitude of one to sixteen. */
  lemma VarNumericAccepted(raw: seq<byte>)
    ensures DecodeVarNumeric(raw)
            == if && 4 <= |raw| <= 19 && 1 <= raw[0] <= 38 && raw[1] <= raw[0] && raw[2] <= 1
                  && |Dec(FromLittleEndian(raw[3..]))| <= raw[0]
               then Ok(DecimalParts(raw[2] == 0, FromLittleEndian(raw[3..]), raw[1])) else Err
  {
    if 4 <= |raw| <= 19 {
      CheckMeans(raw[0], raw[1], raw[2], FromLittleEndian(raw[3..]));
    }
  }

  lemma {:induction false} ZeroBytes(n: nat)
    ensures FromLittleEndian(Zeros(n)) == 0
  {
    if n > 0 {
      assert Zeros(n)[1..] == Zeros(n - 1);
      ZeroBytes(n - 1);
    }
  }

  lemma PaddingKeepsNumber(bytes: seq<byte>, n: nat)
    ensures FromLittleEndian(bytes + Zeros(n)) == FromLittleEndian(bytes)
  {
    FromLittleEndianAppend(bytes, Zeros(n));
    ZeroBytes(n);
  }

  lemma {:induction false} TrimmingKeepsNumber(word: seq<byte>)
    ensures FromLittleEndian(word[..TrimmedLength(word)]) == FromLittleEndian(word)
  {
    if |word| > 1 && word[|word| - 1] == 0 {
      var init := word[..|word| - 1];
      TrimmingKeepsNumber(init);
      PaddingKeepsNumber(init, 1);
      assert word == init + Zeros(1);
      assert word[..TrimmedLength(word)] == init[..TrimmedLength(init)];
    } else {
      assert word[..|word|] == word;
    }
  }

  lemma TrimmedMagnitudeReads(magnitude: nat)
    requires magnitude <= U128_MAX
    ensures FromLittleEndian(TrimmedMagnitude(magnitude)) == magnitude
    ensures 1 <= |TrimmedMagnitude(magnitude)| <= WORD
  {
    Widths();
    LittleEndianRoundTrip(magnitude, WORD);
    TrimmingKeepsNumber(LittleEndian(magnitude, WORD));
  }

  /** The precision written bounds the magnitude and is one the reader takes. */
  lemma WrittenPrecisionHolds(field: NumericField, text: string)
    requires ParseForVarNumeric(field, text).Ok? && VarNumericBytes(field, ParseForVarNumeric(field, text).value).Ok?
    ensures var parts := ParseForVarNumeric(field, text).value;
            var precision := VarNumericPrecision(field, parts);
            && PrecisionOk(precision) && ScaleOk(parts.scale, precision)
            && FitsPrecision(parts.magnitude, Some(precision))
  {
    var parts := ParseForVarNumeric(field, text).value;
    var precision := VarNumericPrecision(field, parts);
    PrecisionBound(precision);
    if !(1 <= field.precision <= 38) {
      DerivedPrecisionHolds(parts);
      DigitsFit(parts.magnitude);
      PowMonotone(10, |Dec(parts.magnitude)|, precision);
    }
  }

  lemma DigitsFit(magnitude: nat)
    ensures magnitude < Pow(10, |Dec(magnitude)|)
  {
    DecRoundTrip(magnitude);
    ToNatBound(Dec(magnitude));
  }

  lemma DerivedPrecisionHolds(parts: DecimalParts)
    requires parts.magnitude <= U128_MAX && parts.scale <= DecimalPrecision(parts) <= 38
    ensures 1 <= DecimalPrecision(parts) && |Dec(parts.magnitude)| <= DecimalPrecision(parts)
  {
    Widths();
    DecRoundTrip(parts.magnitude);
    if |Dec(parts.magnitude)| > 39 {
      NoLeadingZeroLarge(Dec(parts.magnitude));
      PowMonotone(10, 39, |Dec(parts.magnitude)| - 1);
    }
  }

  lemma VarNumericDecodes(field: NumericField, text: string, zeros: nat)
    requires ParseForVarNumeric(field, text).Ok? && VarNumericBytes(field, ParseForVarNumeric(field, text).value).Ok?
    ensures var parts := ParseForVarNumeric(field, text).value;
            var raw := VarNumericBytes(field, parts).value;
            && 4 <= |raw| <= 3 + WORD
            && DecodeVarNumeric(raw + Zeros(zeros)) == (if |raw| + zeros <= 3 + WORD then Ok(parts) else Err)
  {
    var parts := ParseForVarNumeric(field, text).value;
    var raw := VarNumericBytes(field, parts).value;
    WrittenPrecisionHolds(field, text);
    TrimmedMagnitudeReads(parts.magnitude);
    var all := raw + Zeros(zeros);
    assert all[0] == raw[0] && all[1] == raw[1] && all[2] == raw[2];
    assert all[3..] == TrimmedMagnitude(parts.magnitude) + Zeros(zeros);
    PaddingKeepsNumber(TrimmedMagnitude(parts.magnitude), zeros);
  }

  function VarNumericScale(field: NumericField): Option<nat> {
    if field.scale <= 38 then Some(field.scale) else None
  }

  /** Every VARNUMERIC the writer accepts is read back as it was parsed, followed by the rest of the
      input, unless a fixed column between 20 and 255 bytes wide padded it past the reader's 128 bits.
      It is the number its text stands for exactly when that also fits 128 bits. */
  lemma VarNumericRoundTrip(field: NumericField, text: string, rest: seq<byte>)
    requires WriteVarNumeric(field, text).Ok?
    ensures Meant(text, VarNumericScale(field)).Some?
    ensures var back := ReadVarNumeric(field, WriteVarNumeric(field, text).value + rest);
            var parts, meant := ParseForVarNumeric(field, text).value, Meant(text, VarNumericScale(field)).value;
            var accepted := !(field.fixed && !field.long && 20 <= field.definedSize <= 255);
            && (back == Ok((parts, rest)) <==> accepted)
            && (back == Ok((meant, rest)) <==> accepted && meant.magnitude <= U128_MAX)
  {
    var parts := ParseForVarNumeric(field, text).value;
    ParsedIsMeant(text, VarNumericScale(field), if 1 <= field.precision <= 38 then Some(field.precision) else None);
    VarNumericBytesRead(field, text, rest);
  }

  lemma VarNumericBytesRead(field: NumericField, text: string, rest: seq<byte>)
    requires WriteVarNumeric(field, text).Ok?
    ensures var back := ReadVarNumeric(field, WriteVarNumeric(field, text).value + rest);
            if Inline(field, field.definedSize) && field.definedSize > 3 + WORD then back.Err?
            else back == Ok((ParseForVarNumeric(field, text).value, rest))
  {
    var raw := VarNumericBytes(field, ParseForVarNumeric(field, text).value).value;
    VarNumericDecodes(field, text, 0);
    assert raw + Zeros(0) == raw;
    assert Pow(256, 1) == 256 && Pow(256, 4) > 256;
    VariableRoundTrip(field, field.definedSize, raw, rest);
    if |raw| < field.definedSize {
      VarNumericDecodes(field, text, field.definedSize - |raw|);
    }
  }

  /** The text read back denotes the very number that was written. */
  lemma VarNumericTextParsesBack(field: NumericField, text: string)
    requires WriteVarNumeric(field, text).Ok?
    ensures var parts := ParseForVarNumeric(field, text).value;
            TextOf(parts).Ok? && ParseDecimalText(TextOf(parts).value, Some(parts.scale), None) == Ok(parts)
  {
    var parts := ParseForVarNumeric(field, text).value;
    WrittenPrecisionHolds(field, text);
    TextParsesBack(parts);
  }

  /** The validator keeps the type from being fixed, and then only a number beyond 128 bits is lost. */
  lemma ValidatedVarNumericRoundTrip(field: NumericField, text: string, rest: seq<byte>)
    requires !field.fixed && WriteVarNumeric(field, text).Ok?
    ensures Meant(text, VarNumericScale(field)).Some?
    ensures ReadVarNumeric(field, WriteVarNumeric(field, text).value + rest) == Ok((Meant(text, VarNumericScale(field)).value, rest))
            <==> Meant(text, VarNumericScale(field)).value.magnitude <= U128_MAX
  {
    VarNumericRoundTrip(field, text, rest);
  }
}
