/** The value codec of the fixed-width integers, booleans, currency, FILETIME and the three numeric
    types, and what it makes of whole row streams. */
module ScalarCodec {
  import opened Prelude
  import opened Text
  import opened Decimal
  import opened CanonicalDecimal
  import opened XmlDecimal
  import opened NumericPayload
  import opened DateTimeText
  import opened RecordsetModel
  import opened RowCodec
  import opened FlatStream
  import opened ChapterTree
  import opened ChapterJoin
  import opened ChapterViews
  import opened ChapterBytes
  import opened ChapterKept
  import opened ChapterPipeline

  /** The column types handled here, by ADO type code. */
  datatype Kind =
    | SignedKind(width: nat)
    | UnsignedKind(width: nat)
    | BooleanKind
    | CurrencyKind
    | FiletimeKind
    | DecimalKind
    | NumericKind
    | VarNumericKind
    | OtherKind

  function KindOf(typeCode: nat): Kind {
    if typeCode == 2 then SignedKind(2)
    else if typeCode == 3 then SignedKind(4)
    else if typeCode == 16 then SignedKind(1)
    else if typeCode == 20 then SignedKind(8)
    else if typeCode == 17 then UnsignedKind(1)
    else if typeCode == 18 then UnsignedKind(2)
    else if typeCode == 19 then UnsignedKind(4)
    else if typeCode == 21 then UnsignedKind(8)
    else if typeCode == 11 then BooleanKind
    else if typeCode == 6 then CurrencyKind
    else if typeCode == 64 then FiletimeKind
    else if typeCode == 14 then DecimalKind
    else if typeCode == 131 then NumericKind
    else if typeCode == 139 then VarNumericKind
    else OtherKind
  }

  // ---------------------------------------------------------------- two's complement

  function Wrapped(n: int, width: nat): nat {
    PowPositive(256, width);
    n % Pow(256, width)
  }

  predicate FitsSigned(n: int, width: nat) {
    2 * n < Pow(256, width) && 2 * n + Pow(256, width) >= 0
  }

  function FromSigned(bytes: seq<byte>): int {
    var n := FromLittleEndian(bytes);
    if 2 * n < Pow(256, |bytes|) then n else n - Pow(256, |bytes|)
  }

  function ToSigned(n: int, width: nat): (r: seq<byte>)
    ensures |r| == width
  {
    LittleEndian(Wrapped(n, width), width)
  }

  lemma WrapBack(n: int, p: nat, w: nat)
    requires p > 0 && p % 2 == 0 && w == n % p
    ensures (if 2 * w < p then w else w - p) == n <==> 2 * n < p && 2 * n + p >= 0
  {
    if 2 * n < p && 2 * n + p >= 0 {
      DivModUnique(n, p, if n >= 0 then 0 else -1, if n >= 0 then n else n + p);
    }
  }

  lemma EvenPower(width: nat)
    requires width > 0
    ensures Pow(256, width) > 0 && Pow(256, width) % 2 == 0
  {
    PowPositive(256, width);
    assert Pow(256, width) == 2 * (128 * Pow(256, width - 1));
  }

  lemma SignedOfWord(w: nat, width: nat)
    requires w < Pow(256, width)
    ensures FromSigned(LittleEndian(w, width)) == if 2 * w < Pow(256, width) then w else w - Pow(256, width)
  {
    LittleEndianRoundTrip(w, width);
  }

  /** Two's complement gives a number back exactly when it fits its width. */
  lemma SignedRoundTrip(n: int, width: nat)
    requires width > 0
    ensures FromSigned(ToSigned(n, width)) == n <==> FitsSigned(n, width)
  {
    EvenPower(width);
    var w := Wrapped(n, width);
    SignedOfWord(w, width);
    WrapBack(n, Pow(256, width), w);
  }

  // ---------------------------------------------------------------- writing

  type Describe = Field -> NumericField

  function SignedCount(parts: DecimalParts): int {
    var magnitude: int := parts.magnitude;
    if parts.negative then -magnitude else magnitude
  }

  /** `write_value` */
  function EncodeCell(describe: Describe, field: Field, value: Value): Result<seq<byte>> {
    match KindOf(field.typeCode)
    case SignedKind(width) =>
      if value.Integer? && FitsSigned(value.number, width) then Ok(ToSigned(value.number, width)) else Err
    case UnsignedKind(width) =>
      var n := if value.UnsignedInteger? then value.natural else if value.Integer? then value.number else -1;
      if 0 <= n < Pow(256, width) then Ok(LittleEndian(n, width)) else Err
    case BooleanKind =>
      if value.Boolean? then Ok(ToSigned(if value.flag then -1 else 0, 2)) else Err
    case CurrencyKind =>
      if !value.Decimal? then Err
      else
        var parts :- ParseDecimalText(value.text, Some(4), None);
        // the checked conversion is to 128 bits; the cast to 64 wraps
        if parts.magnitude >= Pow(256, 16) / 2 then Err else Ok(ToSigned(SignedCount(parts), 8))
    case FiletimeKind =>
      if !value.DateTime? then Err
      else
        var ticks :- FiletimeValue(value.text);
        Ok(LittleEndian(ticks, 8))
    case DecimalKind => if value.Decimal? then WriteDecimal(describe(field), value.text) else Err
    case NumericKind => if value.Decimal? then WriteNumeric(describe(field), value.text) else Err
    case VarNumericKind => if value.Decimal? then WriteVarNumeric(describe(field), value.text) else Err
    case OtherKind => Err
  }

  // ---------------------------------------------------------------- reading

  function DecimalCell(parts: DecimalParts, used: nat): (r: Result<(Value, nat)>)
    ensures r.Ok? ==> r.value.0.Decimal?
  {
    var text :- TextOf(parts);
    Ok((Value.Decimal(text), used))
  }

  /** `format_scaled_i128` of a count of ten-thousandths */
  function CountParts(n: int): DecimalParts {
    DecimalParts(n < 0, if n < 0 then -n else n, 4)
  }

  /** `read_value` on the bytes in front of the reader */
  function DecodeCell(describe: Describe, field: Field, bytes: seq<byte>): Result<(Value, nat)> {
    match KindOf(field.typeCode)
    case SignedKind(width) =>
      var raw :- Take(width, bytes);
      Ok((Integer(FromSigned(raw.0)), width))
    case UnsignedKind(width) =>
      var raw :- Take(width, bytes);
      Ok((UnsignedInteger(FromLittleEndian(raw.0)), width))
    case BooleanKind =>
      var raw :- Take(2, bytes);
      var word := FromSigned(raw.0);
      if word == 0 || word == -1 then Ok((Boolean(word == -1), 2)) else Err
    case CurrencyKind =>
      var raw :- Take(8, bytes);
      DecimalCell(CountParts(FromSigned(raw.0)), 8)
    case FiletimeKind =>
      var raw :- Take(8, bytes);
      var text :- FiletimeToString(FromLittleEndian(raw.0));
      Ok((DateTime(text), 8))
    case DecimalKind =>
      var raw :- Take(16, bytes);
      var parts :- ReadDecimal(describe(field), raw.0);
      DecimalCell(parts, 16)
    case NumericKind =>
      var raw :- Take(19, bytes);
      var parts :- ReadNumeric(describe(field), raw.0);
      DecimalCell(parts, 19)
    case VarNumericKind =>
      var got :- ReadVarNumeric(describe(field), bytes);
      if |got.1| > |bytes| then Err else DecimalCell(got.0, |bytes| - |got.1|)
    case OtherKind => Err
  }

  function Codec(describe: Describe): ValueCodec {
    ValueCodec((field: Field, value: Value) => EncodeCell(describe, field, value),
               (field: Field, bytes: seq<byte>) => DecodeCell(describe, field, bytes))
  }

  // ---------------------------------------------------------------- cells that come back

  /** A decimal text in the form the readers print, from parts that fit. */
  predicate PrintedDecimal(text: string, parts: Result<DecimalParts>) {
    parts.Ok? && parts.value.scale <= 38 && TextOf(parts.value) == Ok(text)
  }

  /** A FILETIME text in the form the reader prints, from 1601 on. */
  predicate PrintedFiletime(text: string) {
    match ParseDateTime(text)
    case Err => false
    case Ok(parsed) =>
      && 1601 <= parsed.0.year && parsed.0.month >= 0 && parsed.0.day >= 0
      && text == DateTimeOf(parsed.0, ClockText(ClockOr(parsed.1)))
  }

  /** The values a column stores without loss. */
  predicate Storable(describe: Describe, field: Field, value: Value) {
    match KindOf(field.typeCode)
    case SignedKind(_) => value.Integer?
    case UnsignedKind(_) => value.UnsignedInteger?
    case BooleanKind => value.Boolean?
    case CurrencyKind =>
      && value.Decimal?
      && var parts := ParseDecimalText(value.text, Some(4), None);
      PrintedDecimal(value.text, parts) && FitsSigned(SignedCount(parts.value), 8)
    case FiletimeKind => value.DateTime? && PrintedFiletime(value.text)
    case DecimalKind =>
      && value.Decimal?
      && var parts := ParseForDecimal(describe(field), value.text);
      && PrintedDecimal(value.text, parts) && describe(field).definedSize == 16 && DecimalDescriptorOk(describe(field))
      && parts.value.magnitude < Pow(256, DECIMAL_BYTES)
    case NumericKind =>
      && value.Decimal? && PrintedDecimal(value.text, ParseNumeric(describe(field), value.text))
      && describe(field).definedSize == 19 && 1 <= describe(field).precision && describe(field).scale <= describe(field).precision
    case VarNumericKind =>
      && value.Decimal? && PrintedDecimal(value.text, ParseForVarNumeric(describe(field), value.text))
      && !(Inline(describe(field), describe(field).definedSize) && describe(field).definedSize > 3 + WORD)
    case OtherKind => true
  }

  lemma TakeFront(front: seq<byte>, tail: seq<byte>)
    ensures Take(|front|, front + tail) == Ok((front, tail))
  {
  }

  lemma SignedCell(describe: Describe, field: Field, value: Value, tail: seq<byte>)
    requires KindOf(field.typeCode).SignedKind? || KindOf(field.typeCode).BooleanKind?
    requires EncodeCell(describe, field, value).Ok?
    ensures var bytes := EncodeCell(describe, field, value).value;
            DecodeCell(describe, field, bytes + tail) == Ok((value, |bytes|))
  {
    var bytes := EncodeCell(describe, field, value).value;
    TakeFront(bytes, tail);
    if KindOf(field.typeCode).SignedKind? {
      SignedRoundTrip(value.number, KindOf(field.typeCode).width);
    } else {
      assert Pow(256, 2) == 65_536;
      SignedRoundTrip(if value.flag then -1 else 0, 2);
    }
  }

  lemma UnsignedCell(describe: Describe, field: Field, value: Value, tail: seq<byte>)
    requires KindOf(field.typeCode).UnsignedKind? && value.UnsignedInteger?
    requires EncodeCell(describe, field, value).Ok?
    ensures var bytes := EncodeCell(describe, field, value).value;
            DecodeCell(describe, field, bytes + tail) == Ok((value, |bytes|))
  {
    var bytes := EncodeCell(describe, field, value).value;
    TakeFront(bytes, tail);
    LittleEndianRoundTrip(value.natural, KindOf(field.typeCode).width);
  }

  lemma SignedBytesFit(bytes: seq<byte>)
    requires |bytes| == 8
    ensures FromSigned(bytes) + U128_MAX > 0 && FromSigned(bytes) < U128_MAX
  {
    FromLittleEndianBound(bytes);
    assert Pow(256, 8) == 0x1_0000_0000_0000_0000;
  }

  lemma CurrencyReads(describe: Describe, field: Field, bytes: seq<byte>, tail: seq<byte>)
    requires KindOf(field.typeCode).CurrencyKind? && |bytes| == 8
    ensures TextOf(CountParts(FromSigned(bytes))).Ok?
    ensures DecodeCell(describe, field, bytes + tail) == Ok((Value.Decimal(TextOf(CountParts(FromSigned(bytes))).value), 8))
  {
    TakeFront(bytes, tail);
    SignedBytesFit(bytes);
    TextParsesBack(CountParts(FromSigned(bytes)));
  }

  /** The text of a count against the text it came from. */
  lemma CountText(text: string, parts: DecimalParts, n: int)
    requires ParseDecimalText(text, Some(4), None) == Ok(parts) && n < U128_MAX && n + U128_MAX > 0
    ensures var back := TextOf(CountParts(n));
            && back.Ok?
            && (ParseDecimalText(back.value, Some(4), None) == Ok(parts) <==> n == SignedCount(parts))
            && (back.value == text <==> PrintedDecimal(text, Ok(parts)) && n == SignedCount(parts))
  {
    ParsedIsNormal(text, Some(4), None);
    TextParsesBack(CountParts(n));
    assert n == SignedCount(parts) <==> CountParts(n) == parts;
  }

  /** The count of ten-thousandths comes back exactly when it fits 64 bits; past that the writer's cast
      wraps. The very text comes back exactly when it is also in the form the reader prints. */
  lemma CurrencyCell(describe: Describe, field: Field, value: Value, tail: seq<byte>)
    requires KindOf(field.typeCode).CurrencyKind? && EncodeCell(describe, field, value).Ok?
    ensures var bytes := EncodeCell(describe, field, value).value;
            var parts, back := ParseDecimalText(value.text, Some(4), None), DecodeCell(describe, field, bytes + tail);
            && |bytes| == 8 && back.Ok? && back.value.0.Decimal? && back.value.1 == 8
            && (ParseDecimalText(back.value.0.text, Some(4), None) == parts <==> FitsSigned(SignedCount(parts.value), 8))
            && (back == Ok((value, |bytes|)) <==> PrintedDecimal(value.text, parts) && FitsSigned(SignedCount(parts.value), 8))
  {
    var bytes := EncodeCell(describe, field, value).value;
    var parts := ParseDecimalText(value.text, Some(4), None).value;
    assert bytes == ToSigned(SignedCount(parts), 8);
    CurrencyReads(describe, field, bytes, tail);
    CurrencyText(value.text, parts);
  }

  lemma CurrencyText(text: string, parts: DecimalParts)
    requires ParseDecimalText(text, Some(4), None) == Ok(parts)
    ensures var back := TextOf(CountParts(FromSigned(ToSigned(SignedCount(parts), 8))));
            && back.Ok?
            && (ParseDecimalText(back.value, Some(4), None) == Ok(parts) <==> FitsSigned(SignedCount(parts), 8))
            && (back.value == text <==> PrintedDecimal(text, Ok(parts)) && FitsSigned(SignedCount(parts), 8))
  {
    var bytes := ToSigned(SignedCount(parts), 8);
    SignedBytesFit(bytes);
    SignedRoundTrip(SignedCount(parts), 8);
    CountText(text, parts, FromSigned(bytes));
  }

  lemma {:induction false} TicksRead(describe: Describe, field: Field, text: string, ticks: nat, tail: seq<byte>)
    requires KindOf(field.typeCode).FiletimeKind? && ticks < U64_LIMIT && FiletimeToString(ticks) == Ok(text)
    ensures DecodeCell(describe, field, LittleEndian(ticks, 8) + tail) == Ok((DateTime(text), 8))
  {
    TakeFront(LittleEndian(ticks, 8), tail);
    assert Pow(256, 8) == 0x1_0000_0000_0000_0000;
    LittleEndianRoundTrip(ticks, 8);
  }

  lemma TicksOfPrinted(text: string)
    requires PrintedFiletime(text) && FiletimeValue(text).Ok?
    ensures FiletimeValue(text).value < U64_LIMIT && FiletimeToString(FiletimeValue(text).value) == Ok(text)
  {
    FiletimeOfText(text);
  }

  lemma DecimalCellReads(describe: Describe, field: Field, value: Value, tail: seq<byte>)
    requires KindOf(field.typeCode).DecimalKind? && Storable(describe, field, value) && EncodeCell(describe, field, value).Ok?
    ensures var bytes := EncodeCell(describe, field, value).value;
            DecodeCell(describe, field, bytes + tail) == Ok((value, |bytes|))
  {
    var bytes := EncodeCell(describe, field, value).value;
    DecimalLayout(0, ParseForDecimal(describe(field), value.text).value);
    TakeFront(bytes, tail);
    DecimalRoundTrip(describe(field), value.text);
  }

  lemma NumericCellReads(describe: Describe, field: Field, value: Value, tail: seq<byte>)
    requires KindOf(field.typeCode).NumericKind? && Storable(describe, field, value) && EncodeCell(describe, field, value).Ok?
    ensures var bytes := EncodeCell(describe, field, value).value;
            DecodeCell(describe, field, bytes + tail) == Ok((value, |bytes|))
  {
    var bytes := EncodeCell(describe, field, value).value;
    TakeFront(bytes, tail);
    NumericRoundTrip(describe(field), value.text);
  }

  lemma VarNumericCellReads(describe: Describe, field: Field, value: Value, tail: seq<byte>)
    requires KindOf(field.typeCode).VarNumericKind? && Storable(describe, field, value) && EncodeCell(describe, field, value).Ok?
    ensures var bytes := EncodeCell(describe, field, value).value;
            DecodeCell(describe, field, bytes + tail) == Ok((value, |bytes|))
  {
    VarNumericRoundTrip(describe(field), value.text, tail);
    VarNumericUsed(describe, field, EncodeCell(describe, field, value).value, tail, ParseForVarNumeric(describe(field), value.text).value);
  }

  lemma VarNumericUsed(describe: Describe, field: Field, bytes: seq<byte>, tail: seq<byte>, parts: DecimalParts)
    requires KindOf(field.typeCode).VarNumericKind? && TextOf(parts).Ok?
    requires ReadVarNumeric(describe(field), bytes + tail) == Ok((parts, tail))
    ensures DecodeCell(describe, field, bytes + tail) == Ok((Value.Decimal(TextOf(parts).value), |bytes|))
  {
  }

  /** Every storable cell of these types is read back as itself, whatever bytes follow. */
  lemma StorableRoundTrips(describe: Describe, field: Field, value: Value)
    requires Storable(describe, field, value)
    ensures RoundTrips(Codec(describe), field, value)
  {
    if EncodeCell(describe, field, value).Ok? {
      var bytes := EncodeCell(describe, field, value).value;
      forall tail: seq<byte> ensures Codec(describe).decode(field, bytes + tail) == Ok((value, |bytes|)) {
        CellReads(describe, field, value, tail);
      }
    }
  }

  lemma CellReads(describe: Describe, field: Field, value: Value, tail: seq<byte>)
    requires Storable(describe, field, value) && EncodeCell(describe, field, value).Ok?
    ensures var bytes := EncodeCell(describe, field, value).value;
            DecodeCell(describe, field, bytes + tail) == Ok((value, |bytes|))
  {
    match KindOf(field.typeCode)
    case SignedKind(_) => SignedCell(describe, field, value, tail);
    case UnsignedKind(_) => UnsignedCell(describe, field, value, tail);
    case BooleanKind => SignedCell(describe, field, value, tail);
    case CurrencyKind => CurrencyCell(describe, field, value, tail);
    case FiletimeKind =>
      TicksOfPrinted(value.text);
      TicksRead(describe, field, value.text, FiletimeValue(value.text).value, tail);
    case DecimalKind => DecimalCellReads(describe, field, value, tail);
    case NumericKind => NumericCellReads(describe, field, value, tail);
    case VarNumericKind => VarNumericCellReads(describe, field, value, tail);
    case OtherKind =>
  }

  lemma {:induction false} DecodedIsPlain(describe: Describe, field: Field, bytes: seq<byte>)
    requires DecodeCell(describe, field, bytes).Ok?
    ensures var value := DecodeCell(describe, field, bytes).value.0; value.Present() && !value.Chapter?
  {
  }

  lemma {:induction false} NothingStoredIsNull(describe: Describe, fields: seq<Field>)
    ensures NeverNull(Codec(describe), fields)
  {
    forall i, bytes: seq<byte> | 0 <= i < |fields| && DecodeCell(describe, fields[i], bytes).Ok?
      ensures DecodeCell(describe, fields[i], bytes).value.0.Present()
    {
      DecodedIsPlain(describe, fields[i], bytes);
    }
  }

  predicate RowStorable(describe: Describe, fields: seq<Field>, values: seq<Value>) {
    && |values| == |fields|
    && forall i | 0 <= i < |fields| && values[i].Present() :: Storable(describe, fields[i], values[i])
  }

  /** Whole Recordsets of these column types: the flat stream gives back every row if and only if
      no insert that looks like a marker follows a current row. */
  lemma ScalarFlatRoundTrip(describe: Describe, fields: seq<Field>, rs: Recordset)
    requires WriteFlat(Codec(describe), fields, rs).Ok?
    requires forall i | 0 <= i < |rs.rows| :: RowStorable(describe, fields, rs.rows[i].values)
    ensures var parsed := ParseFlat(Codec(describe), fields, WriteFlat(Codec(describe), fields, rs).value);
            (parsed.Ok? && ToGraph(parsed.value) == ToGraph(Images(rs))) <==> !Hazard(Images(rs))
  {
    forall i | 0 <= i < |rs.rows| ensures AllRoundTrip(Codec(describe), fields, rs.rows[i].values) {
      RowRoundTrips(describe, fields, rs.rows[i].values);
    }
    NothingStoredIsNull(describe, fields);
    FlatRecordsetRoundTrip(Codec(describe), fields, rs);
  }

  lemma RowRoundTrips(describe: Describe, fields: seq<Field>, values: seq<Value>)
    requires RowStorable(describe, fields, values)
    ensures AllRoundTrip(Codec(describe), fields, values)
  {
    forall i | 0 <= i < |fields| && !fields[i].IsChapter() && values[i].Present()
      ensures RoundTrips(Codec(describe), fields[i], values[i])
    {
      StorableRoundTrips(describe, fields[i], values[i]);
    }
  }

  // ---------------------------------------------------------------- shaped Recordsets of these columns

  predicate PoolsStorable(describe: Describe, s: Schema, pools: Pools)
    decreases s
  {
    && (forall k | 0 <= k < |pools.rows| :: ImageStorable(describe, s.fields, pools.rows[k]))
    && |pools.children| == |s.children|
    && forall i | 0 <= i < |s.children| :: PoolsStorable(describe, s.children[i].schema, pools.children[i])
  }

  predicate ImageStorable(describe: Describe, fields: seq<Field>, image: RowImage) {
    RowStorable(describe, fields, image.values) && (image.Edit? ==> RowStorable(describe, fields, image.updated))
  }

  lemma {:induction false} StorableIsReadable(describe: Describe, s: Schema, pools: Pools)
    requires PoolsStorable(describe, s, pools)
    ensures PoolsReadable(Codec(describe), s, pools)
    decreases s
  {
    forall k | 0 <= k < |pools.rows| ensures ChapterRowReadable(Codec(describe), s.fields, pools.rows[k]) {
      assert ImageStorable(describe, s.fields, pools.rows[k]);
      RowRoundTrips(describe, s.fields, pools.rows[k].values);
      if pools.rows[k].Edit? {
        RowRoundTrips(describe, s.fields, pools.rows[k].updated);
      }
    }
    forall i | 0 <= i < |s.children| ensures PoolsReadable(Codec(describe), s.children[i].schema, pools.children[i]) {
      StorableIsReadable(describe, s.children[i].schema, pools.children[i]);
    }
  }

  lemma CodecIsPlain(describe: Describe)
    ensures PlainCodec(Codec(describe))
  {
    forall field, bytes: seq<byte> | DecodeCell(describe, field, bytes).Ok?
      ensures !DecodeCell(describe, field, bytes).value.0.Chapter? && DecodeCell(describe, field, bytes).value.0 != Unavailable
    {
      DecodedIsPlain(describe, field, bytes);
    }
  }

  /** Whole shaped Recordsets of these column types, with nothing asked of the codec: what is read is
      valid, it is the tree of the stored pools if and only if the keys of the rows shown are distinct,
      and then no view at any depth has changed. */
  lemma ScalarChapteredRoundTrip(describe: Describe, fields: seq<Field>, pools: Pools, depth: nat)
    requires ParseSchema(fields, 0, 2).Ok? && ParseSchema(fields, 0, 2).value.0.children != []
    requires var s := ParseSchema(fields, 0, 2).value.0; PoolsShaped(s, pools) && PoolsStorable(describe, s, pools)
    requires WriteChaptered(Codec(describe), fields, Materialize(ParseSchema(fields, 0, 2).value.0, pools)).Ok?
    ensures var s := ParseSchema(fields, 0, 2).value.0;
            var tree := Materialize(s, pools);
            var back := ReadChaptered(Codec(describe), fields, WriteChaptered(Codec(describe), fields, tree).value);
            && back.Ok? && TreeValid(fields, back.value)
            && (back == Ok(Materialize(s, StoredPools(s, pools))) <==> KeysApart(s, Pruned(s, pools)))
            && (KeysApart(s, Pruned(s, pools)) ==> SameViews(depth, back.value, tree))
  {
    var s := ParseSchema(fields, 0, 2).value.0;
    StorableIsReadable(describe, s, pools);
    ChapteredRoundTrip(Codec(describe), fields, pools, depth);
    CodecIsPlain(describe);
    ReadIsValid(Codec(describe), fields, WriteChaptered(Codec(describe), fields, Materialize(s, pools)).value);
  }

  // ---------------------------------------------------------------- the validator's currency guard

  /** `validate_currency_payload`: a plain decimal of at most 19 digits and four places whose
      ten-thousandths fit 64 bits. */
  predicate CurrencyPayloadOk(text: string) {
    var t := Decompose(text);
    && t.Valid() && !t.plus && t.whole != []
    && |DropLeading(t.whole + t.fraction, '0')| <= 19 && |t.fraction| <= PLACES
    && ScaledAbs(t.whole, t.fraction).Ok? && ScaledAbs(t.whole, t.fraction).value <= Limit(t.minus)
  }

  lemma ScaledAbsIsUnits(whole: string, fraction: string)
    requires AllDigits(whole) && AllDigits(fraction) && |fraction| <= PLACES && ScaledAbs(whole, fraction).Ok?
    ensures ScaledAbs(whole, fraction).value == UnitsOf(whole, fraction, PLACES)
  {
    WholeUnits(whole);
    CutIsDigits(whole, fraction);
    assert Cut(whole, fraction) == ScaledAbs(whole, fraction).value;
  }

  /** A currency text the validator lets through is parsed to a count that fits 64 bits, so the
      writer's cast never wraps behind the validator. */
  lemma CurrencyGuard(text: string)
    requires CurrencyPayloadOk(text)
    ensures var parts := ParseDecimalText(text, Some(4), None);
            parts.Ok? && parts.value.magnitude == Decompose(text).Units(4) && FitsSigned(SignedCount(parts.value), 8)
  {
    var t := Decompose(text);
    RenderDecomposed(text);
    RenderStrips(t);
    TrimNothing(text);
    BodyMeaning(t, 4, None);
    ScaledAbsIsUnits(t.whole, t.fraction);
    assert Pow(256, 8) == 0x1_0000_0000_0000_0000;
  }

  lemma ScaledAbsFits(whole: string, fraction: string)
    requires AllDigits(whole) && AllDigits(fraction) && |fraction| <= 4 && UnitsOf(whole, fraction, 4) <= 0x8000_0000_0000_0000
    ensures ScaledAbs(whole, fraction) == Ok(UnitsOf(whole, fraction, 4))
  {
    WholeUnits(whole);
    CutIsDigits(whole, fraction);
    PowPositive(10, 4);
    MulUp(ToNat(whole), Pow(10, 4));
    assert First(fraction) == fraction;
    assert Cut(whole, fraction) == UnitsOf(whole, fraction, 4);
  }

  lemma {:induction false} FewSignificantDigits(whole: string, fraction: string)
    requires AllDigits(whole) && AllDigits(fraction) && |fraction| <= 4 && UnitsOf(whole, fraction, 4) <= 0x8000_0000_0000_0000
    ensures |DropLeading(whole + fraction, '0')| <= 19
  {
    var digits := whole + fraction;
    var kept := DropLeading(digits, '0');
    PowPositive(10, 4 - |fraction|);
    MulUp(ToNat(digits), Pow(10, 4 - |fraction|));
    DropLeadingDigits(digits);
    DropLeadingSplits(digits, '0');
    if |kept| > 19 {
      NoLeadingZeroLarge(kept);
      PowMonotone(10, 19, |kept| - 1);
      NineteenDigits();
    }
  }

  lemma {:induction false} NineteenDigits()
    ensures Pow(10, 19) > 0x8000_0000_0000_0000
  {
    assert Pow(10, 9) == 1_000_000_000;
    assert Pow(10, 10) == 10_000_000_000;
    PowAdd(10, 9, 10);
  }

  /** The validator's guard, without its digit count, which the range already implies: it lets a text through
      exactly when it is a plain decimal of at most four places whose ten-thousandths fit 64 bits. */
  lemma CurrencyGuardIs(text: string)
    ensures CurrencyPayloadOk(text)
            <==> var t := Decompose(text);
                 && t.Valid() && !t.plus && t.whole != [] && |t.fraction| <= 4
                 && t.Units(4) <= if t.minus then 9_223_372_036_854_775_808 else 9_223_372_036_854_775_807
  {
    var t := Decompose(text);
    if t.Valid() && |t.fraction| <= 4 {
      if t.Units(4) <= 0x8000_0000_0000_0000 {
        ScaledAbsFits(t.whole, t.fraction);
        FewSignificantDigits(t.whole, t.fraction);
      } else if ScaledAbs(t.whole, t.fraction).Ok? {
        ScaledAbsIsUnits(t.whole, t.fraction);
      }
    }
  }

  // ---------------------------------------------------------------- the hazard, concretely

  /** Eight nullable one-byte columns. */
  function ByteColumns(): (r: seq<Field>)
    ensures |r| == 8 && IsFlat(r)
  {
    seq(8, _ => Field("c", 16, true, false, None))
  }

  function NoValues(): seq<Value> {
    seq(8, _ => Null)
  }

  /** Values in the fifth, sixth and eighth column: the mask byte is 0x0d. */
  function LateValues(): (r: seq<Value>)
    ensures |r| == 8
  {
    seq(8, i => if i == 4 || i == 5 || i == 7 then Integer(1) else Null)
  }

  lemma {:induction false} CellsEncode(describe: Describe, fields: seq<Field>, present: seq<bool>, values: seq<Value>)
    requires |fields| == |present| == |values|
    requires forall i | 0 <= i < |fields| && present[i] :: EncodeCell(describe, fields[i], values[i]).Ok?
    ensures EncodePresent(Codec(describe), fields, present, values).Ok?
  {
    if fields != [] {
      CellsEncode(describe, fields[1..], present[1..], values[1..]);
    }
  }

  lemma {:induction false} ByteRowEncodes(describe: Describe, values: seq<Value>)
    requires |values| == 8 && forall i | 0 <= i < 8 :: values[i] == Null || values[i] == Integer(1)
    ensures CurrentBody(Codec(describe), ByteColumns(), values).Ok? && InsertBody(Codec(describe), ByteColumns(), values).Ok?
    ensures AllRoundTrip(Codec(describe), ByteColumns(), values)
  {
    assert Pow(256, 1) == 256;
    CellsEncode(describe, ByteColumns(), PresentBits(ByteColumns(), values), values);
    RowRoundTrips(describe, ByteColumns(), values);
  }

  function HazardRows(): seq<RowImage> {
    [Keep(NoValues()), Add(LateValues())]
  }

  lemma {:induction false} HazardRowEncodes(describe: Describe, i: nat)
    requires i < 2
    ensures EncodeRow(Codec(describe), ByteColumns(), HazardRows()[i]).Ok?
  {
    if i == 0 {
      ByteRowEncodes(describe, NoValues());
    } else {
      ByteRowEncodes(describe, LateValues());
      assert Unavailable !in LateValues();
    }
  }

  lemma TwoRowsEncode(codec: ValueCodec, fields: seq<Field>, a: RowImage, b: RowImage)
    requires EncodeRow(codec, fields, a).Ok? && EncodeRow(codec, fields, b).Ok?
    ensures EncodeRows(codec, fields, [a, b]).Ok?
  {
    assert [a, b][1..] == [b] && [b][1..] == [];
    assert EncodeRows(codec, fields, []).Ok? && EncodeRows(codec, fields, [b]).Ok?;
  }

  lemma HazardRowsEncode(describe: Describe)
    ensures EncodeRows(Codec(describe), ByteColumns(), HazardRows()).Ok?
    ensures forall i | 0 <= i < 2 :: EncodeRow(Codec(describe), ByteColumns(), HazardRows()[i]).Ok?
  {
    HazardRowEncodes(describe, 0);
    HazardRowEncodes(describe, 1);
    TwoRowsEncode(Codec(describe), ByteColumns(), HazardRows()[0], HazardRows()[1]);
  }

  lemma {:induction false} ByteRowReadable(describe: Describe, image: RowImage)
    requires image.Keep? || image.Add?
    requires |image.values| == 8 && forall i | 0 <= i < 8 :: image.values[i] == Null || image.values[i] == Integer(1)
    requires EncodeRow(Codec(describe), ByteColumns(), image).Ok?
    ensures RowReadable(Codec(describe), ByteColumns(), image)
  {
    RowRoundTrips(describe, ByteColumns(), image.values);
    assert ImageValid(ByteColumns(), image);
  }

  lemma HazardRowsReadable(describe: Describe)
    ensures Readable(Codec(describe), ByteColumns(), HazardRows())
  {
    HazardRowsEncode(describe);
    forall i | 0 <= i < |HazardRows()| ensures RowReadable(Codec(describe), ByteColumns(), HazardRows()[i]) {
      ByteRowReadable(describe, HazardRows()[i]);
    }
  }

  lemma HazardRowsCollide()
    ensures Hazard(HazardRows())
  {
    var rows := HazardRows();
    assert LooksLikeMarker(LateValues());
    assert rows[0].Keep? && rows[0 + 1].Add?;
  }

  /** A current row of nulls and an inserted row behind it: everything the writer and the reader
      ask for holds, and still the two rows are not read back. */
  lemma HazardHappens(describe: Describe)
    ensures var codec, fields := Codec(describe), ByteColumns();
            && EncodeRows(codec, fields, HazardRows()).Ok?
            && Readable(codec, fields, HazardRows())
            && ParseFlat(codec, fields, EncodeRows(codec, fields, HazardRows()).value + [END]) != Ok(HazardRows())
  {
    HazardRowsEncode(describe);
    HazardRowsReadable(describe);
    HazardRowsCollide();
    NothingStoredIsNull(describe, ByteColumns());
    FlatRoundTrip(Codec(describe), ByteColumns(), HazardRows());
  }
}
