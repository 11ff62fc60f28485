/** A few rows of one-byte columns, byte for byte. */
module RowBytes {
  import opened Prelude
  import Masks
  import opened Decimal
  import NumericPayload
  import opened RecordsetModel
  import opened RowCodec
  import opened FlatStream
  import opened ChapterBytes
  import opened ScalarCodec

  /** Bit k of a mask, or the padding. */
  function At(bits: seq<bool>, k: nat, padding: bool): nat {
    One(if k < |bits| then bits[k] else padding)
  }

  /** The byte with these bits, the first its highest. */
  function ByteOf(bits: seq<bool>, padding: bool): nat {
    128 * At(bits, 0, padding) + 64 * At(bits, 1, padding) + 32 * At(bits, 2, padding) + 16 * At(bits, 3, padding)
    + 8 * At(bits, 4, padding) + 4 * At(bits, 5, padding) + 2 * At(bits, 6, padding) + At(bits, 7, padding)
  }

  lemma {:induction false} ByteOfOne(bits: seq<bool>, padding: bool)
    requires |bits| == 1
    ensures ByteOf(bits, padding) == (if bits[0] then 0x80 else 0) + if padding then 0x7f else 0
  {
  }

  lemma {:induction false} ByteOfTwo(bits: seq<bool>)
    requires |bits| == 2
    ensures ByteOf(bits, false) == (if bits[0] then 0x80 else 0) + if bits[1] then 0x40 else 0
  {
  }

  /** A mask of at most eight bits is that one byte. */
  lemma {:induction false} OneByteMask(bits: seq<bool>, padding: bool)
    requires 1 <= |bits| <= 8
    ensures ByteOf(bits, padding) < 256 && Masks.Mask(bits, padding) == [ByteOf(bits, padding)]
  {
    var all := Masks.Padded(bits, padding);
    OneByte(bits, padding);
    assert forall k | 0 <= k < 8 :: One(all[k]) == At(bits, k, padding);
    ValueOfEight(all);
  }

  lemma {:induction false} OneByte(bits: seq<bool>, padding: bool)
    requires 1 <= |bits| <= 8
    ensures |Masks.Padded(bits, padding)| == 8
    ensures Masks.Mask(bits, padding) == [Masks.ValueOf(Masks.Padded(bits, padding))]
  {
    assert Masks.MaskLength(|bits|) == 1;
    assert Masks.Padded(bits, padding)[0..8] == Masks.Padded(bits, padding);
  }

  lemma {:induction false} OneBit(p: bool, padding: bool)
    ensures Masks.Mask([p], padding) == [(if p then 0x80 else 0) + if padding then 0x7f else 0]
  {
    ByteOfOne([p], padding);
    OneByteMask([p], padding);
  }

  lemma {:induction false} TwoBits(p: bool, q: bool)
    ensures Masks.Mask([p, q], false) == [(if p then 0x80 else 0) + if q then 0x40 else 0]
  {
    ByteOfTwo([p, q]);
    OneByteMask([p, q], false);
  }

  /** A one-byte signed column that may be null, one that may not, and a chapter column. */
  const MAYBE := Field("a", 16, true, false, None)
  const ALWAYS := Field("b", 16, false, false, None)
  const NESTED := Field("c", 136, false, false, None)

  lemma {:induction false} OneByteCell(describe: Describe, field: Field, n: int)
    requires field.typeCode == 16 && -128 <= n <= 127
    ensures EncodeCell(describe, field, Integer(n)) == Ok([if n < 0 then n + 256 else n])
  {
    assert Pow(256, 1) == 256;
    var w := if n < 0 then n + 256 else n;
    DivModUnique(n, 256, if n < 0 then -1 else 0, w);
    assert LittleEndian(w / 256, 0) == [];
    assert LittleEndian(w, 1) == [w];
  }

  lemma {:induction false} TwoValues(codec: ValueCodec, a: Field, b: Field, x: Value, y: Value, p: bool, q: bool, m: seq<byte>, n: seq<byte>)
    requires p ==> codec.encode(a, x) == Ok(m)
    requires q ==> codec.encode(b, y) == Ok(n)
    ensures EncodePresent(codec, [a, b], [p, q], [x, y]) == Ok((if p then m else []) + if q then n else [])
  {
    assert [a, b][1..] == [b] && [p, q][1..] == [q] && [x, y][1..] == [y];
    assert [b][1..] == [] && [q][1..] == [] && [y][1..] == [];
    assert EncodePresent(codec, [], [], []) == Ok([]);
    var tail: seq<byte> := if q then n else [];
    assert tail + [] == tail;
    assert EncodePresent(codec, [b], [q], [y]) == Ok(tail);
  }

  lemma {:induction false} OnlyFirstMasked(first: Field, second: Field, p: bool, q: bool)
    requires first.Masked() && !second.Masked()
    ensures MaskedOnly([first, second], [p, q]) == [p] && MaskedCount([first, second]) == 1
  {
    assert [first, second][1..] == [second] && [p, q][1..] == [q] && [second][1..] == [] && [q][1..] == [];
    assert MaskedCount([second]) == 0 && MaskedOnly([second], [q]) == [];
  }

  lemma {:induction false} CurrentOf(codec: ValueCodec, first: Field, second: Field, x: Value, y: Value, p: bool, bytes: seq<byte>)
    requires first.Masked() && !second.Masked() && y.Present()
    requires PresentBits([first, second], [x, y]) == [p, true]
    requires EncodePresent(codec, [first, second], [p, true], [x, y]) == Ok(bytes)
    ensures CurrentBody(codec, [first, second], [x, y]) == Ok([if p then 0xff else 0x7f] + bytes)
  {
    OnlyFirstMasked(first, second, p, true);
    OneBit(p, true);
  }

  lemma {:induction false} InsertOf(codec: ValueCodec, first: Field, second: Field, x: Value, y: Value, p: bool, u: bool, bytes: seq<byte>)
    requires first.Masked() && y.Present()
    requires PresentBits([first, second], [x, y]) == [p, true] && NullBits([first, second], [x, y]) == [u, false]
    requires EncodePresent(codec, [first, second], [p, true], [x, y]) == Ok(bytes)
    ensures InsertBody(codec, [first, second], [x, y]) == Ok([(if p then 0x80 else 0) + 0x40, if u then 0x80 else 0] + bytes)
  {
    TwoBits(p, true);
    TwoBits(u, false);
    var m: byte, n: byte := (if p then 0x80 else 0) + 0x40, if u then 0x80 else 0;
    assert [m] + [n] == [m, n];
  }

  /** The body of a current row: a bit for the nullable column alone, spare bits set, then the value. */
  lemma {:induction false} CurrentRowBytes(describe: Describe)
    ensures CurrentBody(Codec(describe), [MAYBE, ALWAYS], [Null, Integer(5)]) == Ok([0x7f, 0x05])
  {
    OneByteCell(describe, ALWAYS, 5);
    TwoValues(Codec(describe), MAYBE, ALWAYS, Null, Integer(5), false, true, [], [5]);
    assert [] + [5] == [5];
    CurrentOf(Codec(describe), MAYBE, ALWAYS, Null, Integer(5), false, [5]);
    assert [0x7f] + [5] == [0x7f, 0x05];
  }

  lemma {:induction false} CurrentRowOfTwo(describe: Describe)
    ensures CurrentBody(Codec(describe), [MAYBE, ALWAYS], [Integer(-1), Integer(5)]) == Ok([0xff, 0xff, 0x05])
  {
    OneByteCell(describe, MAYBE, -1);
    OneByteCell(describe, ALWAYS, 5);
    TwoValues(Codec(describe), MAYBE, ALWAYS, Integer(-1), Integer(5), true, true, [255], [5]);
    assert [255] + [5] == [255, 5];
    CurrentOf(Codec(describe), MAYBE, ALWAYS, Integer(-1), Integer(5), true, [255, 5]);
    assert [0xff] + [255, 5] == [0xff, 0xff, 0x05];
  }

  /** Of an inserted row: the mask of the values, the mask of the nulls, spare bits clear, then the values. */
  lemma {:induction false} InsertRowBytes(describe: Describe)
    ensures InsertBody(Codec(describe), [MAYBE, ALWAYS], [Null, Integer(2)]) == Ok([0x40, 0x80, 0x02])
  {
    OneByteCell(describe, ALWAYS, 2);
    TwoValues(Codec(describe), MAYBE, ALWAYS, Null, Integer(2), false, true, [], [2]);
    assert [] + [2] == [2];
    InsertOf(Codec(describe), MAYBE, ALWAYS, Null, Integer(2), false, true, [2]);
    assert [0x40, 0x80] + [2] == [0x40, 0x80, 0x02];
  }

  /** Of a pending row: the same two masks, with no bit for what is omitted. */
  lemma {:induction false} UpdateRowBytes(codec: ValueCodec)
    ensures UpdateBody(codec, [MAYBE, ALWAYS], [Null, Unavailable]) == Ok([0x00, 0x80])
  {
    var fields, values := [MAYBE, ALWAYS], [Null, Unavailable];
    assert PresentBits(fields, values) == [false, false] && NullBits(fields, values) == [true, false];
    TwoBits(false, false);
    TwoBits(true, false);
    TwoValues(codec, MAYBE, ALWAYS, Null, Unavailable, false, false, [], []);
    NothingBehind([0x00], [0x80]);
    assert [0x00] + [0x80] == [0x00, 0x80];
  }

  lemma NothingBehind(a: seq<byte>, b: seq<byte>)
    ensures a + b + ([] + []) == a + b
  {
  }

  /** A chapter column has a bit in the mask of a current row, which is clear, and no value. */
  lemma {:induction false} ChapterRowBytes(describe: Describe, nested: Recordset)
    ensures CurrentBody(Codec(describe), [NESTED, ALWAYS], [Chapter(nested), Integer(5)]) == Ok([0x7f, 0x05])
    ensures InsertBody(Codec(describe), [NESTED, ALWAYS], [Chapter(nested), Integer(5)]) == Ok([0x40, 0x00, 0x05])
  {
    OneByteCell(describe, ALWAYS, 5);
    TwoValues(Codec(describe), NESTED, ALWAYS, Chapter(nested), Integer(5), false, true, [], [5]);
    assert [] + [5] == [5];
    CurrentOf(Codec(describe), NESTED, ALWAYS, Chapter(nested), Integer(5), false, [5]);
    InsertOf(Codec(describe), NESTED, ALWAYS, Chapter(nested), Integer(5), false, false, [5]);
    assert [0x7f] + [5] == [0x7f, 0x05] && [0x40, 0x00] + [5] == [0x40, 0x00, 0x05];
  }

  // ---------------------------------------------------------------- columns by type code

  lemma {:induction false} WidthOfInteger(describe: Describe, field: Field, value: Value)
    requires EncodeCell(describe, field, value).Ok?
    ensures KindOf(field.typeCode).SignedKind? ==> |EncodeCell(describe, field, value).value| == KindOf(field.typeCode).width
    ensures KindOf(field.typeCode).UnsignedKind? ==> |EncodeCell(describe, field, value).value| == KindOf(field.typeCode).width
    ensures KindOf(field.typeCode).BooleanKind? ==> |EncodeCell(describe, field, value).value| == 2
  {
  }

  lemma {:induction false} WidthOfCurrency(describe: Describe, field: Field, value: Value)
    requires EncodeCell(describe, field, value).Ok?
    ensures KindOf(field.typeCode).CurrencyKind? ==> |EncodeCell(describe, field, value).value| == 8
  {
  }

  lemma {:induction false} WidthOfFiletime(describe: Describe, field: Field, value: Value)
    requires EncodeCell(describe, field, value).Ok?
    ensures KindOf(field.typeCode).FiletimeKind? ==> |EncodeCell(describe, field, value).value| == 8
    ensures !KindOf(field.typeCode).OtherKind?
  {
  }

  lemma {:induction false} WidthOfNumeric(describe: Describe, field: Field, value: Value)
    requires EncodeCell(describe, field, value).Ok? && KindOf(field.typeCode).NumericKind?
    ensures |EncodeCell(describe, field, value).value| == 19
  {
    NumericWidth(describe(field), value.text);
  }

  lemma {:induction false} NumericWidth(field: NumericPayload.NumericField, text: string)
    requires NumericPayload.WriteNumeric(field, text).Ok?
    ensures |NumericPayload.WriteNumeric(field, text).value| == 19
  {
  }

  lemma {:induction false} WidthOfDecimal(describe: Describe, field: Field, value: Value)
    requires EncodeCell(describe, field, value).Ok? && KindOf(field.typeCode).DecimalKind?
    ensures |EncodeCell(describe, field, value).value| == 16
  {
    DecimalWidth(describe(field), value.text);
  }

  /** How many bytes a cell of a fixed-width type takes. */
  lemma {:induction false} CellWidth(describe: Describe, field: Field, value: Value)
    requires EncodeCell(describe, field, value).Ok? && field.typeCode != 139
    ensures field.typeCode in {2, 3, 6, 11, 14, 16, 17, 18, 19, 20, 21, 64, 131}
    ensures |EncodeCell(describe, field, value).value|
            == if field.typeCode in {16, 17} then 1
               else if field.typeCode in {2, 11, 18} then 2
               else if field.typeCode in {3, 19} then 4
               else if field.typeCode == 14 then 16
               else if field.typeCode == 131 then 19
               else 8
  {
    WidthOfInteger(describe, field, value);
    WidthOfCurrency(describe, field, value);
    WidthOfFiletime(describe, field, value);
    if field.typeCode == 131 {
      WidthOfNumeric(describe, field, value);
    } else if field.typeCode == 14 {
      WidthOfDecimal(describe, field, value);
    }
    assert KindOf(field.typeCode) != VarNumericKind;
  }

  lemma {:induction false} DecimalWidth(field: NumericPayload.NumericField, text: string)
    requires NumericPayload.WriteDecimal(field, text).Ok?
    ensures |NumericPayload.WriteDecimal(field, text).value| == 16
  {
    NumericPayload.DecimalLayout(0, NumericPayload.ParseForDecimal(field, text).value);
  }

  /** Which integers a column takes. */
  lemma {:induction false} IntegerRange(describe: Describe, field: Field, n: int)
    ensures field.typeCode == 16 ==> (EncodeCell(describe, field, Integer(n)).Ok? <==> -128 <= n <= 127)
    ensures field.typeCode == 2 ==> (EncodeCell(describe, field, Integer(n)).Ok? <==> -32_768 <= n <= 32_767)
    ensures field.typeCode == 3 ==> (EncodeCell(describe, field, Integer(n)).Ok? <==> -2_147_483_648 <= n <= 2_147_483_647)
    ensures field.typeCode == 20 ==>
              (EncodeCell(describe, field, Integer(n)).Ok? <==> -9_223_372_036_854_775_808 <= n <= 9_223_372_036_854_775_807)
    ensures field.typeCode == 17 ==> (EncodeCell(describe, field, Integer(n)).Ok? <==> 0 <= n <= 255)
    ensures field.typeCode == 18 ==> (EncodeCell(describe, field, Integer(n)).Ok? <==> 0 <= n <= 65_535)
    ensures field.typeCode == 19 ==> (EncodeCell(describe, field, Integer(n)).Ok? <==> 0 <= n <= 4_294_967_295)
    ensures field.typeCode == 21 ==> (EncodeCell(describe, field, Integer(n)).Ok? <==> 0 <= n <= 18_446_744_073_709_551_615)
  {
    assert Pow(256, 1) == 256 && Pow(256, 2) == 65_536;
    assert Pow(256, 4) == 65_536 * Pow(256, 2);
    PowAdd(256, 4, 4);
  }

  /** A boolean is two bytes of ones or of zeros. */
  lemma {:induction false} BooleanBytes(describe: Describe, field: Field)
    requires field.typeCode == 11
    ensures EncodeCell(describe, field, Boolean(true)) == Ok([0xff, 0xff])
    ensures EncodeCell(describe, field, Boolean(false)) == Ok([0x00, 0x00])
  {
    assert Pow(256, 2) == 65_536;
    assert LittleEndian(65_535, 2) == [0xff, 0xff] && LittleEndian(0, 2) == [0x00, 0x00] by {
      assert LittleEndian(255, 1) == [0xff] + LittleEndian(0, 0);
      assert LittleEndian(0, 1) == [0x00] + LittleEndian(0, 0);
    }
    DivModUnique(-1, 65_536, -1, 65_535);
  }

  lemma {:induction false} CurrencyEncodes(describe: Describe, field: Field, text: string, parts: Result<DecimalParts>)
    requires KindOf(field.typeCode).CurrencyKind? && ParseDecimalText(text, Some(4), None) == parts
    ensures EncodeCell(describe, field, Value.Decimal(text)).Ok? <==> parts.Ok? && parts.value.magnitude < Pow(256, 16) / 2
  {
  }

  /** A currency column refuses a number only beyond 127 bits; what exceeds 64 is cut by the cast. */
  lemma {:induction false} CurrencyAccepted(describe: Describe, field: Field, text: string)
    requires field.typeCode == 6
    ensures EncodeCell(describe, field, Value.Decimal(text)).Ok?
            <==> var parts := ParseDecimalText(text, Some(4), None);
                 parts.Ok? && parts.value.magnitude < 0x8000_0000_0000_0000_0000_0000_0000_0000
  {
    CurrencyEncodes(describe, field, text, ParseDecimalText(text, Some(4), None));
    HalfOfSixteenBytes();
  }

  lemma HalfOfSixteenBytes()
    ensures Pow(256, 16) / 2 == 0x8000_0000_0000_0000_0000_0000_0000_0000
  {
    NumericPayload.Widths();
  }
}
