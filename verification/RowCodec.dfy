/** The bytes of one row: presence masks followed by the present values. The flat and the
    chapter writers share this layout; a flat recordset simply has no chapter field. */
module RowCodec {
  import opened Prelude
  import opened Masks
  import opened RecordsetModel

  const CURRENT: byte := 0x07
  const UPDATE: byte := 0x0a
  const DELETE: byte := 0x0c
  const INSERT: byte := 0x0d
  const END: byte := 0x0f

  /** `write_value` and `read_value`; decode also says how many bytes it used. */
  datatype ValueCodec = ValueCodec(
    encode: (Field, Value) -> Result<seq<byte>>,
    decode: (Field, seq<byte>) -> Result<(Value, nat)>)

  /** The codec reads back what it wrote for this value, whatever bytes follow. */
  ghost predicate RoundTrips(codec: ValueCodec, field: Field, value: Value) {
    codec.encode(field, value).Ok? ==>
      var text := codec.encode(field, value).value;
      forall tail: seq<byte> :: codec.decode(field, text + tail) == Ok((value, |text|))
  }

  ghost predicate AllRoundTrip(codec: ValueCodec, fields: seq<Field>, values: seq<Value>) {
    && |fields| == |values|
    && forall i | 0 <= i < |fields| && !fields[i].IsChapter() && values[i].Present() :: RoundTrips(codec, fields[i], values[i])
  }

  // ---------------------------------------------------------------- writing

  function PresentBits(fields: seq<Field>, values: seq<Value>): (r: seq<bool>)
    requires |fields| == |values|
    ensures |r| == |fields|
  {
    seq(|fields|, i requires 0 <= i < |fields| => !fields[i].IsChapter() && values[i].Present())
  }

  function NullBits(fields: seq<Field>, values: seq<Value>): (r: seq<bool>)
    requires |fields| == |values|
    ensures |r| == |fields|
  {
    seq(|fields|, i requires 0 <= i < |fields| => !fields[i].IsChapter() && values[i] == Null)
  }

  /** The bits of the fields that have one in a row presence mask. */
  function MaskedOnly(fields: seq<Field>, bits: seq<bool>): (r: seq<bool>)
    requires |fields| == |bits|
    ensures |r| == MaskedCount(fields)
  {
    if fields == [] then []
    else (if fields[0].Masked() then [bits[0]] else []) + MaskedOnly(fields[1..], bits[1..])
  }

  function MaskedCount(fields: seq<Field>): nat {
    if fields == [] then 0 else (if fields[0].Masked() then 1 else 0) + MaskedCount(fields[1..])
  }

  function EncodePresent(codec: ValueCodec, fields: seq<Field>, present: seq<bool>, values: seq<Value>): Result<seq<byte>>
    requires |fields| == |present| == |values|
  {
    if fields == [] then Ok([])
    else
      var head :- if present[0] then codec.encode(fields[0], values[0]) else Ok([]);
      var tail :- EncodePresent(codec, fields[1..], present[1..], values[1..]);
      Ok(head + tail)
  }

  predicate NullsAllowed(fields: seq<Field>, values: seq<Value>)
    requires |fields| == |values|
  {
    forall i | 0 <= i < |fields| :: fields[i].Masked() || values[i].Present()
  }

  /** `write_current_or_original_row` and `write_chapter_current_row` after their marker. */
  function CurrentBody(codec: ValueCodec, fields: seq<Field>, values: seq<Value>): Result<seq<byte>> {
    if |fields| != |values| || !NullsAllowed(fields, values) then Err
    else
      var present := PresentBits(fields, values);
      var mask := if MaskedCount(fields) == 0 then [] else Mask(MaskedOnly(fields, present), true);
      var body :- EncodePresent(codec, fields, present, values);
      Ok(mask + body)
  }

  /** `write_insert_row` and `write_chapter_insert_row` after their marker. */
  function InsertBody(codec: ValueCodec, fields: seq<Field>, values: seq<Value>): Result<seq<byte>> {
    if |fields| != |values| || !NullsAllowed(fields, values) then Err
    else
      var present := PresentBits(fields, values);
      var body :- EncodePresent(codec, fields, present, values);
      Ok(Mask(present, false) + Mask(NullBits(fields, values), false) + body)
  }

  predicate UpdateNullsAllowed(fields: seq<Field>, values: seq<Value>)
    requires |fields| == |values|
  {
    forall i | 0 <= i < |fields| :: values[i] == Null ==> fields[i].Masked()
  }

  /** `write_update_values` and `write_chapter_update_values` after their marker. */
  function UpdateBody(codec: ValueCodec, fields: seq<Field>, values: seq<Value>): Result<seq<byte>> {
    if |fields| != |values| || !UpdateNullsAllowed(fields, values) then Err
    else
      var present := PresentBits(fields, values);
      var body :- EncodePresent(codec, fields, present, values);
      Ok(Mask(present, false) + Mask(NullBits(fields, values), false) + body)
  }

  // ---------------------------------------------------------------- reading

  /** `read_value`: chapter fields carry no value of their own. */
  function ReadField(codec: ValueCodec, field: Field, bytes: seq<byte>): (r: Result<(Value, seq<byte>)>)
    ensures r.Ok? ==> |r.value.1| <= |bytes|
  {
    if field.IsChapter() then Err
    else
      var got :- codec.decode(field, bytes);
      if got.1 <= |bytes| then Ok((got.0, bytes[got.1..])) else Err
  }

  function ReadMask(bytes: seq<byte>, count: nat): (r: Result<(seq<byte>, seq<byte>)>)
    ensures r.Ok? ==> |r.value.0| == MaskLength(count) && bytes == r.value.0 + r.value.1
  {
    if |bytes| < MaskLength(count) then Err
    else Ok((bytes[..MaskLength(count)], bytes[MaskLength(count)..]))
  }

  /** Spread the mask bits over the fields; a field without a bit is always present. */
  function Spread(fields: seq<Field>, bits: seq<bool>): (r: seq<bool>)
    requires |bits| == MaskedCount(fields)
    ensures |r| == |fields|
  {
    if fields == [] then []
    else if fields[0].Masked()
    then [fields[0].IsChapter() || bits[0]] + Spread(fields[1..], bits[1..])
    else [true] + Spread(fields[1..], bits)
  }

  /** `row_presence_from_mask` and `chapter_row_presence_from_mask` */
  function RowPresence(bytes: seq<byte>, fields: seq<Field>): (r: Result<(seq<bool>, seq<byte>)>)
    ensures r.Ok? ==> |r.value.0| == |fields| && |r.value.1| <= |bytes|
  {
    var count := MaskedCount(fields);
    if count == 0 then Ok((Spread(fields, []), bytes))
    else
      var got :- ReadMask(bytes, count);
      if !PaddingOk(got.0, count, true) then Err
      else Ok((Spread(fields, Bits(got.0, count)), got.1))
  }

  /** `validate_value_masks` */
  predicate MasksConsistent(fields: seq<Field>, nonNull: seq<bool>, nulls: seq<bool>, required: bool)
    requires |fields| == |nonNull| == |nulls|
  {
    forall i | 0 <= i < |fields| ::
      && !(nonNull[i] && nulls[i])
      && (nulls[i] ==> fields[i].Masked())
      && (required && !nonNull[i] && !nulls[i] ==> fields[i].Masked())
  }

  /** The two zero-padded masks in front of insert and update values. */
  function ValueMasks(bytes: seq<byte>, fields: seq<Field>, required: bool): (r: Result<(seq<bool>, seq<bool>, seq<byte>)>)
    ensures r.Ok? ==> |r.value.0| == |r.value.1| == |fields|
    ensures r.Ok? ==> |r.value.2| + 2 * MaskLength(|fields|) == |bytes|
  {
    var first :- ReadMask(bytes, |fields|);
    var second :- ReadMask(first.1, |fields|);
    if !PaddingOk(first.0, |fields|, false) || !PaddingOk(second.0, |fields|, false) then Err
    else
      var nonNull, nulls := Bits(first.0, |fields|), Bits(second.0, |fields|);
      if !MasksConsistent(fields, nonNull, nulls, required) then Err
      else Ok((nonNull, nulls, second.1))
  }

  /** `read_values` and `read_chaptered_parent_values` */
  function ReadValues(codec: ValueCodec, fields: seq<Field>, present: seq<bool>, bytes: seq<byte>): (r: Result<(seq<Value>, seq<byte>)>)
    requires |fields| == |present|
    ensures r.Ok? ==> |r.value.0| == |fields| && |r.value.1| <= |bytes|
  {
    if fields == [] then Ok(([], bytes))
    else
      var head :- ReadOne(codec, fields[0], present[0], bytes);
      var tail :- ReadValues(codec, fields[1..], present[1..], head.1);
      Ok(([head.0] + tail.0, tail.1))
  }

  function ReadOne(codec: ValueCodec, field: Field, present: bool, bytes: seq<byte>): (r: Result<(Value, seq<byte>)>)
    ensures r.Ok? ==> |r.value.1| <= |bytes|
  {
    if field.IsChapter() then Ok((Chapter(EmptyRecordset), bytes))
    else if !present then Ok((Null, bytes))
    else ReadField(codec, field, bytes)
  }

  function ReadUpdates(codec: ValueCodec, fields: seq<Field>, nonNull: seq<bool>, nulls: seq<bool>, bytes: seq<byte>): (r: Result<(seq<Value>, seq<byte>)>)
    requires |fields| == |nonNull| == |nulls|
    ensures r.Ok? ==> |r.value.0| == |fields| && |r.value.1| <= |bytes|
  {
    if fields == [] then Ok(([], bytes))
    else
      var head :- ReadUpdate(codec, fields[0], nonNull[0], nulls[0], bytes);
      var tail :- ReadUpdates(codec, fields[1..], nonNull[1..], nulls[1..], head.1);
      Ok(([head.0] + tail.0, tail.1))
  }

  function ReadUpdate(codec: ValueCodec, field: Field, nonNull: bool, isNull: bool, bytes: seq<byte>): (r: Result<(Value, seq<byte>)>)
    ensures r.Ok? ==> |r.value.1| <= |bytes|
  {
    if nonNull then ReadField(codec, field, bytes)
    else Ok((if isNull then Null else Unavailable, bytes))
  }

  function ReadCurrent(codec: ValueCodec, fields: seq<Field>, bytes: seq<byte>): (r: Result<(seq<Value>, seq<byte>)>)
    ensures r.Ok? ==> |r.value.0| == |fields| && |r.value.1| <= |bytes|
  {
    var presence :- RowPresence(bytes, fields);
    ReadValues(codec, fields, presence.0, presence.1)
  }

  /** `insert_presence` then `read_values` */
  function ReadInsert(codec: ValueCodec, fields: seq<Field>, bytes: seq<byte>): (r: Result<(seq<Value>, seq<byte>)>)
    ensures r.Ok? ==> |r.value.0| == |fields| && |r.value.1| < |bytes|
  {
    var masks :- ValueMasks(bytes, fields, true);
    ReadValues(codec, fields, masks.0, masks.2)
  }

  /** `read_update_values` */
  function ReadUpdateValues(codec: ValueCodec, fields: seq<Field>, bytes: seq<byte>): (r: Result<(seq<Value>, seq<byte>)>)
    ensures r.Ok? ==> |r.value.0| == |fields| && |r.value.1| < |bytes|
  {
    var masks :- ValueMasks(bytes, fields, false);
    ReadUpdates(codec, fields, masks.0, masks.1, masks.2)
  }

  // ---------------------------------------------------------------- what comes back

  /** A stored row: omitted values are null, chapter cells are filled in later. */
  function Settled(fields: seq<Field>, values: seq<Value>): (r: seq<Value>)
    requires |fields| == |values|
    ensures |r| == |fields|
  {
    seq(|fields|, i requires 0 <= i < |fields| =>
      if fields[i].IsChapter() then Chapter(EmptyRecordset) else if values[i].Present() then values[i] else Null)
  }

  /** A stored update: omitted values stay omitted, chapter cells carry nothing. */
  function SettledUpdate(fields: seq<Field>, values: seq<Value>): (r: seq<Value>)
    requires |fields| == |values|
    ensures |r| == |fields|
  {
    seq(|fields|, i requires 0 <= i < |fields| => if fields[i].IsChapter() then Unavailable else values[i])
  }

  lemma ReadFieldInverts(codec: ValueCodec, field: Field, value: Value, tail: seq<byte>)
    requires RoundTrips(codec, field, value) && codec.encode(field, value).Ok? && !field.IsChapter()
    ensures ReadField(codec, field, codec.encode(field, value).value + tail) == Ok((value, tail))
  {
    var text := codec.encode(field, value).value;
    assert codec.decode(field, text + tail) == Ok((value, |text|));
    assert (text + tail)[|text|..] == tail;
  }

  lemma EncodePresentUnfold(codec: ValueCodec, fields: seq<Field>, values: seq<Value>, tail: seq<byte>)
    requires fields != [] && |fields| == |values|
    requires EncodePresent(codec, fields, PresentBits(fields, values), values).Ok?
    ensures PresentBits(fields, values)[1..] == PresentBits(fields[1..], values[1..])
    ensures EncodePresent(codec, fields[1..], PresentBits(fields[1..], values[1..]), values[1..]).Ok?
    ensures var body, rest := EncodePresent(codec, fields, PresentBits(fields, values), values).value,
                              EncodePresent(codec, fields[1..], PresentBits(fields[1..], values[1..]), values[1..]).value;
            if PresentBits(fields, values)[0]
            then codec.encode(fields[0], values[0]).Ok? && body + tail == codec.encode(fields[0], values[0]).value + (rest + tail)
            else body + tail == rest + tail
  {
    assert PresentBits(fields, values)[1..] == PresentBits(fields[1..], values[1..]);
    var rest := EncodePresent(codec, fields[1..], PresentBits(fields[1..], values[1..]), values[1..]).value;
    Regrouped(if PresentBits(fields, values)[0] then codec.encode(fields[0], values[0]).value else [], rest, tail);
    assert [] + (rest + tail) == rest + tail;
  }

  lemma {:induction false} ReadValuesInverts(codec: ValueCodec, fields: seq<Field>, values: seq<Value>, tail: seq<byte>)
    requires AllRoundTrip(codec, fields, values)
    requires EncodePresent(codec, fields, PresentBits(fields, values), values).Ok?
    ensures var body := EncodePresent(codec, fields, PresentBits(fields, values), values).value;
            ReadValues(codec, fields, PresentBits(fields, values), body + tail) == Ok((Settled(fields, values), tail))
  {
    if fields == [] {
      assert [] + tail == tail;
    } else {
      EncodePresentUnfold(codec, fields, values, tail);
      var rest := EncodePresent(codec, fields[1..], PresentBits(fields[1..], values[1..]), values[1..]).value;
      ReadValuesInverts(codec, fields[1..], values[1..], tail);
      if PresentBits(fields, values)[0] {
        ReadFieldInverts(codec, fields[0], values[0], rest + tail);
      }
      assert Settled(fields, values) == [Settled(fields, values)[0]] + Settled(fields[1..], values[1..]);
    }
  }

  lemma {:induction false} ReadUpdatesInverts(codec: ValueCodec, fields: seq<Field>, values: seq<Value>, tail: seq<byte>)
    requires AllRoundTrip(codec, fields, values)
    requires EncodePresent(codec, fields, PresentBits(fields, values), values).Ok?
    ensures var body := EncodePresent(codec, fields, PresentBits(fields, values), values).value;
            ReadUpdates(codec, fields, PresentBits(fields, values), NullBits(fields, values), body + tail)
            == Ok((SettledUpdate(fields, values), tail))
  {
    if fields == [] {
      assert [] + tail == tail;
    } else {
      EncodePresentUnfold(codec, fields, values, tail);
      var rest := EncodePresent(codec, fields[1..], PresentBits(fields[1..], values[1..]), values[1..]).value;
      assert NullBits(fields, values)[1..] == NullBits(fields[1..], values[1..]);
      ReadUpdatesInverts(codec, fields[1..], values[1..], tail);
      if PresentBits(fields, values)[0] {
        ReadFieldInverts(codec, fields[0], values[0], rest + tail);
      }
      assert SettledUpdate(fields, values) == [SettledUpdate(fields, values)[0]] + SettledUpdate(fields[1..], values[1..]);
    }
  }

  lemma {:induction false} SpreadMaskedOnly(fields: seq<Field>, values: seq<Value>)
    requires |fields| == |values| && NullsAllowed(fields, values)
    ensures var spread := Spread(fields, MaskedOnly(fields, PresentBits(fields, values)));
            forall i | 0 <= i < |fields| :: spread[i] == (fields[i].IsChapter() || values[i].Present())
  {
    if fields != [] {
      SpreadMaskedOnly(fields[1..], values[1..]);
      assert PresentBits(fields, values)[1..] == PresentBits(fields[1..], values[1..]);
      var bits := MaskedOnly(fields, PresentBits(fields, values));
      if fields[0].Masked() {
        assert bits[1..] == MaskedOnly(fields[1..], PresentBits(fields[1..], values[1..]));
      } else {
        assert bits == MaskedOnly(fields[1..], PresentBits(fields[1..], values[1..]));
      }
    }
  }

  /** Chapter cells ignore their presence bit. */
  lemma {:induction false} PresenceOfChaptersIgnored(codec: ValueCodec, fields: seq<Field>, a: seq<bool>, b: seq<bool>, bytes: seq<byte>)
    requires |fields| == |a| == |b|
    requires forall i | 0 <= i < |fields| :: fields[i].IsChapter() || a[i] == b[i]
    ensures ReadValues(codec, fields, a, bytes) == ReadValues(codec, fields, b, bytes)
  {
    if fields != [] {
      var head := ReadOne(codec, fields[0], a[0], bytes);
      if head.Ok? {
        PresenceOfChaptersIgnored(codec, fields[1..], a[1..], b[1..], head.value.1);
      }
    }
  }

  lemma ReadMaskInverts(bits: seq<bool>, padOnes: bool, tail: seq<byte>)
    ensures ReadMask(Mask(bits, padOnes) + tail, |bits|) == Ok((Mask(bits, padOnes), tail))
  {
    var m := Mask(bits, padOnes);
    assert (m + tail)[..|m|] == m && (m + tail)[|m|..] == tail;
  }

  /** A current, original or deleted row is read back settled, and nothing of what follows
      it is consumed. */
  lemma CurrentRoundTrip(codec: ValueCodec, fields: seq<Field>, values: seq<Value>, tail: seq<byte>)
    requires CurrentBody(codec, fields, values).Ok? && AllRoundTrip(codec, fields, values)
    ensures ReadCurrent(codec, fields, CurrentBody(codec, fields, values).value + tail) == Ok((Settled(fields, values), tail))
  {
    var present := PresentBits(fields, values);
    var masked := MaskedOnly(fields, present);
    var body := EncodePresent(codec, fields, present, values).value;
    var bytes := CurrentBody(codec, fields, values).value + tail;
    var spread := Spread(fields, masked);
    if MaskedCount(fields) == 0 {
      assert masked == [];
      assert bytes == body + tail;
    } else {
      assert bytes == Mask(masked, true) + (body + tail);
      ReadMaskInverts(masked, true, body + tail);
      MaskRoundTrip(masked, true);
    }
    assert RowPresence(bytes, fields) == Ok((spread, body + tail));
    SpreadMaskedOnly(fields, values);
    PresenceOfChaptersIgnored(codec, fields, spread, present, body + tail);
    ReadValuesInverts(codec, fields, values, tail);
  }

  /** Whatever the two masks say, the reader takes them exactly when no column has both bits and only
      columns that may be null have the null bit or, in an inserted row, neither. */
  lemma MasksRead(fields: seq<Field>, present: seq<bool>, nulls: seq<bool>, required: bool, rest: seq<byte>)
    requires |fields| == |present| == |nulls|
    ensures ValueMasks(Mask(present, false) + Mask(nulls, false) + rest, fields, required)
            == if forall i | 0 <= i < |fields| ::
                    && (present[i] ==> !nulls[i])
                    && (nulls[i] || (required && !present[i]) ==> fields[i].nullable || fields[i].typeCode == 136)
               then Ok((present, nulls, rest)) else Err
  {
    var m, n := Mask(present, false), Mask(nulls, false);
    assert m + n + rest == m + (n + rest);
    ReadMaskInverts(present, false, n + rest);
    ReadMaskInverts(nulls, false, rest);
    MaskRoundTrip(present, false);
    MaskRoundTrip(nulls, false);
  }

  lemma ValueMasksInvert(fields: seq<Field>, values: seq<Value>, required: bool, rest: seq<byte>)
    requires |fields| == |values|
    requires if required then NullsAllowed(fields, values) else UpdateNullsAllowed(fields, values)
    ensures ValueMasks(Mask(PresentBits(fields, values), false) + Mask(NullBits(fields, values), false) + rest, fields, required)
            == Ok((PresentBits(fields, values), NullBits(fields, values), rest))
  {
    MasksRead(fields, PresentBits(fields, values), NullBits(fields, values), required, rest);
  }

  lemma InsertRoundTrip(codec: ValueCodec, fields: seq<Field>, values: seq<Value>, tail: seq<byte>)
    requires InsertBody(codec, fields, values).Ok? && AllRoundTrip(codec, fields, values)
    ensures ReadInsert(codec, fields, InsertBody(codec, fields, values).value + tail) == Ok((Settled(fields, values), tail))
  {
    var present, nulls := PresentBits(fields, values), NullBits(fields, values);
    var body := EncodePresent(codec, fields, present, values).value;
    assert InsertBody(codec, fields, values).value + tail == Mask(present, false) + Mask(nulls, false) + (body + tail);
    ValueMasksInvert(fields, values, true, body + tail);
    ReadValuesInverts(codec, fields, values, tail);
  }

  /** Pending values keep null and omitted apart. */
  lemma UpdateRoundTrip(codec: ValueCodec, fields: seq<Field>, values: seq<Value>, tail: seq<byte>)
    requires UpdateBody(codec, fields, values).Ok? && AllRoundTrip(codec, fields, values)
    ensures ReadUpdateValues(codec, fields, UpdateBody(codec, fields, values).value + tail) == Ok((SettledUpdate(fields, values), tail))
  {
    var present, nulls := PresentBits(fields, values), NullBits(fields, values);
    var body := EncodePresent(codec, fields, present, values).value;
    assert UpdateBody(codec, fields, values).value + tail == Mask(present, false) + Mask(nulls, false) + (body + tail);
    ValueMasksInvert(fields, values, false, body + tail);
    ReadUpdatesInverts(codec, fields, values, tail);
  }
}
