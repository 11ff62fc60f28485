/** The imperative flat writer and reader: an output buffer that grows, and a cursor that
    advances, each proved to compute the stream functions. */
module FlatMachine {
  import opened Prelude
  import opened Masks
  import opened RecordsetModel
  import opened RowGraph
  import opened RowCodec
  import opened FlatStream

  // ---------------------------------------------------------------- values in front-to-back order

  function EncodeOne(codec: ValueCodec, field: Field, present: bool, value: Value): Result<seq<byte>> {
    if present then codec.encode(field, value) else Ok([])
  }

  lemma {:induction false} EncodePresentSplit(codec: ValueCodec, fields: seq<Field>, present: seq<bool>, values: seq<Value>, i: nat)
    requires |fields| == |present| == |values| && i < |fields|
    ensures EncodePresent(codec, fields[..i + 1], present[..i + 1], values[..i + 1])
            == Then(EncodePresent(codec, fields[..i], present[..i], values[..i]), EncodeOne(codec, fields[i], present[i], values[i]))
  {
    var first := EncodeOne(codec, fields[0], present[0], values[0]);
    if i == 0 {
      assert fields[..1][1..] == [] && present[..1][1..] == [] && values[..1][1..] == [];
      assert EncodePresent(codec, fields[..1], present[..1], values[..1]) == Then(first, Ok([]));
      ThenUnit(first);
    } else {
      EncodePresentSplit(codec, fields[1..], present[1..], values[1..], i - 1);
      assert fields[..i + 1][1..] == fields[1..][..i] && fields[..i][1..] == fields[1..][..i - 1];
      assert present[..i + 1][1..] == present[1..][..i] && present[..i][1..] == present[1..][..i - 1];
      assert values[..i + 1][1..] == values[1..][..i] && values[..i][1..] == values[1..][..i - 1];
      ThenAssociative(first, EncodePresent(codec, fields[1..][..i - 1], present[1..][..i - 1], values[1..][..i - 1]),
                      EncodeOne(codec, fields[i], present[i], values[i]));
    }
  }

  /** A failure in a prefix is a failure of the whole. */
  lemma {:induction false} EncodePrefixOk(codec: ValueCodec, fields: seq<Field>, present: seq<bool>, values: seq<Value>, i: nat)
    requires |fields| == |present| == |values| && i <= |fields|
    requires EncodePresent(codec, fields, present, values).Ok?
    ensures EncodePresent(codec, fields[..i], present[..i], values[..i]).Ok?
    decreases |fields| - i
  {
    if i == |fields| {
      assert fields[..i] == fields && present[..i] == present && values[..i] == values;
    } else {
      EncodePrefixOk(codec, fields, present, values, i + 1);
      EncodePresentSplit(codec, fields, present, values, i);
    }
  }

  /** What the value loop has emitted after the first i columns. */
  function Emitted(codec: ValueCodec, fields: seq<Field>, values: seq<Value>, i: nat): Result<seq<byte>>
    requires |fields| == |values| && i <= |fields|
  {
    EncodePresent(codec, fields[..i], PresentBits(fields, values)[..i], values[..i])
  }

  /** No value missing so far where none may be; `pending` rows may omit values, others may only be
      null. */
  predicate AllowedSoFar(fields: seq<Field>, values: seq<Value>, pending: bool, i: nat)
    requires |fields| == |values| && i <= |fields|
  {
    forall k | 0 <= k < i :: values[k].Present() || fields[k].Masked() || (pending && values[k] == Unavailable)
  }

  lemma NextEmitted(codec: ValueCodec, fields: seq<Field>, values: seq<Value>, i: nat, before: seq<byte>)
    requires |fields| == |values| && i < |fields|
    ensures var one := EncodeOne(codec, fields[i], PresentBits(fields, values)[i], values[i]);
            && Then(Ok(before), Emitted(codec, fields, values, i + 1)) == Then(Then(Ok(before), Emitted(codec, fields, values, i)), one)
            && (one.Err? ==> EncodePresent(codec, fields, PresentBits(fields, values), values).Err?)
  {
    var present := PresentBits(fields, values);
    var one := EncodeOne(codec, fields[i], present[i], values[i]);
    EncodePresentSplit(codec, fields, present, values, i);
    ThenAssociative(Ok(before), Emitted(codec, fields, values, i), one);
    if EncodePresent(codec, fields, present, values).Ok? {
      EncodePrefixOk(codec, fields, present, values, i + 1);
    }
  }

  lemma NothingEmitted(codec: ValueCodec, fields: seq<Field>, values: seq<Value>, before: seq<byte>)
    requires |fields| == |values|
    ensures Then(Ok(before), Emitted(codec, fields, values, 0)) == Ok(before)
  {
    assert fields[..0] == [];
    ThenUnit(Ok(before));
  }

  /** At the end of the loop everything is emitted, and everything was allowed. */
  lemma AllEmitted(codec: ValueCodec, fields: seq<Field>, values: seq<Value>, pending: bool)
    requires |fields| == |values|
    ensures Emitted(codec, fields, values, |fields|) == EncodePresent(codec, fields, PresentBits(fields, values), values)
    ensures AllowedSoFar(fields, values, pending, |fields|) <==> if pending then UpdateNullsAllowed(fields, values) else NullsAllowed(fields, values)
  {
    var present := PresentBits(fields, values);
    assert fields[..|fields|] == fields && present[..|fields|] == present && values[..|fields|] == values;
  }

  // ---------------------------------------------------------------- the writer

  lemma PairParts(before: seq<byte>, body: seq<byte>, pending: seq<byte>)
    ensures before + ([CURRENT] + body) + [UPDATE] + pending == before + ([CURRENT] + body + [UPDATE] + pending)
  {
  }


  /** `out: &mut Vec<u8>` together with the schema it is written for. */
  class RowWriter {
    const codec: ValueCodec
    const fields: seq<Field>
    var out: seq<byte>

    constructor (codec: ValueCodec, fields: seq<Field>)
      ensures this.codec == codec && this.fields == fields && out == []
    {
      this.codec, this.fields, out := codec, fields, [];
    }

    /** The value loop; `pending` rows may omit values, others may only be null. */
    method WriteValues(values: seq<Value>, pending: bool) returns (ok: bool)
      requires |values| == |fields| && IsFlat(fields)
      modifies this
      ensures ok <==> (EncodePresent(codec, fields, PresentBits(fields, values), values).Ok?
                       && if pending then UpdateNullsAllowed(fields, values) else NullsAllowed(fields, values))
      ensures ok ==> out == old(out) + EncodePresent(codec, fields, PresentBits(fields, values), values).value
    {
      NothingEmitted(codec, fields, values, out);
      var i := 0;
      while i < |fields|
        invariant 0 <= i <= |fields| && AllowedSoFar(fields, values, pending, i)
        invariant Ok(out) == Then(Ok(old(out)), Emitted(codec, fields, values, i))
      {
        NextEmitted(codec, fields, values, i, old(out));
        if values[i].Present() {
          var text := codec.encode(fields[i], values[i]);
          if text.Err? {
            return false;
          }
          out := out + text.value;
        } else {
          ThenUnit(Ok(out));
          if (values[i] == Null || !pending) && !fields[i].nullable {
            AllEmitted(codec, fields, values, pending);
            return false;
          }
        }
        i := i + 1;
      }
      AllEmitted(codec, fields, values, pending);
      return true;
    }

    /** The null mask of a current or original row. */
    method WriteNullMask(values: seq<Value>)
      requires |values| == |fields| && IsFlat(fields)
      modifies this
      ensures var bits := MaskedOnly(fields, PresentBits(fields, values));
              out == old(out) + if MaskedCount(fields) == 0 then [] else Mask(bits, true)
    {
      var bits := [];
      for i := 0 to |fields|
        invariant out == old(out)
        invariant bits == MaskedOnly(fields[..i], PresentBits(fields, values)[..i])
      {
        MaskedOnlySnoc(fields, PresentBits(fields, values), i);
        if fields[i].nullable {
          bits := bits + [values[i].Present()];
        }
      }
      assert fields[..|fields|] == fields && PresentBits(fields, values)[..|fields|] == PresentBits(fields, values);
      assert |bits| == MaskedCount(fields);
      if bits != [] {
        var mask := MaskBytes(bits, true);
        out := out + mask;
      }
    }

    method WriteCurrentOrOriginalRow(values: seq<Value>) returns (ok: bool)
      requires |values| == |fields| && IsFlat(fields)
      modifies this
      ensures ok <==> CurrentBody(codec, fields, values).Ok?
      ensures ok ==> out == old(out) + ([CURRENT] + CurrentBody(codec, fields, values).value)
    {
      ghost var before := out;
      out := out + [CURRENT];
      ghost var marked := out;
      WriteNullMask(values);
      ok := WriteValues(values, false);
      if ok {
        ghost var present := PresentBits(fields, values);
        ghost var mask := if MaskedCount(fields) == 0 then [] else Mask(MaskedOnly(fields, present), true);
        Regrouped(marked, mask, EncodePresent(codec, fields, present, values).value);
        Regrouped(before, [CURRENT], CurrentBody(codec, fields, values).value);
      }
    }

    method WriteInsertRow(values: seq<Value>) returns (ok: bool)
      requires |values| == |fields| && IsFlat(fields)
      modifies this
      ensures ok <==> EncodeRow(codec, fields, Add(values)).Ok?
      ensures ok ==> out == old(out) + EncodeRow(codec, fields, Add(values)).value
    {
      ghost var before := out;
      out := out + [INSERT];
      ghost var marked := out;
      WriteMasks(values);
      if Unavailable in values {
        return false;
      }
      ok := WriteValues(values, false);
      if ok {
        ghost var masks := Mask(PresentBits(fields, values), false) + Mask(NullBits(fields, values), false);
        Regrouped(marked, masks, EncodePresent(codec, fields, PresentBits(fields, values), values).value);
        Regrouped(before, [INSERT], InsertBody(codec, fields, values).value);
      }
    }

    method WriteMasks(values: seq<Value>)
      requires |values| == |fields|
      modifies this
      ensures out == old(out) + (Mask(PresentBits(fields, values), false) + Mask(NullBits(fields, values), false))
    {
      var present := MaskBytes(PresentBits(fields, values), false);
      var nulls := MaskBytes(NullBits(fields, values), false);
      out := out + present;
      out := out + nulls;
    }

    method WriteUpdateValues(values: seq<Value>) returns (ok: bool)
      requires |values| == |fields| && IsFlat(fields)
      modifies this
      ensures ok <==> UpdateBody(codec, fields, values).Ok?
      ensures ok ==> out == old(out) + UpdateBody(codec, fields, values).value
    {
      ghost var before := out;
      WriteMasks(values);
      ok := WriteValues(values, true);
      if ok {
        ghost var masks := Mask(PresentBits(fields, values), false) + Mask(NullBits(fields, values), false);
        Regrouped(before, masks, EncodePresent(codec, fields, PresentBits(fields, values), values).value);
      }
    }

    /** A deleted row is a current row with a trailing marker. */
    method WriteDeletedRow(values: seq<Value>) returns (ok: bool)
      requires |values| == |fields| && IsFlat(fields)
      modifies this
      ensures ok <==> EncodeRow(codec, fields, Drop(values)).Ok?
      ensures ok ==> out == old(out) + EncodeRow(codec, fields, Drop(values)).value
    {
      ghost var before := out;
      ok := WriteCurrentOrOriginalRow(values);
      if ok {
        out := out + [DELETE];
        Regrouped(before, [CURRENT] + CurrentBody(codec, fields, values).value, [DELETE]);
      }
    }

    method WriteUpdatePair(values: seq<Value>, updated: seq<Value>) returns (ok: bool)
      requires |values| == |fields| == |updated| && IsFlat(fields)
      modifies this
      ensures ok <==> EncodeRow(codec, fields, Edit(values, updated)).Ok?
      ensures ok ==> out == old(out) + EncodeRow(codec, fields, Edit(values, updated)).value
    {
      ghost var before := out;
      ok := WriteCurrentOrOriginalRow(values);
      if ok {
        out := out + [UPDATE];
        ok := WriteUpdateValues(updated);
        if ok {
          PairParts(before, CurrentBody(codec, fields, values).value, UpdateBody(codec, fields, updated).value);
        }
      }
    }

    method WriteImage(image: RowImage) returns (ok: bool)
      requires Arity(image) && IsFlat(fields)
      modifies this
      ensures ok <==> EncodeRow(codec, fields, image).Ok?
      ensures ok ==> out == old(out) + EncodeRow(codec, fields, image).value
    {
      match image {
        case Add(values) => ok := WriteInsertRow(values);
        case Keep(values) => ok := WriteCurrentOrOriginalRow(values);
        case Drop(values) => ok := WriteDeletedRow(values);
        case Edit(values, updated) => ok := WriteUpdatePair(values, updated);
      }
    }

    predicate Arity(image: RowImage) {
      |image.values| == |fields| && (image.Edit? ==> |image.updated| == |fields|)
    }

    /** One change group: every row of it, or the original and updated row of an update. */
    method WriteChange(rs: Recordset, change: RowChange) returns (ok: bool)
      requires IsFlat(fields) && forall image | image in ChangeImages(rs, change) :: Arity(image)
      requires change.kind == Update ==> |change.rowIndices| == 2
      modifies this
      ensures ok <==> EncodeRows(codec, fields, ChangeImages(rs, change)).Ok?
      ensures ok ==> out == old(out) + EncodeRows(codec, fields, ChangeImages(rs, change)).value
    {
      ghost var images := ChangeImages(rs, change);
      var count := if change.kind == Update then 1 else |change.rowIndices|;
      ThenUnit(Ok(out));
      for k := 0 to count
        invariant Ok(out) == Then(Ok(old(out)), EncodeRows(codec, fields, images[..k]))
      {
        var image := if change.kind == Update
                     then Edit(ValuesAt(rs, change.rowIndices[0]), ValuesAt(rs, change.rowIndices[1]))
                     else ImageOf(change.kind, ValuesAt(rs, change.rowIndices[k]));
        assert image == images[k] && image in images;
        NextImage(codec, fields, images, k, old(out));
        var written := WriteImage(image);
        if !written {
          return false;
        }
      }
      assert images[..count] == images;
      return true;
    }

    /** `write_rows` */
    method WriteRows(rs: Recordset) returns (ok: bool)
      requires ShapeValid(fields, rs) && IsFlat(fields)
      modifies this
      ensures ok <==> EncodeRows(codec, fields, Images(rs)).Ok?
      ensures ok ==> out == old(out) + EncodeRows(codec, fields, Images(rs)).value
    {
      ThenUnit(Ok(out));
      for c := 0 to |rs.changes|
        invariant Ok(out) == Then(Ok(old(out)), EncodeRows(codec, fields, ImagesFrom(rs, rs.changes[..c])))
      {
        ChangeReady(fields, rs, c);
        NextChange(codec, fields, rs, c, old(out));
        var written := WriteChange(rs, rs.changes[c]);
        if !written {
          return false;
        }
      }
      assert rs.changes[..|rs.changes|] == rs.changes;
      return true;
    }
  }

  lemma ChangeReady(fields: seq<Field>, rs: Recordset, c: nat)
    requires ShapeValid(fields, rs) && c < |rs.changes|
    ensures rs.changes[c].kind == Update ==> |rs.changes[c].rowIndices| == 2
    ensures forall image | image in ChangeImages(rs, rs.changes[c]) :: ImageValid(fields, image)
  {
    assert ChangeLinked(rs, c);
    assert |StatesOf(rs, rs.changes[c].rowIndices)| == |rs.changes[c].rowIndices|;
    OneChangeValid(fields, rs, c);
  }

  /** Writing one more image extends the output, and failing on it fails the whole list. */
  lemma NextImage(codec: ValueCodec, fields: seq<Field>, images: seq<RowImage>, k: nat, before: seq<byte>)
    requires k < |images|
    ensures Then(Ok(before), EncodeRows(codec, fields, images[..k + 1]))
            == Then(Then(Ok(before), EncodeRows(codec, fields, images[..k])), EncodeRow(codec, fields, images[k]))
    ensures EncodeRow(codec, fields, images[k]).Err? ==> EncodeRows(codec, fields, images).Err?
  {
    assert images[..k + 1] == images[..k] + [images[k]] && images == images[..k + 1] + images[k + 1..];
    EncodeRowsSnoc(codec, fields, images[..k], images[k]);
    EncodeRowsPrefix(codec, fields, images[..k + 1], images[k + 1..]);
    ThenAssociative(Ok(before), EncodeRows(codec, fields, images[..k]), EncodeRow(codec, fields, images[k]));
  }

  lemma NextChange(codec: ValueCodec, fields: seq<Field>, rs: Recordset, c: nat, before: seq<byte>)
    requires c < |rs.changes|
    ensures Then(Ok(before), EncodeRows(codec, fields, ImagesFrom(rs, rs.changes[..c + 1])))
            == Then(Then(Ok(before), EncodeRows(codec, fields, ImagesFrom(rs, rs.changes[..c]))), EncodeRows(codec, fields, ChangeImages(rs, rs.changes[c])))
    ensures EncodeRows(codec, fields, ChangeImages(rs, rs.changes[c])).Err? ==> EncodeRows(codec, fields, Images(rs)).Err?
  {
    var done, head := ImagesFrom(rs, rs.changes[..c]), ChangeImages(rs, rs.changes[c]);
    SplitAtChange(rs, c);
    EncodeRowsAppend(codec, fields, done, head);
    EncodeRowsPrefix(codec, fields, done + head, ImagesFrom(rs, rs.changes[c + 1..]));
    ThenAssociative(Ok(before), EncodeRows(codec, fields, done), EncodeRows(codec, fields, head));
  }

  lemma SplitAtChange(rs: Recordset, c: nat)
    requires c < |rs.changes|
    ensures ImagesFrom(rs, rs.changes[..c + 1]) == ImagesFrom(rs, rs.changes[..c]) + ChangeImages(rs, rs.changes[c])
    ensures Images(rs) == ImagesFrom(rs, rs.changes[..c]) + ChangeImages(rs, rs.changes[c]) + ImagesFrom(rs, rs.changes[c + 1..])
  {
    var one := [rs.changes[c]];
    assert rs.changes[..c + 1] == rs.changes[..c] + one && rs.changes == rs.changes[..c + 1] + rs.changes[c + 1..];
    ImagesFromAppend(rs, rs.changes[..c], one);
    ImagesFromAppend(rs, rs.changes[..c + 1], rs.changes[c + 1..]);
    assert ImagesFrom(rs, one) == ChangeImages(rs, rs.changes[c]) + ImagesFrom(rs, []);
  }

  lemma {:induction false} EncodeRowsAppend(codec: ValueCodec, fields: seq<Field>, a: seq<RowImage>, b: seq<RowImage>)
    ensures EncodeRows(codec, fields, a + b) == Then(EncodeRows(codec, fields, a), EncodeRows(codec, fields, b))
  {
    if a == [] {
      assert a + b == b;
      ThenUnit(EncodeRows(codec, fields, b));
    } else {
      assert (a + b)[1..] == a[1..] + b;
      EncodeRowsAppend(codec, fields, a[1..], b);
      ThenAssociative(EncodeRow(codec, fields, a[0]), EncodeRows(codec, fields, a[1..]), EncodeRows(codec, fields, b));
    }
  }

  lemma OneChangeValid(fields: seq<Field>, rs: Recordset, c: nat)
    requires ShapeValid(fields, rs) && c < |rs.changes|
    ensures forall image | image in ChangeImages(rs, rs.changes[c]) :: ImageValid(fields, image)
  {
    ShapeGivesImages(fields, rs, c);
    var all, head := ImagesFrom(rs, rs.changes[c..]), ChangeImages(rs, rs.changes[c]);
    forall k | 0 <= k < |head| ensures ImageValid(fields, head[k]) {
      assert head[k] == all[k];
    }
  }

  lemma {:induction false} MaskedOnlySnoc(fields: seq<Field>, bits: seq<bool>, i: nat)
    requires |fields| == |bits| && i < |fields|
    ensures MaskedOnly(fields[..i + 1], bits[..i + 1]) == MaskedOnly(fields[..i], bits[..i]) + if fields[i].Masked() then [bits[i]] else []
  {
    if i == 0 {
      assert fields[..1][1..] == [] && bits[..1][1..] == [];
    } else {
      MaskedOnlySnoc(fields[1..], bits[1..], i - 1);
      assert fields[..i + 1][1..] == fields[1..][..i] && fields[..i][1..] == fields[1..][..i - 1];
      assert bits[..i + 1][1..] == bits[1..][..i] && bits[..i][1..] == bits[1..][..i - 1];
    }
  }

  lemma {:induction false} EncodeRowsSnoc(codec: ValueCodec, fields: seq<Field>, images: seq<RowImage>, image: RowImage)
    ensures EncodeRows(codec, fields, images + [image])
            == Then(EncodeRows(codec, fields, images), EncodeRow(codec, fields, image))
  {
    if images == [] {
      assert images + [image] == [image] && [image][1..] == [];
      assert EncodeRows(codec, fields, [image]) == Then(EncodeRow(codec, fields, image), Ok([]));
      ThenUnit(EncodeRow(codec, fields, image));
    } else {
      assert (images + [image])[1..] == images[1..] + [image];
      EncodeRowsSnoc(codec, fields, images[1..], image);
      ThenAssociative(EncodeRow(codec, fields, images[0]), EncodeRows(codec, fields, images[1..]), EncodeRow(codec, fields, image));
    }
  }

  lemma {:induction false} EncodeRowsPrefix(codec: ValueCodec, fields: seq<Field>, a: seq<RowImage>, b: seq<RowImage>)
    ensures EncodeRows(codec, fields, a + b).Ok? ==> EncodeRows(codec, fields, a).Ok?
  {
    if a != [] {
      assert (a + b)[1..] == a[1..] + b;
      EncodeRowsPrefix(codec, fields, a[1..], b);
    }
  }

  // ---------------------------------------------------------------- the reader

  /** The next column's presence, and how far it moves in the mask bits. */
  lemma SpreadOne(fields: seq<Field>, bits: seq<bool>, i: nat, at: nat)
    requires i < |fields| && at <= |bits| && |bits| - at == MaskedCount(fields[i..])
    ensures fields[i].Masked() ==>
              && at < |bits| && |bits| - (at + 1) == MaskedCount(fields[i + 1..])
              && Spread(fields[i..], bits[at..]) == [fields[i].IsChapter() || bits[at]] + Spread(fields[i + 1..], bits[at + 1..])
    ensures !fields[i].Masked() ==>
              && |bits| - at == MaskedCount(fields[i + 1..])
              && Spread(fields[i..], bits[at..]) == [true] + Spread(fields[i + 1..], bits[at..])
  {
    assert fields[i..][1..] == fields[i + 1..];
    if fields[i].Masked() {
      assert bits[at..][1..] == bits[at + 1..];
    }
  }


  /** `bytes` with the cursor `offset: &mut usize`. */
  class RowReader {
    const codec: ValueCodec
    const fields: seq<Field>
    const bytes: seq<byte>
    var offset: nat

    constructor (codec: ValueCodec, fields: seq<Field>, bytes: seq<byte>)
      ensures this.codec == codec && this.fields == fields && this.bytes == bytes && offset == 0
    {
      this.codec, this.fields, this.bytes, offset := codec, fields, bytes, 0;
    }

    ghost predicate Valid()
      reads this
    {
      offset <= |bytes|
    }

    function Rest(): seq<byte>
      requires offset <= |bytes|
      reads this
    {
      bytes[offset..]
    }

    method TakeMask(count: nat) returns (r: Result<seq<byte>>)
      requires Valid()
      modifies this
      ensures Valid()
      ensures r.Ok? <==> ReadMask(old(Rest()), count).Ok?
      ensures r.Ok? ==> ReadMask(old(Rest()), count).value == (r.value, Rest())
    {
      var end := offset + MaskLength(count);
      if end > |bytes| {
        return Err;
      }
      r := Ok(bytes[offset..end]);
      assert bytes[offset..][..MaskLength(count)] == bytes[offset..end];
      assert bytes[offset..][MaskLength(count)..] == bytes[end..];
      offset := end;
    }

    /** Presence of every column from the mask bits of the masked ones. */
    method SpreadBits(bits: seq<bool>) returns (present: seq<bool>)
      requires |bits| == MaskedCount(fields)
      ensures present == Spread(fields, bits)
    {
      var at := 0;
      present := [];
      for i := 0 to |fields|
        invariant |present| == i && at <= |bits| && |bits| - at == MaskedCount(fields[i..])
        invariant Spread(fields, bits) == present + Spread(fields[i..], bits[at..])
      {
        SpreadOne(fields, bits, i, at);
        ghost var before := present;
        if fields[i].Masked() {
          present := present + [fields[i].IsChapter() || bits[at]];
          at := at + 1;
        } else {
          present := present + [true];
        }
        Regrouped(before, [present[i]], Spread(fields[i + 1..], bits[at..]));
      }
    }

    method TakePresence() returns (r: Result<seq<bool>>)
      requires Valid()
      modifies this
      ensures Valid()
      ensures r.Ok? <==> RowPresence(old(Rest()), fields).Ok?
      ensures r.Ok? ==> RowPresence(old(Rest()), fields).value == (r.value, Rest())
    {
      var count := MaskedCount(fields);
      if count == 0 {
        return Ok(Spread(fields, []));
      }
      var mask := TakeMask(count);
      if mask.Err? || !PaddingOk(mask.value, count, true) {
        return Err;
      }
      var present := SpreadBits(Bits(mask.value, count));
      r := Ok(present);
    }

    method TakeValueMasks(required: bool) returns (r: Result<(seq<bool>, seq<bool>)>)
      requires Valid()
      modifies this
      ensures Valid()
      ensures r.Ok? <==> ValueMasks(old(Rest()), fields, required).Ok?
      ensures r.Ok? ==> ValueMasks(old(Rest()), fields, required).value == (r.value.0, r.value.1, Rest())
    {
      var nonNull := TakeMask(|fields|);
      if nonNull.Err? {
        return Err;
      }
      var nulls := TakeMask(|fields|);
      if nulls.Err? || !PaddingOk(nonNull.value, |fields|, false) || !PaddingOk(nulls.value, |fields|, false) {
        return Err;
      }
      var a, b := Bits(nonNull.value, |fields|), Bits(nulls.value, |fields|);
      if !MasksConsistent(fields, a, b, required) {
        return Err;
      }
      r := Ok((a, b));
    }

    method TakeField(field: Field) returns (r: Result<Value>)
      requires Valid()
      modifies this
      ensures Valid()
      ensures r.Ok? <==> ReadField(codec, field, old(Rest())).Ok?
      ensures r.Ok? ==> ReadField(codec, field, old(Rest())).value == (r.value, Rest())
    {
      if field.IsChapter() {
        return Err;
      }
      var got := codec.decode(field, Rest());
      if got.Err? || offset + got.value.1 > |bytes| {
        return Err;
      }
      assert bytes[offset..][got.value.1..] == bytes[offset + got.value.1..];
      offset := offset + got.value.1;
      r := Ok(got.value.0);
    }

    method TakeValues(present: seq<bool>) returns (r: Result<seq<Value>>)
      requires Valid() && |present| == |fields|
      modifies this
      ensures Valid()
      ensures r.Ok? <==> ReadValues(codec, fields, present, old(Rest())).Ok?
      ensures r.Ok? ==> ReadValues(codec, fields, present, old(Rest())).value == (r.value, Rest())
    {
      var values := [];
      ghost var goal := ReadValues(codec, fields, present, Rest());
      assert fields[0..] == fields && present[0..] == present;
      PrependNothing([], goal);
      for i := 0 to |fields|
        invariant Valid() && |values| == i
        invariant goal == Prepend(values, ReadValues(codec, fields[i..], present[i..], Rest()))
      {
        ghost var from, was := Rest(), values;
        assert fields[i..][1..] == fields[i + 1..] && present[i..][1..] == present[i + 1..];
        if fields[i].IsChapter() {
          values := values + [Chapter(EmptyRecordset)];
        } else if !present[i] {
          values := values + [Null];
        } else {
          var got := TakeField(fields[i]);
          if got.Err? {
            return Err;
          }
          values := values + [got.value];
        }
        assert ReadValues(codec, fields[i..], present[i..], from) == Prepend([values[i]], ReadValues(codec, fields[i + 1..], present[i + 1..], Rest()));
        PrependOne(was, values[i], ReadValues(codec, fields[i + 1..], present[i + 1..], Rest()));
      }
      assert fields[|fields|..] == [];
      PrependNothing(values, Ok(([], Rest())));
      r := Ok(values);
    }

    method TakeUpdate(field: Field, nonNull: bool, isNull: bool) returns (r: Result<Value>)
      requires Valid()
      modifies this
      ensures Valid()
      ensures r.Ok? <==> ReadUpdate(codec, field, nonNull, isNull, old(Rest())).Ok?
      ensures r.Ok? ==> ReadUpdate(codec, field, nonNull, isNull, old(Rest())).value == (r.value, Rest())
    {
      if nonNull {
        r := TakeField(field);
      } else {
        r := Ok(if isNull then Null else Unavailable);
      }
    }

    /** The value loop of a pending row, overwriting one omitted cell after another. */
    method TakeUpdates(nonNull: seq<bool>, nulls: seq<bool>) returns (r: Result<seq<Value>>)
      requires Valid() && |nonNull| == |nulls| == |fields|
      modifies this
      ensures Valid()
      ensures r.Ok? <==> ReadUpdates(codec, fields, nonNull, nulls, old(Rest())).Ok?
      ensures r.Ok? ==> ReadUpdates(codec, fields, nonNull, nulls, old(Rest())).value == (r.value, Rest())
    {
      var values := seq(|fields|, _ => Unavailable);
      ghost var goal := ReadUpdates(codec, fields, nonNull, nulls, Rest());
      assert fields[0..] == fields && nonNull[0..] == nonNull && nulls[0..] == nulls;
      PrependNothing([], goal);
      for i := 0 to |fields|
        invariant Valid() && |values| == |fields|
        invariant goal == Prepend(values[..i], ReadUpdates(codec, fields[i..], nonNull[i..], nulls[i..], Rest()))
      {
        ghost var from, was := Rest(), values[..i];
        assert fields[i..][1..] == fields[i + 1..] && nonNull[i..][1..] == nonNull[i + 1..] && nulls[i..][1..] == nulls[i + 1..];
        var got := TakeUpdate(fields[i], nonNull[i], nulls[i]);
        if got.Err? {
          return Err;
        }
        values := values[i := got.value];
        assert values[..i + 1] == was + [got.value];
        ghost var later := ReadUpdates(codec, fields[i + 1..], nonNull[i + 1..], nulls[i + 1..], Rest());
        assert ReadUpdates(codec, fields[i..], nonNull[i..], nulls[i..], from) == Prepend([got.value], later);
        PrependOne(was, got.value, later);
      }
      assert values[..|fields|] == values && fields[|fields|..] == [];
      PrependNothing(values, Ok(([], Rest())));
      r := Ok(values);
    }

    method TakeUpdateValues() returns (r: Result<seq<Value>>)
      requires Valid()
      modifies this
      ensures Valid()
      ensures r.Ok? <==> ReadUpdateValues(codec, fields, old(Rest())).Ok?
      ensures r.Ok? ==> ReadUpdateValues(codec, fields, old(Rest())).value == (r.value, Rest())
    {
      var masks := TakeValueMasks(false);
      if masks.Err? {
        return Err;
      }
      r := TakeUpdates(masks.value.0, masks.value.1);
    }

    /** Whether the next byte is this marker. */
    predicate At(marker: byte)
      requires Valid()
      reads this
    {
      offset < |bytes| && bytes[offset] == marker
    }

    method Advance()
      requires Valid() && offset < |bytes|
      modifies this`offset
      ensures Valid() && Rest() == old(Rest())[1..] && offset == old(offset) + 1
    {
      offset := offset + 1;
      assert bytes[offset - 1..][1..] == bytes[offset..];
    }

    /** What follows the values of a current or original row. */
    method TakeFinish(values: seq<Value>) returns (r: Result<RowImage>)
      requires Valid()
      modifies this
      ensures Valid()
      ensures r.Ok? <==> FinishCurrent(codec, fields, values, old(Rest())).Ok?
      ensures r.Ok? ==> FinishCurrent(codec, fields, values, old(Rest())).value == (r.value, Rest())
    {
      if At(DELETE) {
        Advance();
        r := Ok(Drop(values));
      } else if At(UPDATE) {
        Advance();
        var updated := TakeUpdateValues();
        if updated.Err? {
          return Err;
        }
        r := Ok(Edit(values, updated.value));
      } else {
        if At(INSERT) {
          Advance();
        }
        r := Ok(Keep(values));
      }
    }

    method TakeCurrentRow() returns (r: Result<RowImage>)
      requires Valid() && At(CURRENT)
      modifies this
      ensures Valid()
      ensures r.Ok? <==> StepFlat(codec, fields, old(Rest())).Ok?
      ensures r.Ok? ==> StepFlat(codec, fields, old(Rest())).value == (r.value, Rest())
    {
      Advance();
      var present := TakePresence();
      if present.Err? {
        return Err;
      }
      var values := TakeValues(present.value);
      if values.Err? {
        return Err;
      }
      r := TakeFinish(values.value);
    }

    method TakeInsertRow() returns (r: Result<RowImage>)
      requires Valid() && offset < |bytes| && !At(CURRENT)
      modifies this
      ensures Valid()
      ensures r.Ok? <==> StepFlat(codec, fields, old(Rest())).Ok?
      ensures r.Ok? ==> StepFlat(codec, fields, old(Rest())).value == (r.value, Rest())
    {
      if At(INSERT) {
        Advance();
      }
      var masks := TakeValueMasks(true);
      if masks.Err? {
        return Err;
      }
      var values := TakeValues(masks.value.0);
      if values.Err? {
        return Err;
      }
      assert Rest() == [END] <==> offset + 1 == |bytes| && At(END);
      if offset + 1 == |bytes| && At(END) {
        Advance();
      }
      r := Ok(Add(values.value));
    }

    /** The body of the parse loop. */
    method TakeRow() returns (r: Result<RowImage>)
      requires Valid() && offset < |bytes|
      modifies this
      ensures Valid()
      ensures r.Ok? <==> StepFlat(codec, fields, old(Rest())).Ok?
      ensures r.Ok? ==> StepFlat(codec, fields, old(Rest())).value == (r.value, Rest())
    {
      if At(CURRENT) {
        r := TakeCurrentRow();
      } else {
        r := TakeInsertRow();
      }
    }

    /** `parse_adtg_bytes_with_options` from the first row byte: the loop, the end check, and
        the graph built by pushing each row as it is read. */
    method ParseRows() returns (r: Result<Recordset>)
      requires offset == 0
      modifies this
      ensures r == match ParseFlat(codec, fields, bytes) case Err => Err case Ok(images) => Ok(ToGraph(images))
      ensures r.Ok? ==> GraphValid(r.value)
    {
      var rs := EmptyRecordset;
      ghost var images: seq<RowImage> := [];
      assert bytes[0..] == bytes;
      ThenUnit(ParseFlat(codec, fields, bytes));
      while offset < |bytes| && bytes[offset] != END
        invariant Valid() && rs == ToGraph(images)
        invariant ParseFlat(codec, fields, bytes) == Then(Ok(images), ParseFlat(codec, fields, Rest()))
        decreases |bytes| - offset
      {
        ghost var before := Rest();
        var row := TakeRow();
        if row.Err? {
          return Err;
        }
        rs := Push(rs, row.value);
        ToGraphSnoc(images, row.value);
        assert ParseFlat(codec, fields, before) == Then(Ok([row.value]), ParseFlat(codec, fields, Rest()));
        ThenAssociative(Ok(images), Ok([row.value]), ParseFlat(codec, fields, Rest()));
        images := images + [row.value];
      }
      if offset != |bytes| && offset + 1 != |bytes| {
        assert Rest() != [END];
        return Err;
      }
      assert Rest() == [] || Rest() == [END];
      GraphRoundTrip(images);
      assert images + [] == images;
      r := Ok(rs);
    }
  }
}
