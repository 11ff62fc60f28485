/** The flat ADTG row stream: row markers, masks, values, and the 0x0f terminator. */
module FlatStream {
  import opened Prelude
  import opened Masks
  import opened RecordsetModel
  import opened RowCodec

  predicate IsFlat(fields: seq<Field>) {
    fields != [] && forall i | 0 <= i < |fields| :: !fields[i].IsChapter()
  }

  // ---------------------------------------------------------------- writing

  function EncodeRow(codec: ValueCodec, fields: seq<Field>, image: RowImage): (r: Result<seq<byte>>)
    ensures r.Ok? ==> |r.value| > 0
  {
    match image
    case Keep(values) =>
      var body :- CurrentBody(codec, fields, values);
      Ok([CURRENT] + body)
    case Add(values) =>
      if Unavailable in values then Err
      else
        var body :- InsertBody(codec, fields, values);
        Ok([INSERT] + body)
    case Drop(values) =>
      var body :- CurrentBody(codec, fields, values);
      Ok([CURRENT] + body + [DELETE])
    case Edit(values, updated) =>
      var body :- CurrentBody(codec, fields, values);
      var pending :- UpdateBody(codec, fields, updated);
      Ok([CURRENT] + body + [UPDATE] + pending)
  }

  function EncodeRows(codec: ValueCodec, fields: seq<Field>, images: seq<RowImage>): Result<seq<byte>> {
    if images == [] then Ok([])
    else
      var head :- EncodeRow(codec, fields, images[0]);
      var tail :- EncodeRows(codec, fields, images[1..]);
      Ok(head + tail)
  }

  /** `write_adtg_with_options` for a Recordset without chapters, from the first row byte. */
  function WriteFlat(codec: ValueCodec, fields: seq<Field>, rs: Recordset): Result<seq<byte>> {
    if !IsFlat(fields) || !ShapeValid(fields, rs) then Err
    else
      var rows :- EncodeRows(codec, fields, Images(rs));
      Ok(rows + [END])
  }

  // ---------------------------------------------------------------- reading

  /** What follows the values of a row that began with the current marker. */
  function FinishCurrent(codec: ValueCodec, fields: seq<Field>, values: seq<Value>, bytes: seq<byte>): (r: Result<(RowImage, seq<byte>)>)
    ensures r.Ok? ==> |r.value.1| <= |bytes| && !r.value.0.Add?
  {
    if bytes != [] && bytes[0] == DELETE then Ok((Drop(values), bytes[1..]))
    else if bytes != [] && bytes[0] == UPDATE then
      var pending :- ReadUpdateValues(codec, fields, bytes[1..]);
      Ok((Edit(values, pending.0), pending.1))
    else if bytes != [] && bytes[0] == INSERT then Ok((Keep(values), bytes[1..]))
    else Ok((Keep(values), bytes))
  }

  /** One turn of the parse loop. */
  function StepFlat(codec: ValueCodec, fields: seq<Field>, bytes: seq<byte>): (r: Result<(RowImage, seq<byte>)>)
    requires bytes != []
    ensures r.Ok? ==> |r.value.1| < |bytes|
    ensures r.Ok? ==> (r.value.0.Add? <==> bytes[0] != CURRENT)
  {
    if bytes[0] == CURRENT then
      var row :- ReadCurrent(codec, fields, bytes[1..]);
      FinishCurrent(codec, fields, row.0, row.1)
    else
      var row :- ReadInsert(codec, fields, if bytes[0] == INSERT then bytes[1..] else bytes);
      Ok((Add(row.0), if row.1 == [END] then [] else row.1))
  }

  /** The parse loop and `validate_flat_adtg_end`. */
  function ParseFlat(codec: ValueCodec, fields: seq<Field>, bytes: seq<byte>): Result<seq<RowImage>>
    decreases |bytes|
  {
    if bytes == [] then Ok([])
    else if bytes[0] == END then if bytes == [END] then Ok([]) else Err
    else
      var step :- StepFlat(codec, fields, bytes);
      var rest :- ParseFlat(codec, fields, step.1);
      Ok([step.0] + rest)
  }

  // ---------------------------------------------------------------- the marker hazard

  /** The insert's first mask byte reads as a marker: 0x07, 0x0d or 0x0f. Only an insert
      with nothing in its first four columns can have such a byte. */
  predicate LooksLikeMarker(values: seq<Value>) {
    && |values| >= 8
    && !values[0].Present() && !values[1].Present() && !values[2].Present() && !values[3].Present()
    && values[5].Present() && values[7].Present()
    && (values[4].Present() || values[6].Present())
  }

  /** After a current row the reader swallows the 0x0d of a following insert, so the insert
      is then recognised by its first mask byte. */
  predicate Hazard(images: seq<RowImage>) {
    exists i :: 0 <= i < |images| - 1 && images[i].Keep? && images[i + 1].Add? && LooksLikeMarker(images[i + 1].values)
  }

  function One(present: bool): nat {
    if present then 1 else 0
  }

  lemma {:induction false} FirstTwo(bits: seq<bool>)
    requires |bits| >= 2
    ensures ValueOf(bits[..2]) == 2 * One(bits[0]) + One(bits[1])
  {
    assert bits[..2][..1] == bits[..1] && bits[..1][..0] == [];
    assert ValueOf(bits[..1]) == One(bits[0]);
  }

  lemma {:induction false} OneMore(bits: seq<bool>, k: nat)
    requires k < |bits|
    ensures ValueOf(bits[..k + 1]) == 2 * ValueOf(bits[..k]) + One(bits[k])
  {
    assert bits[..k + 1][..k] == bits[..k];
  }

  lemma {:induction false} ValueOfFive(bits: seq<bool>)
    requires |bits| >= 5
    ensures ValueOf(bits[..5]) == 16 * One(bits[0]) + 8 * One(bits[1]) + 4 * One(bits[2]) + 2 * One(bits[3]) + One(bits[4])
  {
    FirstTwo(bits);
    OneMore(bits, 2);
    OneMore(bits, 3);
    OneMore(bits, 4);
  }

  lemma {:induction false} ValueOfEight(bits: seq<bool>)
    requires |bits| == 8
    ensures ValueOf(bits) == 128 * One(bits[0]) + 64 * One(bits[1]) + 32 * One(bits[2]) + 16 * One(bits[3])
                           + 8 * One(bits[4]) + 4 * One(bits[5]) + 2 * One(bits[6]) + One(bits[7])
  {
    ValueOfFive(bits);
    OneMore(bits, 5);
    OneMore(bits, 6);
    OneMore(bits, 7);
    assert bits[..8] == bits;
  }

  /** Which of the 256 patterns of eight bits are the bytes 0x07, 0x0d and 0x0f. */
  lemma MarkerPatterns(a: bool, b: bool, c: bool, d: bool, e: bool, f: bool, g: bool, h: bool)
    ensures 128 * One(a) + 64 * One(b) + 32 * One(c) + 16 * One(d) + 8 * One(e) + 4 * One(f) + 2 * One(g) + One(h)
            in {0x07, 0x0d, 0x0f}
            <==> !a && !b && !c && !d && f && h && (e || g)
  {
  }

  lemma FirstMaskByte(present: seq<bool>)
    ensures Mask(present, false)[0] == ValueOf(Padded(present, false)[0..8])
    ensures forall k | 0 <= k < 8 :: Padded(present, false)[0..8][k] == (k < |present| && present[k])
  {
  }

  lemma MarkerLookalike(fields: seq<Field>, values: seq<Value>)
    requires IsFlat(fields) && |fields| == |values|
    ensures Mask(PresentBits(fields, values), false)[0] in {CURRENT, INSERT, END} <==> LooksLikeMarker(values)
  {
    var present := PresentBits(fields, values);
    var chunk := Padded(present, false)[0..8];
    FirstMaskByte(present);
    ValueOfEight(chunk);
    MarkerPatterns(chunk[0], chunk[1], chunk[2], chunk[3], chunk[4], chunk[5], chunk[6], chunk[7]);
    assert forall k | 0 <= k < 8 :: chunk[k] == (k < |values| && values[k].Present());
  }

  /** The bytes the reader still has in front of it: if it swallowed the insert marker along
      with the current row before, one byte fewer. */
  function Remaining(codec: ValueCodec, fields: seq<Field>, images: seq<RowImage>, swallowed: bool): seq<byte>
    requires EncodeRows(codec, fields, images).Ok?
    requires swallowed ==> images != []
  {
    (EncodeRows(codec, fields, images).value + [END])[if swallowed then 1 else 0..]
  }

  ghost predicate RowReadable(codec: ValueCodec, fields: seq<Field>, image: RowImage) {
    && IsFlat(fields)
    && ImageValid(fields, image)
    && EncodeRow(codec, fields, image).Ok?
    && AllRoundTrip(codec, fields, image.values)
    && (image.Edit? ==> AllRoundTrip(codec, fields, image.updated))
  }

  ghost predicate Readable(codec: ValueCodec, fields: seq<Field>, images: seq<RowImage>) {
    && EncodeRows(codec, fields, images).Ok?
    && forall i | 0 <= i < |images| :: RowReadable(codec, fields, images[i])
  }

  lemma SettledFlat(fields: seq<Field>, image: RowImage)
    requires IsFlat(fields) && ImageValid(fields, image)
    ensures Settled(fields, image.values) == image.values
    ensures image.Edit? ==> SettledUpdate(fields, image.updated) == image.updated
  {
  }

  /** Whether the reader takes the next insert's marker together with this row. */
  predicate Swallows(images: seq<RowImage>) {
    |images| >= 2 && images[0].Keep? && images[1].Add?
  }

  /** What the loop leaves after reading `image` in front of `tail`. */
  function After(image: RowImage, tail: seq<byte>): seq<byte>
    requires tail != []
  {
    if image.Keep? && tail[0] == INSERT then tail[1..]
    else if image.Add? && tail == [END] then []
    else tail
  }

  predicate StartsRow(tail: seq<byte>) {
    tail != [] && (tail[0] == CURRENT || tail[0] == INSERT || tail[0] == END)
  }

  /** The bytes a row of each kind has behind its current or original values. */
  function Suffix(codec: ValueCodec, fields: seq<Field>, image: RowImage): seq<byte>
    requires EncodeRow(codec, fields, image).Ok?
  {
    match image
    case Drop(_) => [DELETE]
    case Edit(_, updated) => [UPDATE] + UpdateBody(codec, fields, updated).value
    case _ => []
  }

  lemma CurrentParts(codec: ValueCodec, fields: seq<Field>, image: RowImage, tail: seq<byte>)
    requires EncodeRow(codec, fields, image).Ok? && !image.Add?
    ensures CurrentBody(codec, fields, image.values).Ok?
    ensures EncodeRow(codec, fields, image).value + tail
            == [CURRENT] + (CurrentBody(codec, fields, image.values).value + (Suffix(codec, fields, image) + tail))
  {
  }

  lemma CurrentStep(codec: ValueCodec, fields: seq<Field>, values: seq<Value>, behind: seq<byte>)
    requires CurrentBody(codec, fields, values).Ok? && AllRoundTrip(codec, fields, values) && Settled(fields, values) == values
    ensures StepFlat(codec, fields, [CURRENT] + (CurrentBody(codec, fields, values).value + behind))
            == FinishCurrent(codec, fields, values, behind)
  {
    var rest := CurrentBody(codec, fields, values).value + behind;
    assert ([CURRENT] + rest)[1..] == rest;
    CurrentRoundTrip(codec, fields, values, behind);
  }

  lemma StepReadsCurrent(codec: ValueCodec, fields: seq<Field>, image: RowImage, tail: seq<byte>)
    requires RowReadable(codec, fields, image) && StartsRow(tail) && !image.Add?
    ensures StepFlat(codec, fields, EncodeRow(codec, fields, image).value + tail) == Ok((image, After(image, tail)))
  {
    CurrentParts(codec, fields, image, tail);
    SettledFlat(fields, image);
    CurrentStep(codec, fields, image.values, Suffix(codec, fields, image) + tail);
    FinishReadsSuffix(codec, fields, image, tail);
  }

  lemma FinishReadsSuffix(codec: ValueCodec, fields: seq<Field>, image: RowImage, tail: seq<byte>)
    requires RowReadable(codec, fields, image) && StartsRow(tail) && !image.Add?
    ensures FinishCurrent(codec, fields, image.values, Suffix(codec, fields, image) + tail) == Ok((image, After(image, tail)))
  {
    var bytes := Suffix(codec, fields, image) + tail;
    match image
    case Keep(_) =>
      assert bytes == tail;
    case Drop(_) =>
      assert bytes[1..] == tail;
    case Edit(values, updated) =>
      SettledFlat(fields, image);
      FinishReadsUpdate(codec, fields, values, updated, tail);
  }

  lemma FinishReadsUpdate(codec: ValueCodec, fields: seq<Field>, values: seq<Value>, updated: seq<Value>, tail: seq<byte>)
    requires UpdateBody(codec, fields, updated).Ok? && AllRoundTrip(codec, fields, updated)
    requires SettledUpdate(fields, updated) == updated
    ensures FinishCurrent(codec, fields, values, [UPDATE] + UpdateBody(codec, fields, updated).value + tail)
            == Ok((Edit(values, updated), tail))
  {
    var body := UpdateBody(codec, fields, updated).value;
    UpdateRoundTrip(codec, fields, updated, tail);
    Regrouped([UPDATE], body, tail);
    FinishUpdateAt(codec, fields, values, updated, body + tail, tail);
  }

  lemma FinishUpdateAt(codec: ValueCodec, fields: seq<Field>, values: seq<Value>, updated: seq<Value>, behind: seq<byte>, tail: seq<byte>)
    requires ReadUpdateValues(codec, fields, behind) == Ok((updated, tail))
    ensures FinishCurrent(codec, fields, values, [UPDATE] + behind) == Ok((Edit(values, updated), tail))
  {
    assert ([UPDATE] + behind)[1..] == behind;
  }

  lemma StepReadsInsert(codec: ValueCodec, fields: seq<Field>, image: RowImage, tail: seq<byte>)
    requires RowReadable(codec, fields, image) && StartsRow(tail) && image.Add?
    ensures StepFlat(codec, fields, EncodeRow(codec, fields, image).value + tail) == Ok((image, After(image, tail)))
    ensures !LooksLikeMarker(image.values) ==>
              var body := (EncodeRow(codec, fields, image).value + tail)[1..];
              && body != [] && body[0] != END
              && StepFlat(codec, fields, body) == Ok((image, After(image, tail)))
  {
    SettledFlat(fields, image);
    var body := InsertBody(codec, fields, image.values).value;
    assert (EncodeRow(codec, fields, image).value + tail)[1..] == body + tail;
    InsertRoundTrip(codec, fields, image.values, tail);
    MarkerLookalike(fields, image.values);
    assert (body + tail)[0] == Mask(PresentBits(fields, image.values), false)[0];
  }

  /** One turn of the loop reads one written row and stops exactly at the next one, except
      that a current row also takes the marker of an insert behind it. */
  lemma StepReadsRow(codec: ValueCodec, fields: seq<Field>, images: seq<RowImage>, swallowed: bool)
    requires images != [] && Readable(codec, fields, images)
    requires swallowed ==> images[0].Add? && !LooksLikeMarker(images[0].values)
    ensures Readable(codec, fields, images[1..])
    ensures var bytes := Remaining(codec, fields, images, swallowed);
            var rest := Remaining(codec, fields, images[1..], Swallows(images));
            && bytes != [] && bytes[0] != END
            && StepFlat(codec, fields, bytes) == Ok((images[0], if images[0].Add? && rest == [END] then [] else rest))
  {
    var tail := EncodeRows(codec, fields, images[1..]).value + [END];
    RemainingParts(codec, fields, images, swallowed);
    FirstByte(codec, fields, images[1..]);
    assert RowReadable(codec, fields, images[0]);
    if images[0].Add? {
      StepReadsInsert(codec, fields, images[0], tail);
    } else {
      StepReadsCurrent(codec, fields, images[0], tail);
    }
  }

  /** The bytes ahead are the first row, perhaps without its marker, and the bytes behind it. */
  lemma RemainingParts(codec: ValueCodec, fields: seq<Field>, images: seq<RowImage>, swallowed: bool)
    requires images != [] && EncodeRows(codec, fields, images).Ok?
    ensures var head, tail := EncodeRow(codec, fields, images[0]).value, EncodeRows(codec, fields, images[1..]).value + [END];
            && Remaining(codec, fields, images, swallowed) == (if swallowed then (head + tail)[1..] else head + tail)
            && (Swallows(images) ==> Remaining(codec, fields, images[1..], Swallows(images)) == tail[1..])
            && (!Swallows(images) ==> Remaining(codec, fields, images[1..], Swallows(images)) == tail)
  {
    var head, rest := EncodeRow(codec, fields, images[0]).value, EncodeRows(codec, fields, images[1..]).value;
    Regrouped(head, rest, [END]);
    assert (rest + [END])[0..] == rest + [END] && (head + (rest + [END]))[0..] == head + (rest + [END]);
  }

  lemma FirstByte(codec: ValueCodec, fields: seq<Field>, images: seq<RowImage>)
    requires EncodeRows(codec, fields, images).Ok?
    ensures (EncodeRows(codec, fields, images).value + [END])[0]
            == if images == [] then END else if images[0].Add? then INSERT else CURRENT
  {
    if images != [] {
      var head := EncodeRow(codec, fields, images[0]).value;
      assert head[0] == if images[0].Add? then INSERT else CURRENT;
    }
  }

  /** The loop on the remaining bytes is one row followed by the loop on what is left. */
  lemma ParseUnfolds(codec: ValueCodec, fields: seq<Field>, images: seq<RowImage>, swallowed: bool)
    requires images != [] && Readable(codec, fields, images)
    requires swallowed ==> images[0].Add? && !LooksLikeMarker(images[0].values)
    ensures Readable(codec, fields, images[1..])
    ensures ParseFlat(codec, fields, Remaining(codec, fields, images, swallowed)) == Ok(images)
            <==> ParseFlat(codec, fields, Remaining(codec, fields, images[1..], Swallows(images))) == Ok(images[1..])
  {
    StepReadsRow(codec, fields, images, swallowed);
    var bytes, rest := Remaining(codec, fields, images, swallowed), Remaining(codec, fields, images[1..], Swallows(images));
    var left := if images[0].Add? && rest == [END] then [] else rest;
    assert ParseFlat(codec, fields, left) == ParseFlat(codec, fields, rest);
    if ParseFlat(codec, fields, left).Ok? {
      var tail := ParseFlat(codec, fields, left).value;
      assert ParseFlat(codec, fields, bytes) == Ok([images[0]] + tail);
      assert ([images[0]] + tail)[1..] == tail;
      assert images == [images[0]] + images[1..];
    }
  }

  lemma {:induction false} ParseInverts(codec: ValueCodec, fields: seq<Field>, images: seq<RowImage>, swallowed: bool)
    requires Readable(codec, fields, images) && !Hazard(images)
    requires swallowed ==> images != [] && images[0].Add? && !LooksLikeMarker(images[0].values)
    ensures ParseFlat(codec, fields, Remaining(codec, fields, images, swallowed)) == Ok(images)
    decreases |images|
  {
    if images == [] {
      assert Remaining(codec, fields, images, false) == [END];
    } else {
      ParseUnfolds(codec, fields, images, swallowed);
      NoHazardInTail(images);
      ParseInverts(codec, fields, images[1..], Swallows(images));
    }
  }

  lemma NoHazardInTail(images: seq<RowImage>)
    requires images != []
    ensures Hazard(images) <==> Hazard(images[1..]) || (Swallows(images) && LooksLikeMarker(images[1].values))
  {
    var tail := images[1..];
    if i :| 0 <= i < |tail| - 1 && tail[i].Keep? && tail[i + 1].Add? && LooksLikeMarker(tail[i + 1].values) {
      assert images[i + 1].Keep? && images[i + 1 + 1].Add?;
    }
    if i :| 0 <= i < |images| - 1 && images[i].Keep? && images[i + 1].Add? && LooksLikeMarker(images[i + 1].values) {
      if i > 0 {
        assert tail[i - 1].Keep? && tail[i - 1 + 1].Add?;
      }
    }
    if Swallows(images) && LooksLikeMarker(images[1].values) {
      assert images[0].Keep? && images[0 + 1].Add?;
    }
  }

  // ---------------------------------------------------------------- the hazard is real

  /** Stored values are never null: true of every ADO type but the variant. */
  ghost predicate NeverNull(codec: ValueCodec, fields: seq<Field>) {
    forall i, bytes: seq<byte> | 0 <= i < |fields| && codec.decode(fields[i], bytes).Ok? ::
      codec.decode(fields[i], bytes).value.0.Present()
  }

  lemma {:induction false} NullWhereAbsent(codec: ValueCodec, fields: seq<Field>, present: seq<bool>, bytes: seq<byte>)
    requires IsFlat(fields) || fields == []
    requires NeverNull(codec, fields) && |present| == |fields|
    requires ReadValues(codec, fields, present, bytes).Ok?
    ensures PresentBits(fields, ReadValues(codec, fields, present, bytes).value.0) == present
  {
    if fields != [] {
      var head := ReadOne(codec, fields[0], present[0], bytes).value;
      assert NeverNull(codec, fields[1..]) by {
        forall i, b: seq<byte> | 0 <= i < |fields[1..]| && codec.decode(fields[1..][i], b).Ok?
          ensures codec.decode(fields[1..][i], b).value.0.Present()
        {
          assert fields[1..][i] == fields[i + 1];
        }
      }
      NullWhereAbsent(codec, fields[1..], present[1..], head.1);
      assert present == [present[0]] + present[1..];
    }
  }

  /** Reading an insert one byte late cannot give back the same row. */
  lemma LateInsertDiffers(codec: ValueCodec, fields: seq<Field>, values: seq<Value>, tail: seq<byte>)
    requires IsFlat(fields) && NeverNull(codec, fields)
    requires CellsValid(fields, Inserted, values) && LooksLikeMarker(values)
    requires InsertBody(codec, fields, values).Ok?
    ensures var late := ReadInsert(codec, fields, (InsertBody(codec, fields, values).value + tail)[1..]);
            late.Err? || late.value.0 != values
  {
    var bytes := InsertBody(codec, fields, values).value + tail;
    var late := ReadInsert(codec, fields, bytes[1..]);
    if late.Ok? && late.value.0 == values {
      var m, n := Mask(PresentBits(fields, values), false), Mask(NullBits(fields, values), false);
      ReadInsertMask(codec, fields, values, bytes[1..]);
      MasksInFront(codec, fields, values, tail);
      assert forall k | 0 <= k < |m| :: bytes[k + 1] == bytes[1..][..|m|][k];
      SteadyRun(m, bytes);
      OneBitDiffers(PresentBits(fields, values), NullBits(fields, values), 5);
    }
  }

  lemma MasksInFront(codec: ValueCodec, fields: seq<Field>, values: seq<Value>, tail: seq<byte>)
    requires InsertBody(codec, fields, values).Ok?
    ensures var bytes := InsertBody(codec, fields, values).value + tail;
            var m, n := Mask(PresentBits(fields, values), false), Mask(NullBits(fields, values), false);
            |m| == |n| && |bytes| >= 2 * |m| && bytes[..|m|] == m && bytes[|m|] == n[0]
  {
  }

  /** An insert row that comes out with these values had their mask in front. */
  lemma ReadInsertMask(codec: ValueCodec, fields: seq<Field>, values: seq<Value>, bytes: seq<byte>)
    requires IsFlat(fields) && NeverNull(codec, fields) && |fields| == |values|
    requires ReadInsert(codec, fields, bytes).Ok? && ReadInsert(codec, fields, bytes).value.0 == values
    ensures |bytes| >= MaskLength(|fields|) && bytes[..MaskLength(|fields|)] == Mask(PresentBits(fields, values), false)
  {
    var first := ReadMask(bytes, |fields|).value.0;
    var masks := ValueMasks(bytes, fields, true).value;
    NullWhereAbsent(codec, fields, masks.0, masks.2);
    AcceptedMaskIsWritten(first, |fields|, false);
  }

  lemma OneBitDiffers(a: seq<bool>, b: seq<bool>, k: nat)
    requires |a| == |b| && k < 8 && k < |a| && a[k] != b[k]
    ensures Mask(a, false)[0] != Mask(b, false)[0]
  {
    MaskIsMask(a, false);
    MaskIsMask(b, false);
    assert MaskBit(Mask(a, false), k) != MaskBit(Mask(b, false), k);
  }

  lemma {:induction false} SteadyRun(m: seq<byte>, bytes: seq<byte>)
    requires 0 < |m| < |bytes|
    requires forall k | 0 <= k < |m| :: m[k] == bytes[k] && m[k] == bytes[k + 1]
    ensures bytes[|m|] == m[0]
  {
    var k := 0;
    while k < |m|
      invariant 0 <= k <= |m| && bytes[k] == m[0]
    {
      k := k + 1;
    }
  }

  lemma {:induction false} HazardBreaks(codec: ValueCodec, fields: seq<Field>, images: seq<RowImage>, swallowed: bool)
    requires Readable(codec, fields, images) && NeverNull(codec, fields) && Hazard(images)
    requires swallowed ==> images[0].Add? && !LooksLikeMarker(images[0].values)
    ensures ParseFlat(codec, fields, Remaining(codec, fields, images, swallowed)) != Ok(images)
    decreases |images|
  {
    ParseUnfolds(codec, fields, images, swallowed);
    NoHazardInTail(images);
    if Swallows(images) && LooksLikeMarker(images[1].values) {
      SwallowedHazard(codec, fields, images[1..]);
    } else {
      HazardBreaks(codec, fields, images[1..], Swallows(images));
    }
  }

  lemma WithoutFirst(first: byte, body: seq<byte>, rest: seq<byte>, end: seq<byte>)
    ensures ([first] + body + rest + end)[1..] == body + (rest + end)
  {
  }

  lemma SwallowedBytes(codec: ValueCodec, fields: seq<Field>, images: seq<RowImage>)
    requires images != [] && EncodeRows(codec, fields, images).Ok? && images[0].Add?
    ensures InsertBody(codec, fields, images[0].values).Ok?
    ensures Remaining(codec, fields, images, true)
            == InsertBody(codec, fields, images[0].values).value + (EncodeRows(codec, fields, images[1..]).value + [END])
  {
    WithoutFirst(INSERT, InsertBody(codec, fields, images[0].values).value, EncodeRows(codec, fields, images[1..]).value, [END]);
  }

  lemma SwallowedHazard(codec: ValueCodec, fields: seq<Field>, images: seq<RowImage>)
    requires Readable(codec, fields, images) && NeverNull(codec, fields)
    requires images != [] && images[0].Add? && LooksLikeMarker(images[0].values)
    ensures ParseFlat(codec, fields, Remaining(codec, fields, images, true)) != Ok(images)
  {
    SwallowedBytes(codec, fields, images);
    assert RowReadable(codec, fields, images[0]);
    HazardBody(codec, fields, images, EncodeRows(codec, fields, images[1..]).value + [END]);
  }

  lemma HazardBody(codec: ValueCodec, fields: seq<Field>, images: seq<RowImage>, tail: seq<byte>)
    requires images != [] && images[0].Add? && LooksLikeMarker(images[0].values)
    requires RowReadable(codec, fields, images[0]) && NeverNull(codec, fields)
    ensures ParseFlat(codec, fields, InsertBody(codec, fields, images[0].values).value + tail) != Ok(images)
  {
    var values := images[0].values;
    var bytes := InsertBody(codec, fields, values).value + tail;
    MarkerLookalike(fields, values);
    assert bytes[0] == Mask(PresentBits(fields, values), false)[0];
    if bytes[0] == INSERT {
      LateInsertDiffers(codec, fields, values, tail);
    }
  }

  /** The flat row-state stream is read back row for row unless an insert whose first mask byte looks
      like a marker follows a current row; where no stored value reads as null, only then is it lost. */
  lemma FlatRoundTrip(codec: ValueCodec, fields: seq<Field>, images: seq<RowImage>)
    requires Readable(codec, fields, images)
    ensures !Hazard(images) ==> ParseFlat(codec, fields, EncodeRows(codec, fields, images).value + [END]) == Ok(images)
    ensures NeverNull(codec, fields) ==>
              (ParseFlat(codec, fields, EncodeRows(codec, fields, images).value + [END]) == Ok(images) <==> !Hazard(images))
  {
    var bytes := EncodeRows(codec, fields, images).value + [END];
    assert Remaining(codec, fields, images, false) == bytes;
    if Hazard(images) {
      if NeverNull(codec, fields) {
        HazardBreaks(codec, fields, images, false);
      }
    } else {
      ParseInverts(codec, fields, images, false);
    }
  }

  /** The same for whole Recordsets: what the parser builds from the written bytes is the
      graph with one change per row of the source, in change order. */
  lemma FlatRecordsetRoundTrip(codec: ValueCodec, fields: seq<Field>, rs: Recordset)
    requires WriteFlat(codec, fields, rs).Ok?
    requires forall i | 0 <= i < |rs.rows| :: AllRoundTrip(codec, fields, rs.rows[i].values)
    ensures var parsed := ParseFlat(codec, fields, WriteFlat(codec, fields, rs).value);
            var kept := parsed.Ok? && ToGraph(parsed.value) == ToGraph(Images(rs));
            (!Hazard(Images(rs)) ==> kept) && (NeverNull(codec, fields) ==> (kept <==> !Hazard(Images(rs))))
  {
    var images := Images(rs);
    assert rs.changes[0..] == rs.changes;
    ShapeGivesImages(fields, rs, 0);
    ImagesRoundTrip(codec, fields, rs, 0);
    EncodeRowsOk(codec, fields, images);
    FlatRoundTrip(codec, fields, images);
    GraphRoundTrip(images);
    var parsed := ParseFlat(codec, fields, WriteFlat(codec, fields, rs).value);
    if parsed.Ok? {
      GraphRoundTrip(parsed.value);
    }
  }

  lemma {:induction false} EncodeRowsOk(codec: ValueCodec, fields: seq<Field>, images: seq<RowImage>)
    requires EncodeRows(codec, fields, images).Ok?
    ensures forall i | 0 <= i < |images| :: EncodeRow(codec, fields, images[i]).Ok?
  {
    if images != [] {
      EncodeRowsOk(codec, fields, images[1..]);
      assert forall i | 1 <= i < |images| :: images[i] == images[1..][i - 1];
    }
  }

  ghost predicate ImageRoundTrips(codec: ValueCodec, fields: seq<Field>, image: RowImage) {
    && AllRoundTrip(codec, fields, image.values)
    && (image.Edit? ==> AllRoundTrip(codec, fields, image.updated))
  }

  lemma {:induction false} ImagesRoundTrip(codec: ValueCodec, fields: seq<Field>, rs: Recordset, from: nat)
    requires ShapeValid(fields, rs) && from <= |rs.changes|
    requires forall i | 0 <= i < |rs.rows| :: AllRoundTrip(codec, fields, rs.rows[i].values)
    ensures forall i | 0 <= i < |ImagesFrom(rs, rs.changes[from..])| :: ImageRoundTrips(codec, fields, ImagesFrom(rs, rs.changes[from..])[i])
    decreases |rs.changes| - from
  {
    if from < |rs.changes| {
      var change := rs.changes[from];
      assert ChangeLinked(rs, from);
      assert |StatesOf(rs, change.rowIndices)| == |change.rowIndices|;
      var head := ChangeImages(rs, change);
      assert forall i | 0 <= i < |head| :: ImageRoundTrips(codec, fields, head[i]);
      ImagesRoundTrip(codec, fields, rs, from + 1);
      assert rs.changes[from..][1..] == rs.changes[from + 1..];
      assert ImagesFrom(rs, rs.changes[from..]) == head + ImagesFrom(rs, rs.changes[from + 1..]);
    }
  }
}
