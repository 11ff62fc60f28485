/** The marked row groups of a shaped ADTG stream: one group per schema, told apart by the
    child marker and the group id. */
module ChapterBytes {
  import opened Prelude
  import opened RecordsetModel
  import opened RowCodec
  import opened ChapterTree

  datatype Marker = Root | Child(groupId: nat)

  // ---------------------------------------------------------------- writing

  /** `write_chapter_marker`: child markers have the high bit set and carry the group id. */
  function MarkerBytes(marker: Marker, code: byte): (r: seq<byte>)
    requires code < 0x80
    ensures |r| >= 1
  {
    match marker
    case Root => [code]
    case Child(groupId) => [code + 0x80] + LittleEndian(groupId, 4)
  }

  /** `write_chapter_row_change` */
  function EncodeChapterRow(codec: ValueCodec, fields: seq<Field>, marker: Marker, image: RowImage): Result<seq<byte>> {
    if !Arity(fields, image) then Err
    else
      match image
      case Keep(values) =>
        var body :- CurrentBody(codec, fields, values);
        Ok(MarkerBytes(marker, CURRENT) + body)
      case Add(values) =>
        var body :- InsertBody(codec, fields, values);
        Ok(MarkerBytes(marker, INSERT) + body)
      case Drop(values) =>
        var body :- CurrentBody(codec, fields, values);
        Ok(MarkerBytes(marker, CURRENT) + body + MarkerBytes(marker, DELETE))
      case Edit(values, updated) =>
        var body :- CurrentBody(codec, fields, values);
        var pending :- UpdateBody(codec, fields, Delta(fields, values, updated));
        Ok(MarkerBytes(marker, CURRENT) + body + MarkerBytes(marker, UPDATE) + pending)
  }

  function EncodeChapterRows(codec: ValueCodec, fields: seq<Field>, marker: Marker, images: seq<RowImage>): Result<seq<byte>> {
    if images == [] then Ok([])
    else
      var head :- EncodeChapterRow(codec, fields, marker, images[0]);
      var tail :- EncodeChapterRows(codec, fields, marker, images[1..]);
      Ok(head + tail)
  }

  /** `write_chapter_row_groups`: the rows of this schema, then each child group in turn. */
  function WriteGroups(codec: ValueCodec, s: Schema, rss: seq<Recordset>, marker: Marker): Result<seq<byte>>
    decreases s, |s.children| + 1
  {
    var rows :- EncodeChapterRows(codec, s.fields, marker, ChapterRowChanges(rss, s.fields));
    var children :- WriteChildGroups(codec, s, rss, 0);
    Ok(rows + children)
  }

  function WriteChildGroups(codec: ValueCodec, s: Schema, rss: seq<Recordset>, from: nat): Result<seq<byte>>
    requires from <= |s.children|
    decreases s, |s.children| - from
  {
    if from == |s.children| then Ok([])
    else
      var child := s.children[from];
      var head :- WriteGroups(codec, child.schema, NestedAll(rss, child.fieldIndex), Child(child.schema.groupId));
      var tail :- WriteChildGroups(codec, s, rss, from + 1);
      Ok(head + tail)
  }

  // ---------------------------------------------------------------- reading

  /** `read_chapter_row_marker_prefix` */
  function ReadMarker(bytes: seq<byte>, marker: Marker, code: byte): (r: Option<seq<byte>>)
    requires code < 0x80
    ensures r.Some? ==> |r.value| < |bytes|
  {
    if bytes == [] then None
    else
      match marker
      case Root => if bytes[0] == code then Some(bytes[1..]) else None
      case Child(groupId) =>
        if bytes[0] == code + 0x80 && |bytes| >= 5 && FromLittleEndian(bytes[1..5]) == groupId then Some(bytes[5..]) else None
  }

  predicate HasCode(bytes: seq<byte>, marker: Marker, code: byte)
    requires code < 0x80
  {
    bytes != [] && bytes[0] == if marker.Root? then code else code + 0x80
  }

  /** What follows the values of a row that began with the group's current marker. */
  function FinishChapterRow(codec: ValueCodec, fields: seq<Field>, marker: Marker, values: seq<Value>, bytes: seq<byte>): (r: Result<(RowImage, seq<byte>)>)
    ensures r.Ok? ==> |r.value.1| <= |bytes|
  {
    if HasCode(bytes, marker, UPDATE) then
      var rest := ReadMarker(bytes, marker, UPDATE);
      if rest.None? then Err
      else
        var pending :- ReadUpdateValues(codec, fields, rest.value);
        Ok((Edit(values, pending.0), pending.1))
    else if HasCode(bytes, marker, DELETE) then
      var rest := ReadMarker(bytes, marker, DELETE);
      if rest.None? then Err else Ok((Drop(values), rest.value))
    else Ok((Keep(values), bytes))
  }

  /** `read_chapter_row`: None where the next bytes do not start a row of this group. */
  function ReadChapterRow(codec: ValueCodec, fields: seq<Field>, marker: Marker, bytes: seq<byte>): (r: Result<Option<(RowImage, seq<byte>)>>)
    ensures r.Ok? && r.value.Some? ==> |r.value.value.1| < |bytes|
  {
    var current := ReadMarker(bytes, marker, CURRENT);
    if current.Some? then
      var row :- ReadCurrent(codec, fields, current.value);
      var done :- FinishChapterRow(codec, fields, marker, row.0, row.1);
      Ok(Some(done))
    else
      var insert := ReadMarker(bytes, marker, INSERT);
      if insert.None? then Ok(None)
      else
        var row :- ReadInsert(codec, fields, insert.value);
        Ok(Some((Add(row.0), row.1)))
  }

  /** `read_current_chapter_rows` */
  function ReadChapterRows(codec: ValueCodec, fields: seq<Field>, marker: Marker, bytes: seq<byte>): (r: Result<(seq<RowImage>, seq<byte>)>)
    ensures r.Ok? ==> |r.value.1| <= |bytes|
    decreases |bytes|
  {
    var row :- ReadChapterRow(codec, fields, marker, bytes);
    if row.None? then Ok(([], bytes))
    else
      var rest :- ReadChapterRows(codec, fields, marker, row.value.1);
      Ok(([row.value.0] + rest.0, rest.1))
  }

  /** `read_chapter_row_group` */
  function ReadGroup(codec: ValueCodec, s: Schema, marker: Marker, bytes: seq<byte>): Result<(Pools, seq<byte>)>
    decreases s, |s.children| + 1
  {
    var rows :- ReadChapterRows(codec, s.fields, marker, bytes);
    var children :- ReadChildGroups(codec, s, 0, rows.1);
    Ok((Pools(rows.0, children.0), children.1))
  }

  function ReadChildGroups(codec: ValueCodec, s: Schema, from: nat, bytes: seq<byte>): Result<(seq<Pools>, seq<byte>)>
    requires from <= |s.children|
    decreases s, |s.children| - from
  {
    if from == |s.children| then Ok(([], bytes))
    else
      var child := s.children[from];
      var head :- ReadGroup(codec, child.schema, Child(child.schema.groupId), bytes);
      var tail :- ReadChildGroups(codec, s, from + 1, head.1);
      Ok(([head.0] + tail.0, tail.1))
  }

  /** `read_chapter_row_tree`: every byte must be used. */
  function ReadTree(codec: ValueCodec, s: Schema, bytes: seq<byte>): Result<Pools> {
    var root :- ReadGroup(codec, s, Root, bytes);
    var rest := if root.1 != [] && root.1[0] == END then root.1[1..] else root.1;
    if rest == [] then Ok(root.0) else Err
  }

  // ---------------------------------------------------------------- one row

  ghost predicate ChapterRowReadable(codec: ValueCodec, fields: seq<Field>, image: RowImage) {
    && AllRoundTrip(codec, fields, image.values)
    && (image.Edit? ==> AllRoundTrip(codec, fields, image.updated))
  }

  lemma LittleEndian4(n: nat)
    requires n <= MAX_GROUP_ID
    ensures FromLittleEndian(LittleEndian(n, 4)) == n
  {
    assert Pow(256, 2) == 65536;
    assert Pow(256, 4) == 256 * (256 * Pow(256, 2));
    LittleEndianRoundTrip(n, 4);
  }

  predicate MarkerFits(marker: Marker) {
    marker.Child? ==> marker.groupId <= MAX_GROUP_ID
  }

  lemma ReadMarkerInverts(marker: Marker, code: byte, other: byte, tail: seq<byte>)
    requires code < 0x80 && other < 0x80 && MarkerFits(marker)
    ensures ReadMarker(MarkerBytes(marker, code) + tail, marker, other) == if code == other then Some(tail) else None
    ensures HasCode(MarkerBytes(marker, code) + tail, marker, other) == (code == other)
  {
    var bytes := MarkerBytes(marker, code) + tail;
    if marker.Root? {
      assert bytes[1..] == tail;
    } else {
      LittleEndian4(marker.groupId);
      assert bytes[1..5] == LittleEndian(marker.groupId, 4);
      assert bytes[5..] == tail;
    }
  }

  /** The bytes behind the rows of a group: the terminator, or the marker of another group. */
  predicate Boundary(tail: seq<byte>, ids: set<nat>) {
    && tail != []
    && (tail[0] == END || ((tail[0] == CURRENT + 0x80 || tail[0] == INSERT + 0x80) && |tail| >= 5 && FromLittleEndian(tail[1..5]) in ids))
  }

  /** What may follow a row: another row of its group, or the boundary behind the group. */
  predicate EndsRow(marker: Marker, tail: seq<byte>) {
    !HasCode(tail, marker, UPDATE) && !HasCode(tail, marker, DELETE)
  }

  lemma BoundaryEnds(marker: Marker, tail: seq<byte>, ids: set<nat>)
    requires Boundary(tail, ids) && (marker.Child? ==> marker.groupId !in ids)
    ensures EndsRow(marker, tail)
    ensures ReadMarker(tail, marker, CURRENT).None? && ReadMarker(tail, marker, INSERT).None?
  {
  }

  lemma DeltaRoundTrips(codec: ValueCodec, fields: seq<Field>, values: seq<Value>, updated: seq<Value>)
    requires |values| == |updated| == |fields| && AllRoundTrip(codec, fields, updated)
    ensures AllRoundTrip(codec, fields, Delta(fields, values, updated))
    ensures SettledUpdate(fields, Delta(fields, values, updated)) == Delta(fields, values, updated)
  {
  }

  function Suffix(codec: ValueCodec, fields: seq<Field>, marker: Marker, image: RowImage): seq<byte>
    requires EncodeChapterRow(codec, fields, marker, image).Ok?
  {
    match image
    case Drop(_) => MarkerBytes(marker, DELETE)
    case Edit(values, updated) => MarkerBytes(marker, UPDATE) + UpdateBody(codec, fields, Delta(fields, values, updated)).value
    case _ => []
  }

  lemma FinishReadsDelete(codec: ValueCodec, fields: seq<Field>, marker: Marker, values: seq<Value>, tail: seq<byte>)
    requires MarkerFits(marker)
    ensures FinishChapterRow(codec, fields, marker, values, MarkerBytes(marker, DELETE) + tail) == Ok((Drop(values), tail))
  {
    ReadMarkerInverts(marker, DELETE, DELETE, tail);
    ReadMarkerInverts(marker, DELETE, UPDATE, tail);
  }

  lemma FinishReadsUpdate(codec: ValueCodec, fields: seq<Field>, marker: Marker, values: seq<Value>, updated: seq<Value>, behind: seq<byte>, tail: seq<byte>)
    requires MarkerFits(marker) && ReadUpdateValues(codec, fields, behind) == Ok((updated, tail))
    ensures FinishChapterRow(codec, fields, marker, values, MarkerBytes(marker, UPDATE) + behind) == Ok((Edit(values, updated), tail))
  {
    ReadMarkerInverts(marker, UPDATE, UPDATE, behind);
  }

  lemma FinishReadsDelta(codec: ValueCodec, fields: seq<Field>, marker: Marker, image: RowImage, tail: seq<byte>)
    requires EncodeChapterRow(codec, fields, marker, image).Ok? && ChapterRowReadable(codec, fields, image)
    requires image.Edit? && MarkerFits(marker)
    ensures FinishChapterRow(codec, fields, marker, Stored(fields, image).values, Suffix(codec, fields, marker, image) + tail)
            == Ok((Stored(fields, image), tail))
  {
    var delta := Delta(fields, image.values, image.updated);
    var pending := UpdateBody(codec, fields, delta).value;
    DeltaRoundTrips(codec, fields, image.values, image.updated);
    UpdateRoundTrip(codec, fields, delta, tail);
    Regrouped(MarkerBytes(marker, UPDATE), pending, tail);
    FinishReadsUpdate(codec, fields, marker, Settled(fields, image.values), delta, pending + tail, tail);
  }

  lemma FinishReadsSuffix(codec: ValueCodec, fields: seq<Field>, marker: Marker, image: RowImage, tail: seq<byte>)
    requires EncodeChapterRow(codec, fields, marker, image).Ok? && ChapterRowReadable(codec, fields, image)
    requires !image.Add? && MarkerFits(marker) && EndsRow(marker, tail)
    ensures FinishChapterRow(codec, fields, marker, Stored(fields, image).values, Suffix(codec, fields, marker, image) + tail)
            == Ok((Stored(fields, image), tail))
  {
    if image.Keep? {
      assert Suffix(codec, fields, marker, image) + tail == tail;
    } else if image.Drop? {
      FinishReadsDelete(codec, fields, marker, Settled(fields, image.values), tail);
    } else {
      FinishReadsDelta(codec, fields, marker, image, tail);
    }
  }

  lemma InsertRowRead(codec: ValueCodec, fields: seq<Field>, marker: Marker, values: seq<Value>, tail: seq<byte>)
    requires InsertBody(codec, fields, values).Ok? && AllRoundTrip(codec, fields, values) && MarkerFits(marker)
    ensures ReadChapterRow(codec, fields, marker, MarkerBytes(marker, INSERT) + (InsertBody(codec, fields, values).value + tail))
            == Ok(Some((Add(Settled(fields, values)), tail)))
  {
    var behind := InsertBody(codec, fields, values).value + tail;
    ReadMarkerInverts(marker, INSERT, CURRENT, behind);
    ReadMarkerInverts(marker, INSERT, INSERT, behind);
    InsertRoundTrip(codec, fields, values, tail);
  }

  lemma CurrentRowRead(codec: ValueCodec, fields: seq<Field>, marker: Marker, values: seq<Value>, behind: seq<byte>, row: RowImage, tail: seq<byte>)
    requires CurrentBody(codec, fields, values).Ok? && AllRoundTrip(codec, fields, values) && MarkerFits(marker)
    requires FinishChapterRow(codec, fields, marker, Settled(fields, values), behind) == Ok((row, tail))
    ensures ReadChapterRow(codec, fields, marker, MarkerBytes(marker, CURRENT) + (CurrentBody(codec, fields, values).value + behind))
            == Ok(Some((row, tail)))
  {
    var rest := CurrentBody(codec, fields, values).value + behind;
    ReadMarkerInverts(marker, CURRENT, CURRENT, rest);
    CurrentRoundTrip(codec, fields, values, behind);
  }

  /** The parts of a written row, grouped as the reader takes them. */
  lemma RowParts(codec: ValueCodec, fields: seq<Field>, marker: Marker, image: RowImage, tail: seq<byte>)
    requires EncodeChapterRow(codec, fields, marker, image).Ok?
    ensures EncodeChapterRow(codec, fields, marker, image).value + tail
            == if image.Add? then MarkerBytes(marker, INSERT) + (InsertBody(codec, fields, image.values).value + tail)
               else MarkerBytes(marker, CURRENT) + (CurrentBody(codec, fields, image.values).value + (Suffix(codec, fields, marker, image) + tail))
  {
  }

  /** One chapter row is read back stored, whatever group it is in. */
  lemma ChapterRowRoundTrip(codec: ValueCodec, fields: seq<Field>, marker: Marker, image: RowImage, tail: seq<byte>)
    requires EncodeChapterRow(codec, fields, marker, image).Ok? && ChapterRowReadable(codec, fields, image)
    requires MarkerFits(marker) && EndsRow(marker, tail)
    ensures ReadChapterRow(codec, fields, marker, EncodeChapterRow(codec, fields, marker, image).value + tail)
            == Ok(Some((Stored(fields, image), tail)))
  {
    RowParts(codec, fields, marker, image, tail);
    if image.Add? {
      InsertRowRead(codec, fields, marker, image.values, tail);
    } else {
      FinishReadsSuffix(codec, fields, marker, image, tail);
      CurrentRowRead(codec, fields, marker, image.values, Suffix(codec, fields, marker, image) + tail, Stored(fields, image), tail);
    }
  }

  lemma RowStartEndsRow(codec: ValueCodec, fields: seq<Field>, marker: Marker, image: RowImage, tail: seq<byte>)
    requires EncodeChapterRow(codec, fields, marker, image).Ok? && MarkerFits(marker)
    ensures EndsRow(marker, EncodeChapterRow(codec, fields, marker, image).value + tail)
  {
    var code := if image.Add? then INSERT else CURRENT;
    var bytes := EncodeChapterRow(codec, fields, marker, image).value + tail;
    assert bytes[0] == MarkerBytes(marker, code)[0];
  }

  lemma RowsSplit(codec: ValueCodec, fields: seq<Field>, marker: Marker, images: seq<RowImage>, tail: seq<byte>)
    requires images != [] && EncodeChapterRows(codec, fields, marker, images).Ok?
    ensures EncodeChapterRow(codec, fields, marker, images[0]).Ok? && EncodeChapterRows(codec, fields, marker, images[1..]).Ok?
    ensures EncodeChapterRows(codec, fields, marker, images).value + tail
            == EncodeChapterRow(codec, fields, marker, images[0]).value + (EncodeChapterRows(codec, fields, marker, images[1..]).value + tail)
  {
    Regrouped(EncodeChapterRow(codec, fields, marker, images[0]).value, EncodeChapterRows(codec, fields, marker, images[1..]).value, tail);
  }

  lemma NoRows(codec: ValueCodec, fields: seq<Field>, marker: Marker, tail: seq<byte>)
    ensures EncodeChapterRows(codec, fields, marker, []) == Ok([]) && [] + tail == tail
  {
  }

  lemma RowsEndRow(codec: ValueCodec, fields: seq<Field>, marker: Marker, images: seq<RowImage>, tail: seq<byte>)
    requires EncodeChapterRows(codec, fields, marker, images).Ok? && MarkerFits(marker) && EndsRow(marker, tail)
    ensures EndsRow(marker, EncodeChapterRows(codec, fields, marker, images).value + tail)
  {
    if images == [] {
      NoRows(codec, fields, marker, tail);
    } else {
      RowsSplit(codec, fields, marker, images, tail);
      RowStartEndsRow(codec, fields, marker, images[0], EncodeChapterRows(codec, fields, marker, images[1..]).value + tail);
    }
  }

  lemma {:induction false} ChapterRowsRoundTrip(codec: ValueCodec, fields: seq<Field>, marker: Marker, images: seq<RowImage>, tail: seq<byte>, ids: set<nat>)
    requires EncodeChapterRows(codec, fields, marker, images).Ok?
    requires forall k | 0 <= k < |images| :: ChapterRowReadable(codec, fields, images[k])
    requires MarkerFits(marker) && Boundary(tail, ids) && (marker.Child? ==> marker.groupId !in ids)
    ensures ReadChapterRows(codec, fields, marker, EncodeChapterRows(codec, fields, marker, images).value + tail)
            == Ok((StoredRows(fields, images), tail))
  {
    BoundaryEnds(marker, tail, ids);
    if images == [] {
      NoRows(codec, fields, marker, tail);
    } else {
      RowsSplit(codec, fields, marker, images, tail);
      FirstRowRead(codec, fields, marker, images, tail);
      ChapterRowsRoundTrip(codec, fields, marker, images[1..], tail, ids);
      RowsReadOn(codec, fields, marker, EncodeChapterRows(codec, fields, marker, images).value + tail, Stored(fields, images[0]),
                 EncodeChapterRows(codec, fields, marker, images[1..]).value + tail);
      StoredFirst(fields, images);
    }
  }

  lemma StoredFirst(fields: seq<Field>, images: seq<RowImage>)
    requires images != []
    ensures StoredRows(fields, images) == [Stored(fields, images[0])] + StoredRows(fields, images[1..])
  {
  }

  /** One turn of the row loop. */
  lemma RowsReadOn(codec: ValueCodec, fields: seq<Field>, marker: Marker, bytes: seq<byte>, row: RowImage, rest: seq<byte>)
    requires ReadChapterRow(codec, fields, marker, bytes) == Ok(Some((row, rest))) && ReadChapterRows(codec, fields, marker, rest).Ok?
    ensures var more := ReadChapterRows(codec, fields, marker, rest).value;
            ReadChapterRows(codec, fields, marker, bytes) == Ok(([row] + more.0, more.1))
  {
  }

  lemma FirstRowRead(codec: ValueCodec, fields: seq<Field>, marker: Marker, images: seq<RowImage>, tail: seq<byte>)
    requires images != [] && EncodeChapterRows(codec, fields, marker, images).Ok?
    requires ChapterRowReadable(codec, fields, images[0]) && MarkerFits(marker) && EndsRow(marker, tail)
    ensures ReadChapterRow(codec, fields, marker, EncodeChapterRows(codec, fields, marker, images).value + tail)
            == Ok(Some((Stored(fields, images[0]), EncodeChapterRows(codec, fields, marker, images[1..]).value + tail)))
  {
    RowsSplit(codec, fields, marker, images, tail);
    RowsEndRow(codec, fields, marker, images[1..], tail);
    ChapterRowRoundTrip(codec, fields, marker, images[0], EncodeChapterRows(codec, fields, marker, images[1..]).value + tail);
  }
}
