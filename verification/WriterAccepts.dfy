/** Which rows the writers take, and with which bytes, cell by cell: the markers, the masks and the
    values of a row, and the one reason for which a row is refused. */
module WriterAccepts {
  import opened Prelude
  import opened RecordsetModel
  import opened RowCodec
  import opened FlatStream
  import opened ChapterTree
  import opened ChapterJoin
  import opened ChapterBytes
  import opened ChapterPipeline

  /** A plain cell that is written as a value. */
  predicate Stands(codec: ValueCodec, field: Field, value: Value) {
    value != Null && value != Unavailable && codec.encode(field, value).Ok?
  }

  /** Every plain cell holds a value that can be encoded, or its column may be null. */
  predicate RowStands(codec: ValueCodec, fields: seq<Field>, values: seq<Value>) {
    && |values| == |fields|
    && forall i | 0 <= i < |fields| && fields[i].typeCode != 136 ::
         Stands(codec, fields[i], values[i]) || (fields[i].nullable && (values[i] == Null || values[i] == Unavailable))
  }

  /** Every pending plain cell is omitted, or null in a column that may be, or can be encoded. */
  predicate UpdateStands(codec: ValueCodec, fields: seq<Field>, values: seq<Value>) {
    && |values| == |fields|
    && forall i | 0 <= i < |fields| && fields[i].typeCode != 136 ::
         Stands(codec, fields[i], values[i]) || values[i] == Unavailable || (fields[i].nullable && values[i] == Null)
  }

  // ---------------------------------------------------------------- one row

  lemma {:induction false} PresentEncode(codec: ValueCodec, fields: seq<Field>, present: seq<bool>, values: seq<Value>)
    requires |fields| == |present| == |values|
    ensures EncodePresent(codec, fields, present, values).Ok?
            <==> forall i | 0 <= i < |fields| && present[i] :: codec.encode(fields[i], values[i]).Ok?
  {
    if fields != [] {
      PresentEncode(codec, fields[1..], present[1..], values[1..]);
      assert forall i | 0 < i < |fields| :: fields[i] == fields[1..][i - 1] && present[i] == present[1..][i - 1] && values[i] == values[1..][i - 1];
      assert forall i | 0 <= i < |fields| - 1 :: fields[1..][i] == fields[i + 1] && present[1..][i] == present[i + 1] && values[1..][i] == values[i + 1];
    }
  }

  lemma BodiesStand(codec: ValueCodec, fields: seq<Field>, values: seq<Value>)
    ensures CurrentBody(codec, fields, values).Ok? <==> RowStands(codec, fields, values)
    ensures InsertBody(codec, fields, values).Ok? <==> RowStands(codec, fields, values)
  {
    if |values| == |fields| {
      PresentEncode(codec, fields, PresentBits(fields, values), values);
    }
  }

  lemma UpdateBodyStands(codec: ValueCodec, fields: seq<Field>, values: seq<Value>)
    requires forall i | 0 <= i < |fields| && i < |values| && fields[i].IsChapter() :: values[i] != Null
    ensures UpdateBody(codec, fields, values).Ok? <==> UpdateStands(codec, fields, values)
  {
    if |values| == |fields| {
      PresentEncode(codec, fields, PresentBits(fields, values), values);
    }
  }

  /** The flat writer refuses a row exactly when a cell cannot stand; an inserted row may omit none. */
  lemma FlatRowAccepted(codec: ValueCodec, fields: seq<Field>, image: RowImage)
    requires IsFlat(fields)
    ensures EncodeRow(codec, fields, image).Ok?
            <==> && RowStands(codec, fields, image.values)
                 && (image.Add? ==> forall i | 0 <= i < |image.values| :: image.values[i] != Unavailable)
                 && (image.Edit? ==> UpdateStands(codec, fields, image.updated))
  {
    BodiesStand(codec, fields, image.values);
    if image.Edit? {
      UpdateBodyStands(codec, fields, image.updated);
    }
  }

  lemma {:induction false} FlatRowsAccepted(codec: ValueCodec, fields: seq<Field>, images: seq<RowImage>)
    ensures EncodeRows(codec, fields, images).Ok? <==> forall k | 0 <= k < |images| :: EncodeRow(codec, fields, images[k]).Ok?
  {
    if images != [] {
      FlatRowsAccepted(codec, fields, images[1..]);
      assert forall k | 0 < k < |images| :: images[k] == images[1..][k - 1];
      assert forall k | 0 <= k < |images| - 1 :: images[1..][k] == images[k + 1];
    }
  }

  /** The chapter writer refuses a row exactly when a plain cell cannot stand; of an update only the
      changed cells count. */
  lemma ChapterRowAccepted(codec: ValueCodec, fields: seq<Field>, marker: Marker, image: RowImage)
    ensures EncodeChapterRow(codec, fields, marker, image).Ok?
            <==> && RowStands(codec, fields, image.values)
                 && (image.Edit? ==>
                       && |image.updated| == |fields|
                       && forall i | 0 <= i < |fields| && fields[i].typeCode != 136 && image.updated[i] != image.values[i] ::
                            || Stands(codec, fields[i], image.updated[i]) || image.updated[i] == Unavailable
                            || (fields[i].nullable && image.updated[i] == Null))
  {
    if Arity(fields, image) {
      BodiesStand(codec, fields, image.values);
      if image.Edit? {
        var delta := Delta(fields, image.values, image.updated);
        UpdateBodyStands(codec, fields, delta);
        forall i | 0 <= i < |fields| && fields[i].typeCode != 136 && image.updated[i] == image.values[i] ensures delta[i] == Unavailable {
        }
        forall i | 0 <= i < |fields| && fields[i].typeCode != 136 && image.updated[i] != image.values[i] ensures delta[i] == image.updated[i] {
        }
      }
    }
  }

  // ---------------------------------------------------------------- whole streams

  ghost predicate AllAccepted(codec: ValueCodec, fields: seq<Field>, marker: Marker, images: seq<RowImage>) {
    forall k | 0 <= k < |images| :: EncodeChapterRow(codec, fields, marker, images[k]).Ok?
  }

  /** Every row any group writes is accepted, in the whole tree. */
  ghost predicate GroupsAccepted(codec: ValueCodec, s: Schema, rss: seq<Recordset>, marker: Marker)
    decreases s
  {
    && AllAccepted(codec, s.fields, marker, ChapterRowChanges(rss, s.fields))
    && forall i | 0 <= i < |s.children| ::
         GroupsAccepted(codec, s.children[i].schema, NestedAll(rss, s.children[i].fieldIndex), Child(s.children[i].schema.groupId))
  }

  ghost predicate ChildAccepted(codec: ValueCodec, s: Schema, rss: seq<Recordset>, i: nat)
    requires i < |s.children|
  {
    var child := s.children[i];
    GroupsAccepted(codec, child.schema, NestedAll(rss, child.fieldIndex), Child(child.schema.groupId))
  }

  lemma {:induction false} ChapterRowsAccepted(codec: ValueCodec, fields: seq<Field>, marker: Marker, images: seq<RowImage>)
    ensures EncodeChapterRows(codec, fields, marker, images).Ok? <==> AllAccepted(codec, fields, marker, images)
  {
    if images != [] {
      ChapterRowsAccepted(codec, fields, marker, images[1..]);
      assert forall k | 0 < k < |images| :: images[k] == images[1..][k - 1];
      assert forall k | 0 <= k < |images| - 1 :: images[1..][k] == images[k + 1];
    }
  }

  lemma {:induction false} GroupsWritten(codec: ValueCodec, s: Schema, rss: seq<Recordset>, marker: Marker)
    ensures WriteGroups(codec, s, rss, marker).Ok? <==> GroupsAccepted(codec, s, rss, marker)
    decreases s, |s.children| + 1
  {
    ChapterRowsAccepted(codec, s.fields, marker, ChapterRowChanges(rss, s.fields));
    ChildGroupsWritten(codec, s, rss, 0);
    assert WriteGroups(codec, s, rss, marker).Ok?
        <==> && AllAccepted(codec, s.fields, marker, ChapterRowChanges(rss, s.fields))
             && forall i | 0 <= i < |s.children| :: ChildAccepted(codec, s, rss, i);
    forall i | 0 <= i < |s.children|
      ensures GroupsAccepted(codec, s.children[i].schema, NestedAll(rss, s.children[i].fieldIndex), Child(s.children[i].schema.groupId))
              <==> ChildAccepted(codec, s, rss, i)
    {
    }
  }

  lemma {:induction false} ChildGroupsWritten(codec: ValueCodec, s: Schema, rss: seq<Recordset>, from: nat)
    requires from <= |s.children|
    ensures WriteChildGroups(codec, s, rss, from).Ok?
            <==> forall i | from <= i < |s.children| :: ChildAccepted(codec, s, rss, i)
    decreases s, |s.children| - from
  {
    if from < |s.children| {
      var child := s.children[from];
      GroupsWritten(codec, child.schema, NestedAll(rss, child.fieldIndex), Child(child.schema.groupId));
      ChildGroupsWritten(codec, s, rss, from + 1);
      assert WriteGroups(codec, child.schema, NestedAll(rss, child.fieldIndex), Child(child.schema.groupId)).Ok?
          <==> ChildAccepted(codec, s, rss, from);
    }
  }

  /** On a tree built from row pools the chapter writer fails exactly when it refuses a row of some group. */
  lemma OnlyRowsStopTheWriter(codec: ValueCodec, fields: seq<Field>, pools: Pools)
    requires SchemasValid(fields) && ParseSchema(fields, 0, 2).Ok?
    requires PoolsShaped(ParseSchema(fields, 0, 2).value.0, pools)
    ensures var s := ParseSchema(fields, 0, 2).value.0;
            WriteChaptered(codec, fields, Materialize(s, pools)).Ok? <==> GroupsAccepted(codec, s, [Materialize(s, pools)], Root)
  {
    OnlyCellsStopTheWriter(codec, fields, pools);
    GroupsWritten(codec, ParseSchema(fields, 0, 2).value.0, [Materialize(ParseSchema(fields, 0, 2).value.0, pools)], Root);
  }

  /** The flat writer fails on a valid Recordset exactly when it refuses one of its rows. */
  lemma OnlyRowsStopTheFlatWriter(codec: ValueCodec, fields: seq<Field>, rs: Recordset)
    requires IsFlat(fields) && ShapeValid(fields, rs)
    ensures WriteFlat(codec, fields, rs).Ok? <==> forall k | 0 <= k < |Images(rs)| :: EncodeRow(codec, fields, Images(rs)[k]).Ok?
  {
    FlatRowsAccepted(codec, fields, Images(rs));
  }

  // ---------------------------------------------------------------- the markers

  /** The bytes in front of a row's parts and behind a deleted one: one byte in the root group, in a child
      group one with the high bit set and the group's id in four bytes, low byte first. */
  lemma Markers(id: nat)
    requires id < 0x1_0000_0000
    ensures MarkerBytes(Root, CURRENT) == [0x07] && MarkerBytes(Root, INSERT) == [0x0d]
    ensures MarkerBytes(Root, UPDATE) == [0x0a] && MarkerBytes(Root, DELETE) == [0x0c]
    ensures var tail := [id % 256, id / 256 % 256, id / 65_536 % 256, id / 16_777_216];
            && MarkerBytes(Child(id), CURRENT) == [0x87] + tail && MarkerBytes(Child(id), INSERT) == [0x8d] + tail
            && MarkerBytes(Child(id), UPDATE) == [0x8a] + tail && MarkerBytes(Child(id), DELETE) == [0x8c] + tail
  {
    var a, b, c := id / 256, id / 65_536, id / 16_777_216;
    DivModUnique(a, 256, b, a % 256);
    DivModUnique(b, 256, c, b % 256);
    assert LittleEndian(id, 4) == [id % 256] + LittleEndian(a, 3);
    assert LittleEndian(a, 3) == [a % 256] + LittleEndian(b, 2);
    assert LittleEndian(b, 2) == [b % 256] + LittleEndian(c, 1);
    assert LittleEndian(c, 1) == [c % 256] + LittleEndian(0, 0);
  }

  /** The parts of a flat row in order, and the byte behind the last row. */
  lemma FlatRowParts(codec: ValueCodec, fields: seq<Field>, image: RowImage)
    requires EncodeRow(codec, fields, image).Ok?
    ensures EncodeRow(codec, fields, image).value
            == match image
               case Keep(values) => [0x07] + CurrentBody(codec, fields, values).value
               case Add(values) => [0x0d] + InsertBody(codec, fields, values).value
               case Drop(values) => [0x07] + CurrentBody(codec, fields, values).value + [0x0c]
               case Edit(values, updated) =>
                 [0x07] + CurrentBody(codec, fields, values).value + [0x0a] + UpdateBody(codec, fields, updated).value
    ensures END == 0x0f
  {
  }

  /** The flat reader stops at 0x0f and takes nothing behind it. */
  lemma FlatEnd(codec: ValueCodec, fields: seq<Field>, extra: seq<byte>)
    ensures ParseFlat(codec, fields, [0x0f] + extra) == if extra == [] then Ok([]) else Err
  {
  }
}
