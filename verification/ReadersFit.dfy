/** Whatever the input, what the flat readers return fits the columns: no row too short or too long,
    nothing omitted outside pending rows, nulls only where a column may be null. */
module ReadersFit {
  import opened Prelude
  import Masks
  import opened RecordsetModel
  import opened RowCodec
  import opened FlatStream
  import opened ChapterPipeline
  import opened Updategram
  import opened UpdategramRows
  import opened UpdategramTree
  import opened UpdategramWriter

  predicate NullsFit(fields: seq<Field>, values: seq<Value>) {
    |values| == |fields| && forall i | 0 <= i < |fields| && values[i] == Null :: fields[i].nullable
  }

  predicate ImageFits(fields: seq<Field>, image: RowImage) {
    && ImageValid(fields, image)
    && NullsFit(fields, image.values) && (image.Edit? ==> NullsFit(fields, image.updated))
  }

  // ---------------------------------------------------------------- ADTG

  lemma {:induction false} SpreadKeepsRequired(fields: seq<Field>, bits: seq<bool>)
    requires |bits| == MaskedCount(fields)
    ensures forall i | 0 <= i < |fields| && !Spread(fields, bits)[i] :: fields[i].Masked()
  {
    if fields != [] {
      SpreadKeepsRequired(fields[1..], if fields[0].Masked() then bits[1..] else bits);
    }
  }

  lemma {:induction false} AbsentIsNull(codec: ValueCodec, fields: seq<Field>, present: seq<bool>, bytes: seq<byte>)
    requires NeverNull(codec, fields) && |present| == |fields| && ReadValues(codec, fields, present, bytes).Ok?
    ensures forall i | 0 <= i < |fields| && ReadValues(codec, fields, present, bytes).value.0[i] == Null :: !present[i]
  {
    if fields != [] {
      var head := ReadOne(codec, fields[0], present[0], bytes).value;
      assert NeverNull(codec, fields[1..]) by {
        assert forall i | 0 <= i < |fields[1..]| :: fields[1..][i] == fields[i + 1];
      }
      AbsentIsNull(codec, fields[1..], present[1..], head.1);
    }
  }

  lemma {:induction false} PendingNull(codec: ValueCodec, fields: seq<Field>, nonNull: seq<bool>, nulls: seq<bool>, bytes: seq<byte>)
    requires NeverNull(codec, fields) && |nonNull| == |nulls| == |fields| && ReadUpdates(codec, fields, nonNull, nulls, bytes).Ok?
    ensures forall i | 0 <= i < |fields| && ReadUpdates(codec, fields, nonNull, nulls, bytes).value.0[i] == Null :: nulls[i]
  {
    if fields != [] {
      var head := ReadUpdate(codec, fields[0], nonNull[0], nulls[0], bytes).value;
      assert NeverNull(codec, fields[1..]) by {
        assert forall i | 0 <= i < |fields[1..]| :: fields[1..][i] == fields[i + 1];
      }
      PendingNull(codec, fields[1..], nonNull[1..], nulls[1..], head.1);
    }
  }

  lemma CurrentFits(codec: ValueCodec, fields: seq<Field>, bytes: seq<byte>, state: RowState)
    requires IsFlat(fields) && PlainCodec(codec) && NeverNull(codec, fields) && ReadCurrent(codec, fields, bytes).Ok?
    ensures var values := ReadCurrent(codec, fields, bytes).value.0; CellsValid(fields, state, values) && NullsFit(fields, values)
  {
    var presence := RowPresence(bytes, fields).value;
    ReadCurrentFits(codec, fields, bytes, state);
    AbsentIsNull(codec, fields, presence.0, presence.1);
    var count := MaskedCount(fields);
    if count == 0 {
      SpreadKeepsRequired(fields, []);
    } else {
      var mask := ReadMask(bytes, count).value.0;
      SpreadKeepsRequired(fields, Masks.Bits(mask, count));
    }
  }

  lemma InsertFits(codec: ValueCodec, fields: seq<Field>, bytes: seq<byte>, state: RowState)
    requires IsFlat(fields) && PlainCodec(codec) && NeverNull(codec, fields) && ReadInsert(codec, fields, bytes).Ok?
    ensures var values := ReadInsert(codec, fields, bytes).value.0; CellsValid(fields, state, values) && NullsFit(fields, values)
  {
    var masks := ValueMasks(bytes, fields, true).value;
    ReadCurrentFits(codec, fields, bytes, state);
    AbsentIsNull(codec, fields, masks.0, masks.2);
    assert MasksConsistent(fields, masks.0, masks.1, true);
  }

  lemma PendingFits(codec: ValueCodec, fields: seq<Field>, bytes: seq<byte>)
    requires IsFlat(fields) && PlainCodec(codec) && NeverNull(codec, fields) && ReadUpdateValues(codec, fields, bytes).Ok?
    ensures var values := ReadUpdateValues(codec, fields, bytes).value.0; CellsValid(fields, Updated, values) && NullsFit(fields, values)
  {
    var masks := ValueMasks(bytes, fields, false).value;
    ReadUpdatesFit(codec, fields, masks.0, masks.1, masks.2);
    PendingNull(codec, fields, masks.0, masks.1, masks.2);
    assert MasksConsistent(fields, masks.0, masks.1, false);
  }

  lemma FinishFits(codec: ValueCodec, fields: seq<Field>, values: seq<Value>, bytes: seq<byte>)
    requires IsFlat(fields) && PlainCodec(codec) && NeverNull(codec, fields) && FinishCurrent(codec, fields, values, bytes).Ok?
    requires NullsFit(fields, values) && forall state :: CellsValid(fields, state, values)
    ensures ImageFits(fields, FinishCurrent(codec, fields, values, bytes).value.0)
  {
    if bytes != [] && bytes[0] == UPDATE {
      PendingFits(codec, fields, bytes[1..]);
    }
  }

  lemma StepFits(codec: ValueCodec, fields: seq<Field>, bytes: seq<byte>)
    requires bytes != [] && IsFlat(fields) && PlainCodec(codec) && NeverNull(codec, fields) && StepFlat(codec, fields, bytes).Ok?
    ensures ImageFits(fields, StepFlat(codec, fields, bytes).value.0)
  {
    if bytes[0] == CURRENT {
      var row := ReadCurrent(codec, fields, bytes[1..]).value;
      forall state ensures CellsValid(fields, state, row.0) {
        CurrentFits(codec, fields, bytes[1..], state);
      }
      CurrentFits(codec, fields, bytes[1..], RowState.Current);
      FinishFits(codec, fields, row.0, row.1);
    } else {
      InsertFits(codec, fields, if bytes[0] == INSERT then bytes[1..] else bytes, Inserted);
    }
  }

  lemma {:induction false} ParsedRowsFit(codec: ValueCodec, fields: seq<Field>, bytes: seq<byte>)
    requires IsFlat(fields) && PlainCodec(codec) && NeverNull(codec, fields) && ParseFlat(codec, fields, bytes).Ok?
    ensures var images := ParseFlat(codec, fields, bytes).value; forall k | 0 <= k < |images| :: ImageFits(fields, images[k])
    decreases |bytes|
  {
    if bytes != [] && bytes[0] != END {
      StepFits(codec, fields, bytes);
      ParsedRowsFit(codec, fields, StepFlat(codec, fields, bytes).value.1);
    }
  }

  lemma {:induction false} GraphFits(fields: seq<Field>, images: seq<RowImage>)
    requires forall k | 0 <= k < |images| :: ImageFits(fields, images[k])
    ensures ShapeValid(fields, ToGraph(images))
    ensures forall i | 0 <= i < |ToGraph(images).rows| :: NullsFit(fields, ToGraph(images).rows[i].values)
  {
    GraphRoundTrip(images);
    if images != [] {
      var init, last := images[..|images| - 1], images[|images| - 1];
      GraphFits(fields, init);
      assert ImageFits(fields, last);
    }
  }

  /** No bytes can make the flat reader return a Recordset the validator refuses, or a null in a column
      that may not be null. */
  lemma FlatReadIsValid(codec: ValueCodec, fields: seq<Field>, bytes: seq<byte>)
    requires IsFlat(fields) && PlainCodec(codec) && NeverNull(codec, fields) && ParseFlat(codec, fields, bytes).Ok?
    ensures var rs := ToGraph(ParseFlat(codec, fields, bytes).value);
            ShapeValid(fields, rs) && forall i | 0 <= i < |rs.rows| :: NullsFit(fields, rs.rows[i].values)
  {
    ParsedRowsFit(codec, fields, bytes);
    GraphFits(fields, ParseFlat(codec, fields, bytes).value);
  }

  // ---------------------------------------------------------------- XML

  /** The value parser yields values, neither nulls nor omitted cells nor nested Recordsets. */
  ghost predicate PlainXmlCodec(codec: XmlCodec) {
    forall text: string, field | codec.parse(text, field).Ok? ::
      codec.parse(text, field).value.Present() && !codec.parse(text, field).value.Chapter?
  }

  lemma {:induction false} ParsedCellsFit(codec: XmlCodec, fields: seq<Field>, content: RowContent, state: RowState)
    requires PlainXmlCodec(codec) && ParseCells(codec, fields, content, state).Ok?
    ensures var values := ParseCells(codec, fields, content, state).value;
            && NullsFit(fields, values)
            && forall i | 0 <= i < |fields| :: !values[i].Chapter? && (values[i] == Unavailable ==> state == Updated)
  {
    if fields != [] {
      ParsedCellsFit(codec, fields[..|fields| - 1], content, state);
    }
  }

  /** No element tree can make the updategram reader return a Recordset the validator refuses, or a null in
      a column that may not be null. */
  lemma UpdategramReadIsValid(codec: XmlCodec, fields: seq<Field>, nodes: seq<Node>)
    requires IsFlat(fields) && PlainXmlCodec(codec) && ParseRows(Builder(codec, fields), nodes).Ok?
    ensures var rs := ParseRows(Builder(codec, fields), nodes).value;
            ShapeValid(fields, rs) && forall i | 0 <= i < |rs.rows| :: NullsFit(fields, rs.rows[i].values)
  {
    var build := Builder(codec, fields);
    var rs, entries := ParseRows(build, nodes).value, Entries(AllItems(nodes, RowState.Current));
    WalkYieldsValidGraph(build, nodes);
    RowsAreEntries(build, nodes);
    forall i | 0 <= i < |rs.rows| ensures CellsValid(fields, rs.rows[i].state, rs.rows[i].values) && NullsFit(fields, rs.rows[i].values) {
      assert build(entries[i].content, entries[i].state) == Ok(rs.rows[i].values);
      ParsedCellsFit(codec, fields, entries[i].content, entries[i].state);
    }
  }
}
