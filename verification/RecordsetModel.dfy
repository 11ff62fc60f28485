/** The in-memory Recordset: fields, rows, and the change groups that reference the rows. */
module RecordsetModel {
  import opened Prelude

  datatype ChangeKind = Current | Insert | Update | Delete

  datatype RowState = Current | Original | Updated | Inserted | Deleted

  datatype Status = Unmodified | Modified | New | Deleted

  /** Binary floats are left out; every other value kind of the source is here. */
  datatype Value =
    | Empty
    | Null
    | Unavailable
    | String(text: string)
    | Boolean(flag: bool)
    | Integer(number: int)
    | UnsignedInteger(natural: nat)
    | Decimal(text: string)
    | Date(text: string)
    | Time(text: string)
    | DateTime(text: string)
    | Guid(text: string)
    | BinaryHex(text: string)
    | Chapter(recordset: Recordset)
  {
    /** Neither null nor omitted. */
    predicate Present() {
      this != Null && this != Unavailable
    }
  }

  datatype Row = Row(ordinal: nat, state: RowState, status: seq<Status>, changeIndex: Option<nat>, values: seq<Value>)

  datatype RowChange = RowChange(kind: ChangeKind, rowIndices: seq<nat>)

  /** A nested Recordset repeats its parent's `chapter_fields`, so fields travel separately. */
  datatype Recordset = Recordset(rows: seq<Row>, changes: seq<RowChange>)

  datatype RelationPair = RelationPair(parentOrdinal: nat, childOrdinal: nat)

  /** `nullable` is the attribute test `& 0x60`, `keyColumn` the test `& 0x8000`. */
  datatype Field = Field(xmlName: string, typeCode: nat, nullable: bool, keyColumn: bool, chapter: Option<ChapterField>)
  {
    predicate IsChapter() {
      typeCode == 136
    }
    /** `descriptor_allows_null_mask` and `chapter_row_mask_field`. */
    predicate Masked() {
      IsChapter() || nullable
    }
  }

  /** The model permits a chapter column without a relation; only the ADTG reader demands one. */
  datatype ChapterField = ChapterField(fields: seq<Field>, relation: Option<seq<RelationPair>>)

  const EmptyRecordset := Recordset([], [])

  function StatusOf(state: RowState): Status {
    match state
    case Current => Unmodified
    case Original => Modified
    case Updated => Modified
    case Inserted => New
    case Deleted => Status.Deleted
  }

  /** One row change on its own: an update carries the original and the pending values. */
  datatype RowImage =
    | Keep(values: seq<Value>)
    | Add(values: seq<Value>)
    | Drop(values: seq<Value>)
    | Edit(values: seq<Value>, updated: seq<Value>)
  {
    function Kind(): ChangeKind {
      match this
      case Keep(_) => ChangeKind.Current
      case Add(_) => Insert
      case Drop(_) => Delete
      case Edit(_, _) => Update
    }
    function State(): RowState {
      match this
      case Keep(_) => RowState.Current
      case Add(_) => Inserted
      case Drop(_) => RowState.Deleted
      case Edit(_, _) => Original
    }
    /** The relation key of a row is looked up in its pending values. */
    function Effective(): seq<Value> {
      match this
      case Edit(values, updated) => Overlay(values, updated)
      case _ => values
    }
  }

  /** `overlay_unavailable_values` */
  function Overlay(original: seq<Value>, updated: seq<Value>): (r: seq<Value>)
    ensures |r| == if |original| <= |updated| then |original| else |updated|
    ensures forall i | 0 <= i < |r| :: r[i] == if updated[i] == Unavailable then original[i] else updated[i]
  {
    seq(if |original| <= |updated| then |original| else |updated|,
        i requires 0 <= i < |original| && i < |updated| => if updated[i] == Unavailable then original[i] else updated[i])
  }

  // ---------------------------------------------------------------- building the graph

  function NewRow(rs: Recordset, state: RowState, values: seq<Value>): Row {
    Row(|rs.rows|, state, [StatusOf(state)], Some(|rs.changes|), values)
  }

  /** `push_change` and `push_update_change` */
  function Push(rs: Recordset, image: RowImage): Recordset {
    var first := NewRow(rs, image.State(), image.values);
    match image
    case Edit(_, updated) =>
      var withOriginal := rs.(rows := rs.rows + [first]);
      Recordset(withOriginal.rows + [NewRow(withOriginal, Updated, updated)],
                rs.changes + [RowChange(Update, [|rs.rows|, |rs.rows| + 1])])
    case _ =>
      Recordset(rs.rows + [first], rs.changes + [RowChange(image.Kind(), [|rs.rows|])])
  }

  /** The graph a reader builds by pushing one change per image. */
  function ToGraph(images: seq<RowImage>): Recordset {
    if images == [] then EmptyRecordset
    else Push(ToGraph(images[..|images| - 1]), images[|images| - 1])
  }

  lemma ToGraphSnoc(images: seq<RowImage>, image: RowImage)
    ensures ToGraph(images + [image]) == Push(ToGraph(images), image)
  {
    assert (images + [image])[..|images|] == images;
  }

  // ---------------------------------------------------------------- reading the graph

  /** `recordset.rows.get(index)`, empty where a validated graph never looks. */
  function ValuesAt(rs: Recordset, index: nat): seq<Value> {
    if index < |rs.rows| then rs.rows[index].values else []
  }

  function ImageOf(kind: ChangeKind, values: seq<Value>): RowImage {
    match kind
    case Insert => Add(values)
    case Delete => Drop(values)
    case _ => Keep(values)
  }

  function SplitGroup(rs: Recordset, kind: ChangeKind, indices: seq<nat>): (r: seq<RowImage>)
    ensures |r| == |indices|
  {
    seq(|indices|, i requires 0 <= i < |indices| => ImageOf(kind, ValuesAt(rs, indices[i])))
  }

  /** The images of one change group; an update group is one image. */
  function ChangeImages(rs: Recordset, change: RowChange): seq<RowImage> {
    if change.kind == Update then
      if |change.rowIndices| == 2
      then [Edit(ValuesAt(rs, change.rowIndices[0]), ValuesAt(rs, change.rowIndices[1]))]
      else []
    else SplitGroup(rs, change.kind, change.rowIndices)
  }

  function ImagesFrom(rs: Recordset, changes: seq<RowChange>): seq<RowImage> {
    if changes == [] then [] else ChangeImages(rs, changes[0]) + ImagesFrom(rs, changes[1..])
  }

  /** A Recordset as the list of its row changes, in change order. */
  function Images(rs: Recordset): seq<RowImage> {
    ImagesFrom(rs, rs.changes)
  }

  lemma {:induction false} ImagesFromAppend(rs: Recordset, a: seq<RowChange>, b: seq<RowChange>)
    ensures ImagesFrom(rs, a + b) == ImagesFrom(rs, a) + ImagesFrom(rs, b)
  {
    if a == [] {
      assert a + b == b;
    } else {
      assert (a + b)[1..] == a[1..] + b;
      ImagesFromAppend(rs, a[1..], b);
    }
  }

  // ---------------------------------------------------------------- the validated graph

  /** `validate_change_states` */
  predicate StatesFit(kind: ChangeKind, states: seq<RowState>) {
    match kind
    case Current => forall i | 0 <= i < |states| :: states[i] == RowState.Current
    case Insert => forall i | 0 <= i < |states| :: states[i] == Inserted
    case Delete => forall i | 0 <= i < |states| :: states[i] == RowState.Deleted
    case Update => states == [Original, Updated]
  }

  predicate Distinct<T(==)>(xs: seq<T>) {
    forall i, j | 0 <= i < j < |xs| :: xs[i] != xs[j]
  }

  function StatesOf(rs: Recordset, indices: seq<nat>): (r: seq<RowState>)
    requires forall i | 0 <= i < |indices| :: indices[i] < |rs.rows|
    ensures |r| == |indices|
  {
    seq(|indices|, i requires 0 <= i < |indices| => rs.rows[indices[i]].state)
  }

  predicate RowLinked(rs: Recordset, i: nat)
    requires i < |rs.rows|
  {
    var row := rs.rows[i];
    && row.ordinal == i
    && row.changeIndex.Some?
    && row.changeIndex.value < |rs.changes|
    && i in rs.changes[row.changeIndex.value].rowIndices
    && row.status == [StatusOf(row.state)]
  }

  predicate ChangeLinked(rs: Recordset, c: nat)
    requires c < |rs.changes|
  {
    var change := rs.changes[c];
    && change.rowIndices != []
    && Distinct(change.rowIndices)
    && (forall k | 0 <= k < |change.rowIndices| ::
          change.rowIndices[k] < |rs.rows| && rs.rows[change.rowIndices[k]].changeIndex == Some(c))
    && StatesFit(change.kind, StatesOf(rs, change.rowIndices))
  }

  /** The row and change clauses of `validate_recordset_shape_at`. */
  predicate GraphValid(rs: Recordset) {
    && (forall i | 0 <= i < |rs.rows| :: RowLinked(rs, i))
    && (forall c | 0 <= c < |rs.changes| :: ChangeLinked(rs, c))
  }

  lemma PushValid(rs: Recordset, image: RowImage)
    requires GraphValid(rs)
    ensures GraphValid(Push(rs, image))
  {
    var out := Push(rs, image);
    forall i | 0 <= i < |out.rows| ensures RowLinked(out, i) {
      if i < |rs.rows| {
        assert RowLinked(rs, i);
      }
    }
    forall c | 0 <= c < |out.changes| ensures ChangeLinked(out, c) {
      if c < |rs.changes| {
        assert ChangeLinked(rs, c);
        assert StatesOf(out, out.changes[c].rowIndices) == StatesOf(rs, rs.changes[c].rowIndices);
      }
    }
  }

  /** A pushed image is read back as itself and disturbs no earlier one. */
  lemma PushImages(rs: Recordset, image: RowImage)
    requires GraphValid(rs)
    ensures Images(Push(rs, image)) == Images(rs) + [image]
  {
    var out := Push(rs, image);
    ImagesFromAppend(out, rs.changes, [out.changes[|rs.changes|]]);
    assert out.changes == rs.changes + [out.changes[|rs.changes|]];
    ImagesUnchanged(rs, out, 0);
    assert ImagesFrom(out, [out.changes[|rs.changes|]]) == [image] + ImagesFrom(out, []);
  }

  lemma {:induction false} ImagesUnchanged(rs: Recordset, out: Recordset, from: nat)
    requires GraphValid(rs) && from <= |rs.changes| && rs.rows <= out.rows
    ensures ImagesFrom(out, rs.changes[from..]) == ImagesFrom(rs, rs.changes[from..])
    decreases |rs.changes| - from
  {
    if from < |rs.changes| {
      assert ChangeLinked(rs, from);
      ImagesUnchanged(rs, out, from + 1);
      assert rs.changes[from..][1..] == rs.changes[from + 1..];
      assert SplitGroup(out, rs.changes[from].kind, rs.changes[from].rowIndices)
          == SplitGroup(rs, rs.changes[from].kind, rs.changes[from].rowIndices);
    }
  }

  /** The parsers' graph always satisfies the validator, and reading its changes back gives
      exactly the images it was built from. */
  lemma {:induction false} GraphRoundTrip(images: seq<RowImage>)
    ensures GraphValid(ToGraph(images))
    ensures Images(ToGraph(images)) == images
  {
    if images != [] {
      var init, last := images[..|images| - 1], images[|images| - 1];
      GraphRoundTrip(init);
      PushValid(ToGraph(init), last);
      PushImages(ToGraph(init), last);
      assert images == init + [last];
    }
  }

  // ---------------------------------------------------------------- validated cells

  /** The cell clauses of the validator that concern row state and chapters. */
  predicate CellsValid(fields: seq<Field>, state: RowState, values: seq<Value>) {
    && |values| == |fields|
    && forall i | 0 <= i < |fields| ::
         && (values[i] == Unavailable ==> state == Updated)
         && (values[i] != Unavailable ==> fields[i].IsChapter() == values[i].Chapter?)
  }

  predicate ImageValid(fields: seq<Field>, image: RowImage) {
    && CellsValid(fields, image.State(), image.values)
    && (image.Edit? ==> CellsValid(fields, Updated, image.updated))
  }

  predicate ImagesValid(fields: seq<Field>, images: seq<RowImage>) {
    forall i | 0 <= i < |images| :: ImageValid(fields, images[i])
  }

  predicate ShapeValid(fields: seq<Field>, rs: Recordset) {
    && GraphValid(rs)
    && forall i | 0 <= i < |rs.rows| :: CellsValid(fields, rs.rows[i].state, rs.rows[i].values)
  }

  lemma {:induction false} ShapeGivesImages(fields: seq<Field>, rs: Recordset, from: nat)
    requires ShapeValid(fields, rs) && from <= |rs.changes|
    ensures ImagesValid(fields, ImagesFrom(rs, rs.changes[from..]))
    decreases |rs.changes| - from
  {
    if from < |rs.changes| {
      var change := rs.changes[from];
      assert ChangeLinked(rs, from);
      var states := StatesOf(rs, change.rowIndices);
      assert forall k | 0 <= k < |change.rowIndices| :: states[k] == rs.rows[change.rowIndices[k]].state;
      if change.kind == Update {
        assert states[0] == Original && states[1] == Updated;
      }
      assert ImagesValid(fields, ChangeImages(rs, change));
      ShapeGivesImages(fields, rs, from + 1);
      assert rs.changes[from..][1..] == rs.changes[from + 1..];
    }
  }
}
