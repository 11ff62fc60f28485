/** Shaped Recordsets: the schema tree, one pool of rows per child schema, the join that
    builds nested Recordsets from pools, and the collection that undoes it. */
module ChapterTree {
  import opened Prelude
  import opened RecordsetModel
  import opened RowCodec

  datatype Schema = Schema(groupId: nat, fields: seq<Field>, children: seq<ChildSchema>)

  datatype ChildSchema = ChildSchema(fieldIndex: nat, relation: seq<RelationPair>, schema: Schema)

  /** `RawChapterRows`: the rows of one group and the pools of its child groups. */
  datatype Pools = Pools(rows: seq<RowImage>, children: seq<Pools>)

  // ---------------------------------------------------------------- the schema tree

  const MAX_GROUP_ID: nat := 0xffff_ffff

  /** `validate_chapter_relation` */
  predicate RelationValid(relation: seq<RelationPair>, parent: seq<Field>, child: seq<Field>) {
    && relation != []
    && (forall i | 0 <= i < |relation| ::
          && 1 <= relation[i].parentOrdinal <= |parent| && !parent[relation[i].parentOrdinal - 1].IsChapter()
          && 1 <= relation[i].childOrdinal <= |child| && !child[relation[i].childOrdinal - 1].IsChapter())
    && (forall i, j | 0 <= i < j < |relation| ::
          && relation[i].parentOrdinal != relation[j].parentOrdinal
          && relation[i].childOrdinal != relation[j].childOrdinal)
  }

  /** `adtg_schema`: one loop over the fields that takes the next group id before descending. The
      writer's schema keeps no relations. */
  function AdtgSchema(fields: seq<Field>, groupId: nat, next: nat): Result<(Schema, nat)>
    decreases fields, |fields| + 1
  {
    var built :- AdtgChildren(fields, 0, next);
    Ok((Schema(groupId, fields, built.0), built.1))
  }

  function AdtgChildren(fields: seq<Field>, from: nat, next: nat): Result<(seq<ChildSchema>, nat)>
    requires from <= |fields|
    decreases fields, |fields| - from
  {
    if from == |fields| then Ok(([], next))
    else if !fields[from].IsChapter() then AdtgChildren(fields, from + 1, next)
    else if fields[from].chapter.None? || next >= MAX_GROUP_ID then Err
    else
      var child :- AdtgSchema(fields[from].chapter.value.fields, next, next + 1);
      var rest :- AdtgChildren(fields, from + 1, child.1);
      Ok(([ChildSchema(from, [], child.0)] + rest.0, rest.1))
  }

  datatype ChapterColumn = ChapterColumn(parentIndex: nat, relation: seq<RelationPair>)

  predicate ColumnOf(fields: seq<Field>, column: ChapterColumn) {
    && column.parentIndex < |fields| && fields[column.parentIndex].IsChapter()
    && fields[column.parentIndex].chapter.Some?
    && fields[column.parentIndex].chapter.value.relation == Some(column.relation)
  }

  /** The first pass of `parse_chapter_schema`: the chapter columns, each with its relation. */
  function ChapterColumns(fields: seq<Field>, from: nat): (r: Result<seq<ChapterColumn>>)
    requires from <= |fields|
    ensures r.Ok? ==> forall k | 0 <= k < |r.value| :: ColumnOf(fields, r.value[k])
    decreases |fields| - from
  {
    if from == |fields| then Ok([])
    else if !fields[from].IsChapter() then ChapterColumns(fields, from + 1)
    else if fields[from].chapter.None? || fields[from].chapter.value.relation.None? then Err
    else
      var rest :- ChapterColumns(fields, from + 1);
      Ok([ChapterColumn(from, fields[from].chapter.value.relation.value)] + rest)
  }

  /** `parse_chapter_schema`: the second pass reads one child schema per collected column and
      checks the relation behind it. */
  function ParseSchema(fields: seq<Field>, groupId: nat, next: nat): Result<(Schema, nat)>
    decreases fields, 1, 0
  {
    var columns :- ChapterColumns(fields, 0);
    var built :- ParseChildren(fields, columns, next);
    Ok((Schema(groupId, fields, built.0), built.1))
  }

  function ParseChildren(fields: seq<Field>, columns: seq<ChapterColumn>, next: nat): Result<(seq<ChildSchema>, nat)>
    requires forall k | 0 <= k < |columns| :: ColumnOf(fields, columns[k])
    decreases fields, 0, |columns|
  {
    if columns == [] then Ok(([], next))
    else if next >= MAX_GROUP_ID then Err
    else
      var column := columns[0];
      assert ColumnOf(fields, column);
      var childFields := fields[column.parentIndex].chapter.value.fields;
      var child :- ParseSchema(childFields, next, next + 1);
      if !RelationValid(column.relation, fields, childFields) then Err
      else
        var rest :- ParseChildren(fields, columns[1..], child.1);
        Ok(([ChildSchema(column.parentIndex, column.relation, child.0)] + rest.0, rest.1))
  }

  /** A schema tree without its relations. */
  function Bare(s: Schema): Schema
    decreases s
  {
    Schema(s.groupId, s.fields, BareChildren(s.children))
  }

  function BareChildren(children: seq<ChildSchema>): (r: seq<ChildSchema>)
    ensures |r| == |children|
    decreases children
  {
    seq(|children|, i requires 0 <= i < |children| => ChildSchema(children[i].fieldIndex, [], Bare(children[i].schema)))
  }

  lemma BareFirst(child: ChildSchema, rest: seq<ChildSchema>)
    ensures BareChildren([child] + rest) == [ChildSchema(child.fieldIndex, [], Bare(child.schema))] + BareChildren(rest)
  {
  }

  /** Every chapter column of the tree has a valid relation. */
  predicate RelationsReady(fields: seq<Field>)
    decreases fields
  {
    forall i | 0 <= i < |fields| && fields[i].IsChapter() && fields[i].chapter.Some? ::
      var chapter := fields[i].chapter.value;
      && chapter.relation.Some? && RelationValid(chapter.relation.value, fields, chapter.fields)
      && RelationsReady(chapter.fields)
  }

  predicate RelationReady(fields: seq<Field>, i: nat)
    requires i < |fields|
  {
    fields[i].IsChapter() && fields[i].chapter.Some? ==>
      var chapter := fields[i].chapter.value;
      && chapter.relation.Some? && RelationValid(chapter.relation.value, fields, chapter.fields)
      && RelationsReady(chapter.fields)
  }

  lemma ReadyEverywhere(fields: seq<Field>)
    ensures RelationsReady(fields) <==> forall i | 0 <= i < |fields| :: RelationReady(fields, i)
  {
    if forall i | 0 <= i < |fields| :: RelationReady(fields, i) {
      forall i | 0 <= i < |fields| && fields[i].IsChapter() && fields[i].chapter.Some?
        ensures var chapter := fields[i].chapter.value;
                && chapter.relation.Some? && RelationValid(chapter.relation.value, fields, chapter.fields)
                && RelationsReady(chapter.fields)
      {
        assert RelationReady(fields, i);
      }
    }
  }

  /** Writer and reader number and nest the child schemas alike, whatever the field tree; the reader
      refuses a tree the writer takes exactly when a relation is missing or wrong. */
  lemma {:induction false} SchemasAgree(fields: seq<Field>, groupId: nat, next: nat)
    ensures ParseSchema(fields, groupId, next).Ok? <==> AdtgSchema(fields, groupId, next).Ok? && RelationsReady(fields)
    ensures ParseSchema(fields, groupId, next).Ok? ==>
              var parsed := ParseSchema(fields, groupId, next).value;
              AdtgSchema(fields, groupId, next) == Ok((Bare(parsed.0), parsed.1))
    decreases fields, |fields| + 1
  {
    ChildrenAgree(fields, 0, next);
    assert ParseSchema(fields, groupId, next).Ok? <==> ParseFrom(fields, 0, next).Ok?;
    ReadyEverywhere(fields);
  }

  function ParseFrom(fields: seq<Field>, from: nat, next: nat): Result<(seq<ChildSchema>, nat)>
    requires from <= |fields|
  {
    var columns :- ChapterColumns(fields, from);
    ParseChildren(fields, columns, next)
  }

  lemma {:induction false} ChildrenAgree(fields: seq<Field>, from: nat, next: nat)
    requires from <= |fields|
    ensures ParseFrom(fields, from, next).Ok?
            <==> AdtgChildren(fields, from, next).Ok? && forall i | from <= i < |fields| :: RelationReady(fields, i)
    ensures ParseFrom(fields, from, next).Ok? ==>
              var parsed := ParseFrom(fields, from, next).value;
              AdtgChildren(fields, from, next) == Ok((BareChildren(parsed.0), parsed.1))
    decreases fields, |fields| - from
  {
    if from < |fields| {
      if !fields[from].IsChapter() {
        ChildrenAgree(fields, from + 1, next);
      } else if fields[from].chapter.Some? && next < MAX_GROUP_ID {
        SchemasAgree(fields[from].chapter.value.fields, next, next + 1);
        var child := AdtgSchema(fields[from].chapter.value.fields, next, next + 1);
        if child.Ok? {
          ChildrenAgree(fields, from + 1, child.value.1);
          ChildAgrees(fields, from, next, child.value);
        }
      }
    }
  }

  lemma ChildAgrees(fields: seq<Field>, from: nat, next: nat, child: (Schema, nat))
    requires from < |fields| && fields[from].IsChapter() && fields[from].chapter.Some? && next < MAX_GROUP_ID
    requires AdtgSchema(fields[from].chapter.value.fields, next, next + 1) == Ok(child)
    requires var parsed := ParseSchema(fields[from].chapter.value.fields, next, next + 1);
             && (parsed.Ok? <==> RelationsReady(fields[from].chapter.value.fields))
             && (parsed.Ok? ==> child == (Bare(parsed.value.0), parsed.value.1))
    ensures ParseFrom(fields, from, next).Ok? <==> RelationReady(fields, from) && ParseFrom(fields, from + 1, child.1).Ok?
    ensures ParseFrom(fields, from, next).Ok? ==>
              var parsed, rest := ParseFrom(fields, from, next).value, ParseFrom(fields, from + 1, child.1).value;
              && BareChildren(parsed.0) == [ChildSchema(from, [], child.0)] + BareChildren(rest.0)
              && parsed.1 == rest.1
  {
    var columns := ChapterColumns(fields, from);
    if columns.Ok? {
      assert columns.value[1..] == ChapterColumns(fields, from + 1).value;
      var parsed := ParseFrom(fields, from, next);
      if parsed.Ok? {
        var rest := ParseFrom(fields, from + 1, child.1).value;
        assert parsed.value.0 == [parsed.value.0[0]] + rest.0;
        BareFirst(parsed.value.0[0], rest.0);
      }
    }
  }

  /** Group ids of all descendants, a child before its own children. */
  function GroupIds(children: seq<ChildSchema>): seq<nat> {
    if children == [] then []
    else [children[0].schema.groupId] + GroupIds(children[0].schema.children) + GroupIds(children[1..])
  }

  function Count(from: nat, to: nat): (r: seq<nat>)
    requires from <= to
    ensures |r| == to - from
  {
    seq(to - from, i requires 0 <= i < to - from => from + i)
  }

  /** Group ids are consecutive in preorder, so no two child schemas share one. */
  lemma {:induction false} GroupIdsArePreorder(fields: seq<Field>, groupId: nat, next: nat)
    requires AdtgSchema(fields, groupId, next).Ok?
    ensures var built := AdtgSchema(fields, groupId, next).value;
            && next <= built.1 && (built.1 <= MAX_GROUP_ID || built.1 == next)
            && GroupIds(built.0.children) == Count(next, built.1)
    decreases fields, |fields| + 1
  {
    ChildIdsArePreorder(fields, 0, next);
  }

  lemma {:induction false} ChildIdsArePreorder(fields: seq<Field>, from: nat, next: nat)
    requires from <= |fields| && AdtgChildren(fields, from, next).Ok?
    ensures var built := AdtgChildren(fields, from, next).value;
            && next <= built.1 && (built.1 <= MAX_GROUP_ID || built.1 == next)
            && GroupIds(built.0) == Count(next, built.1)
    decreases fields, |fields| - from
  {
    if from < |fields| {
      if !fields[from].IsChapter() {
        ChildIdsArePreorder(fields, from + 1, next);
      } else {
        var chapter := fields[from].chapter.value;
        GroupIdsArePreorder(chapter.fields, next, next + 1);
        var child := AdtgSchema(chapter.fields, next, next + 1).value;
        ChildIdsArePreorder(fields, from + 1, child.1);
        var built := AdtgChildren(fields, from, next).value;
        assert built.0[1..] == AdtgChildren(fields, from + 1, child.1).value.0;
      }
    }
  }

  /** Every chapter column of the tree has child columns. */
  predicate AllChapters(fields: seq<Field>) {
    forall i | 0 <= i < |fields| && fields[i].IsChapter() :: fields[i].chapter.Some? && AllChapters(fields[i].chapter.value.fields)
  }

  /** How many chapter columns there are in the whole tree, from a column on. */
  function ChapterCount(fields: seq<Field>, from: nat): nat
    requires from <= |fields|
    decreases fields, |fields| - from
  {
    if from == |fields| then 0
    else
      (if fields[from].IsChapter() && fields[from].chapter.Some? then 1 + ChapterCount(fields[from].chapter.value.fields, 0) else 0)
      + ChapterCount(fields, from + 1)
  }

  predicate ChapterFrom(fields: seq<Field>, i: nat)
    requires i < |fields|
  {
    fields[i].IsChapter() ==> fields[i].chapter.Some? && AllChapters(fields[i].chapter.value.fields)
  }

  /** The writer numbers a tree exactly when every chapter column has child columns and the last id taken is
      below 4294967295; each chapter column of the tree takes one id. */
  lemma {:induction false} SchemaAccepted(fields: seq<Field>, groupId: nat, next: nat)
    ensures var count := ChapterCount(fields, 0);
            && (AdtgSchema(fields, groupId, next).Ok? <==> AllChapters(fields) && (count == 0 || next + count <= 4_294_967_295))
            && (AdtgSchema(fields, groupId, next).Ok? ==> AdtgSchema(fields, groupId, next).value.1 == next + count)
    decreases fields, |fields| + 1
  {
    ChildrenAccepted(fields, 0, next);
    forall i | 0 <= i < |fields|
      ensures ChapterFrom(fields, i)
              <==> (fields[i].IsChapter() ==> fields[i].chapter.Some? && AllChapters(fields[i].chapter.value.fields))
    {
    }
  }

  lemma {:induction false} ChildrenAccepted(fields: seq<Field>, from: nat, next: nat)
    requires from <= |fields|
    ensures var count := ChapterCount(fields, from);
            && (AdtgChildren(fields, from, next).Ok?
                <==> (forall i | from <= i < |fields| :: ChapterFrom(fields, i)) && (count == 0 || next + count <= 4_294_967_295))
            && (AdtgChildren(fields, from, next).Ok? ==> AdtgChildren(fields, from, next).value.1 == next + count)
    decreases fields, |fields| - from
  {
    if from < |fields| {
      assert ChapterFrom(fields, from) || (fields[from].IsChapter() && (fields[from].chapter.None? || !AllChapters(fields[from].chapter.value.fields)));
      if fields[from].IsChapter() && fields[from].chapter.Some? {
        var inner := fields[from].chapter.value.fields;
        SchemaAccepted(inner, next, next + 1);
        ChildrenAccepted(fields, from + 1, next + 1 + ChapterCount(inner, 0));
      } else {
        ChildrenAccepted(fields, from + 1, next);
      }
    }
  }

  /** The reader's ids are the writer's. */
  lemma ParsedIdsArePreorder(fields: seq<Field>, groupId: nat, next: nat)
    requires ParseSchema(fields, groupId, next).Ok?
    ensures AdtgSchema(fields, groupId, next).Ok?
    ensures var parsed := ParseSchema(fields, groupId, next).value;
            && next <= parsed.1 && (parsed.1 <= MAX_GROUP_ID || parsed.1 == next)
            && GroupIds(parsed.0.children) == GroupIds(AdtgSchema(fields, groupId, next).value.0.children) == Count(next, parsed.1)
  {
    SchemasAgree(fields, groupId, next);
    GroupIdsArePreorder(fields, groupId, next);
    BareIds(ParseSchema(fields, groupId, next).value.0.children);
  }

  lemma {:induction false} BareIds(children: seq<ChildSchema>)
    ensures GroupIds(BareChildren(children)) == GroupIds(children)
  {
    if children != [] {
      assert children == [children[0]] + children[1..];
      BareFirst(children[0], children[1..]);
      BareIds(children[0].schema.children);
      BareIds(children[1..]);
    }
  }

  /** How many chapter fields precede field j. */
  function ChildIndex(fields: seq<Field>, j: nat): nat
    requires j <= |fields|
  {
    if j == 0 then 0 else ChildIndex(fields, j - 1) + if fields[j - 1].IsChapter() then 1 else 0
  }

  /** Child i of a schema belongs to its i-th chapter field. */
  predicate SchemaValid(s: Schema) {
    && |s.children| == ChildIndex(s.fields, |s.fields|)
    && (forall i | 0 <= i < |s.children| ::
          && s.children[i].fieldIndex < |s.fields|
          && s.fields[s.children[i].fieldIndex].IsChapter()
          && ChildIndex(s.fields, s.children[i].fieldIndex) == i
          && s.fields[s.children[i].fieldIndex].chapter == Some(ChapterField(s.children[i].schema.fields, Some(s.children[i].relation)))
          && RelationValid(s.children[i].relation, s.fields, s.children[i].schema.fields))
    && forall i | 0 <= i < |s.children| :: SchemaValid(s.children[i].schema)
  }

  lemma {:induction false} ChildIndexMonotone(fields: seq<Field>, i: nat, j: nat)
    requires i <= j <= |fields|
    ensures ChildIndex(fields, i) <= ChildIndex(fields, j)
    ensures i < j && fields[i].IsChapter() ==> ChildIndex(fields, i) < ChildIndex(fields, j)
    decreases j
  {
    if i < j {
      ChildIndexMonotone(fields, i, j - 1);
    }
  }

  lemma {:induction false} ParsedSchemaValid(fields: seq<Field>, groupId: nat, next: nat)
    requires ParseSchema(fields, groupId, next).Ok?
    ensures SchemaValid(ParseSchema(fields, groupId, next).value.0)
    decreases fields, |fields| + 1
  {
    ParsedChildrenValid(fields, 0, next);
  }

  predicate ChildrenValid(fields: seq<Field>, children: seq<ChildSchema>, first: nat) {
    forall i | 0 <= i < |children| ::
      && children[i].fieldIndex < |fields|
      && fields[children[i].fieldIndex].IsChapter()
      && ChildIndex(fields, children[i].fieldIndex) == first + i
      && fields[children[i].fieldIndex].chapter == Some(ChapterField(children[i].schema.fields, Some(children[i].relation)))
      && RelationValid(children[i].relation, fields, children[i].schema.fields)
      && SchemaValid(children[i].schema)
  }

  lemma {:induction false} ParsedChildrenValid(fields: seq<Field>, from: nat, next: nat)
    requires from <= |fields| && ParseFrom(fields, from, next).Ok?
    ensures var parsed := ParseFrom(fields, from, next).value.0;
            && ChildIndex(fields, from) + |parsed| == ChildIndex(fields, |fields|)
            && ChildrenValid(fields, parsed, ChildIndex(fields, from))
    decreases fields, |fields| - from
  {
    if from < |fields| {
      if !fields[from].IsChapter() {
        ParsedChildrenValid(fields, from + 1, next);
      } else {
        var columns, chapter := ChapterColumns(fields, from).value, fields[from].chapter.value;
        assert columns[1..] == ChapterColumns(fields, from + 1).value;
        ParsedSchemaValid(chapter.fields, next, next + 1);
        var child := ParseSchema(chapter.fields, next, next + 1).value;
        ParsedChildrenValid(fields, from + 1, child.1);
        var rest := ParseFrom(fields, from + 1, child.1).value.0;
        assert ParseFrom(fields, from, next).value.0 == [ChildSchema(from, chapter.relation.value, child.0)] + rest;
      }
    }
  }

  // ---------------------------------------------------------------- pools to tree

  /** `chapter_relation_matches` */
  predicate Matches(relation: seq<RelationPair>, parent: seq<Value>, child: seq<Value>) {
    forall i | 0 <= i < |relation| :: PairMatches(relation[i], parent, child)
  }

  predicate PairMatches(pair: RelationPair, parent: seq<Value>, child: seq<Value>) {
    var p := if pair.parentOrdinal == 0 then 0 else pair.parentOrdinal - 1;
    var c := if pair.childOrdinal == 0 then 0 else pair.childOrdinal - 1;
    p < |parent| && c < |child| && parent[p].Present() && child[c].Present() && parent[p] == child[c]
  }

  function Matching(relation: seq<RelationPair>, parent: seq<Value>, rows: seq<RowImage>): seq<RowImage> {
    if rows == [] then []
    else (if Matches(relation, parent, rows[0].Effective()) then [rows[0]] else []) + Matching(relation, parent, rows[1..])
  }

  lemma {:induction false} MatchingMembers(relation: seq<RelationPair>, parent: seq<Value>, rows: seq<RowImage>)
    ensures forall x :: x in Matching(relation, parent, rows) <==> x in rows && Matches(relation, parent, x.Effective())
  {
    if rows != [] {
      MatchingMembers(relation, parent, rows[1..]);
    }
  }

  /** `child_recordset_for_relation`: the nested Recordset of a row with these key values. */
  function Joined(s: Schema, kids: seq<Pools>, i: nat, key: seq<Value>): Recordset
    decreases s, 0
  {
    if i < |s.children| && i < |kids| then
      ToGraph(MaterializeRows(s.children[i].schema, kids[i].children, Matching(s.children[i].relation, key, kids[i].rows)))
    else EmptyRecordset
  }

  /** `materialize_chapter_row_values` */
  function Fill(s: Schema, kids: seq<Pools>, values: seq<Value>, key: seq<Value>): (r: seq<Value>)
    ensures |r| == |values|
    ensures forall j | 0 <= j < |values| && (j < |s.fields| ==> !s.fields[j].IsChapter()) :: r[j] == values[j]
    decreases s, 1
  {
    seq(|values|, j requires 0 <= j < |values| =>
      if j < |s.fields| && s.fields[j].IsChapter() then Chapter(Joined(s, kids, ChildIndex(s.fields, j), key)) else values[j])
  }

  /** `materialize_chapter_updated_values`: an omitted chapter stays omitted. */
  function FillPending(s: Schema, kids: seq<Pools>, values: seq<Value>, key: seq<Value>): (r: seq<Value>)
    ensures |r| == |values|
    ensures forall j | 0 <= j < |values| && (j < |s.fields| ==> !s.fields[j].IsChapter()) :: r[j] == values[j]
    decreases s, 1
  {
    seq(|values|, j requires 0 <= j < |values| =>
      if j < |s.fields| && s.fields[j].IsChapter() && values[j] != Unavailable
      then Chapter(Joined(s, kids, ChildIndex(s.fields, j), key)) else values[j])
  }

  /** `push_materialized_chapter_change` */
  function MaterializeRow(s: Schema, kids: seq<Pools>, row: RowImage): RowImage
    decreases s, 2
  {
    var key := row.Effective();
    match row
    case Keep(values) => Keep(Fill(s, kids, values, key))
    case Add(values) => Add(Fill(s, kids, values, key))
    case Drop(values) => Drop(Fill(s, kids, values, key))
    case Edit(values, updated) => Edit(Fill(s, kids, values, key), FillPending(s, kids, updated, key))
  }

  function MaterializeRows(s: Schema, kids: seq<Pools>, rows: seq<RowImage>): (r: seq<RowImage>)
    ensures |r| == |rows|
    decreases s, 3
  {
    seq(|rows|, k requires 0 <= k < |rows| => MaterializeRow(s, kids, rows[k]))
  }

  /** `materialize_chapter_schema_rows` */
  function Materialize(s: Schema, pools: Pools): Recordset {
    ToGraph(MaterializeRows(s, pools.children, pools.rows))
  }

  // ---------------------------------------------------------------- tree to pools

  /** The nested Recordsets in one column, row by row; both rows of an update count. */
  function Nested(images: seq<RowImage>, field: nat): seq<Recordset> {
    if images == [] then [] else RowChapters(images[0], field) + Nested(images[1..], field)
  }

  lemma {:induction false} NestedAppend(a: seq<RowImage>, b: seq<RowImage>, field: nat)
    ensures Nested(a + b, field) == Nested(a, field) + Nested(b, field)
  {
    if a == [] {
      assert a + b == b;
    } else {
      assert (a + b)[1..] == a[1..] + b;
      NestedAppend(a[1..], b, field);
    }
  }

  function RowChapters(image: RowImage, field: nat): seq<Recordset> {
    Cell(image.values, field) + if image.Edit? then Cell(image.updated, field) else []
  }

  function Cell(values: seq<Value>, field: nat): seq<Recordset> {
    if field < |values| && values[field].Chapter? then [values[field].recordset] else []
  }

  function AllImages(rss: seq<Recordset>): seq<RowImage> {
    if rss == [] then [] else Images(rss[0]) + AllImages(rss[1..])
  }

  /** `chapter_recordsets_for_child` */
  function NestedAll(rss: seq<Recordset>, field: nat): seq<Recordset> {
    Nested(AllImages(rss), field)
  }

  /** `chapter_row_key_indices`: the key columns, or every non-chapter column without any. */
  function KeyIndices(fields: seq<Field>): (r: seq<nat>)
    ensures forall k | 0 <= k < |r| :: r[k] < |fields| && !fields[r[k]].IsChapter()
  {
    var keys := IndicesWhere(fields, |fields|, true);
    if keys != [] then keys else IndicesWhere(fields, |fields|, false)
  }

  function IndicesWhere(fields: seq<Field>, to: nat, keysOnly: bool): (r: seq<nat>)
    requires to <= |fields|
    ensures forall k | 0 <= k < |r| :: r[k] < to && !fields[r[k]].IsChapter() && (keysOnly ==> fields[r[k]].keyColumn)
  {
    if to == 0 then []
    else
      IndicesWhere(fields, to - 1, keysOnly)
      + if !fields[to - 1].IsChapter() && (keysOnly ==> fields[to - 1].keyColumn) then [to - 1] else []
  }

  /** `chapter_change_key`: the change kind and the key cells of all its rows. */
  datatype ChangeKey = ChangeKey(kind: ChangeKind, cells: seq<Value>)

  function KeyCells(values: seq<Value>, indices: seq<nat>): (r: seq<Value>)
    ensures |r| == |indices|
  {
    seq(|indices|, k requires 0 <= k < |indices| => if indices[k] < |values| then values[indices[k]] else Null)
  }

  function KeyOf(image: RowImage, indices: seq<nat>): ChangeKey {
    ChangeKey(image.Kind(), KeyCells(image.values, indices) + if image.Edit? then KeyCells(image.updated, indices) else [])
  }

  /** A change group with the key it is deduplicated by and the row image that is written. */
  datatype Candidate = Candidate(key: ChangeKey, image: RowImage)

  function GroupCells(rs: Recordset, rows: seq<nat>, indices: seq<nat>): seq<Value> {
    if rows == [] then [] else KeyCells(ValuesAt(rs, rows[0]), indices) + GroupCells(rs, rows[1..], indices)
  }

  /** The key spans every row of the group, but only the first row is ever written. */
  function GroupCandidate(rs: Recordset, change: RowChange, indices: seq<nat>): seq<Candidate> {
    var images := ChangeImages(rs, change);
    if images == [] then []
    else [Candidate(ChangeKey(change.kind, GroupCells(rs, change.rowIndices, indices)), images[0])]
  }

  function CandidatesFrom(rs: Recordset, changes: seq<RowChange>, indices: seq<nat>): seq<Candidate> {
    if changes == [] then [] else GroupCandidate(rs, changes[0], indices) + CandidatesFrom(rs, changes[1..], indices)
  }

  function AllCandidates(rss: seq<Recordset>, indices: seq<nat>): seq<Candidate> {
    if rss == [] then [] else CandidatesFrom(rss[0], rss[0].changes, indices) + AllCandidates(rss[1..], indices)
  }

  /** Keep the first candidate of every key. */
  function Dedup(candidates: seq<Candidate>, seen: set<ChangeKey>): seq<RowImage> {
    if candidates == [] then []
    else
      var first := candidates[0];
      (if first.key in seen then [] else [first.image]) + Dedup(candidates[1..], seen + {first.key})
  }

  /** `chapter_row_changes` */
  function ChapterRowChanges(rss: seq<Recordset>, fields: seq<Field>): seq<RowImage> {
    Dedup(AllCandidates(rss, KeyIndices(fields)), {})
  }

  /** Every pool the writer emits, shaped like the schema tree. */
  function CollectPools(s: Schema, rss: seq<Recordset>): Pools {
    Pools(ChapterRowChanges(rss, s.fields),
          seq(|s.children|, i requires 0 <= i < |s.children| =>
            CollectPools(s.children[i].schema, NestedAll(rss, s.children[i].fieldIndex))))
  }

  // ---------------------------------------------------------------- what the bytes keep

  /** `write_chapter_update_values`: only changed plain cells are written. */
  function Delta(fields: seq<Field>, values: seq<Value>, updated: seq<Value>): (r: seq<Value>)
    requires |values| == |updated| == |fields|
    ensures |r| == |fields|
  {
    seq(|fields|, i requires 0 <= i < |fields| =>
      if fields[i].IsChapter() || values[i] == updated[i] then Unavailable else updated[i])
  }

  predicate Arity(fields: seq<Field>, image: RowImage) {
    |image.values| == |fields| && (image.Edit? ==> |image.updated| == |fields|)
  }

  /** A row as it is read back: blank chapter cells, and updates reduced to their changes. */
  function Stored(fields: seq<Field>, image: RowImage): (r: RowImage)
    ensures r.Kind() == image.Kind()
    ensures Arity(fields, image) ==> Arity(fields, r)
  {
    if !Arity(fields, image) then image
    else
      match image
      case Keep(values) => Keep(Settled(fields, values))
      case Add(values) => Add(Settled(fields, values))
      case Drop(values) => Drop(Settled(fields, values))
      case Edit(values, updated) => Edit(Settled(fields, values), Delta(fields, values, updated))
  }

  function StoredRows(fields: seq<Field>, rows: seq<RowImage>): (r: seq<RowImage>)
    ensures |r| == |rows|
  {
    seq(|rows|, k requires 0 <= k < |rows| => Stored(fields, rows[k]))
  }

  function StoredPools(s: Schema, pools: Pools): Pools
    decreases s
  {
    Pools(StoredRows(s.fields, pools.rows),
          seq(|s.children|, i requires 0 <= i < |s.children| =>
            if i < |pools.children| then StoredPools(s.children[i].schema, pools.children[i]) else Pools([], [])))
  }
}
