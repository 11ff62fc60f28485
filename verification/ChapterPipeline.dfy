/** Shaped ADTG end to end: tree to pools to bytes to pools to tree. */
module ChapterPipeline {
  import opened Prelude
  import opened RecordsetModel
  import opened RowGraph
  import opened RowCodec
  import opened ChapterTree
  import opened ChapterJoin
  import opened ChapterViews
  import opened ChapterBytes
  import opened ChapterKept

  // ---------------------------------------------------------------- the entry points

  /** The validator on a tree: every nested Recordset fits its column's child fields. */
  predicate TreeValid(fields: seq<Field>, rs: Recordset)
    decreases rs
  {
    && ShapeValid(fields, rs)
    && forall i | 0 <= i < |rs.rows| :: RowTreeValid(fields, rs.rows[i])
  }

  predicate RowTreeValid(fields: seq<Field>, row: Row)
    decreases row
  {
    forall j | 0 <= j < |row.values| && j < |fields| :: CellTreeValid(fields[j], row.values[j])
  }

  predicate CellTreeValid(field: Field, value: Value)
    decreases value
  {
    value.Chapter? && field.chapter.Some? ==> TreeValid(field.chapter.value.fields, value.recordset)
  }

  /** `validate_chapter_relations` and `validate_chapter_field_schemas`: a relation may be missing. */
  predicate SchemasValid(fields: seq<Field>)
    decreases fields
  {
    && fields != []
    && forall i | 0 <= i < |fields| && fields[i].chapter.Some? ::
         var chapter := fields[i].chapter.value;
         && fields[i].IsChapter()
         && (chapter.relation.Some? ==> RelationValid(chapter.relation.value, fields, chapter.fields))
         && SchemasValid(chapter.fields)
  }

  /** `write_adtg_with_options` for a shaped Recordset, from the first row byte. */
  function WriteChaptered(codec: ValueCodec, fields: seq<Field>, rs: Recordset): Result<seq<byte>> {
    if !SchemasValid(fields) || !TreeValid(fields, rs) then Err
    else
      var schema :- AdtgSchema(fields, 0, 2);
      var rows :- WriteGroups(codec, schema.0, [rs], Root);
      Ok(rows + [END])
  }

  /** `parse_chaptered_adtg` after the descriptors. */
  function ReadChaptered(codec: ValueCodec, fields: seq<Field>, bytes: seq<byte>): Result<Recordset> {
    var schema :- ParseSchema(fields, 0, 2);
    if schema.0.children == [] then Err
    else
      var pools :- ReadTree(codec, schema.0, bytes);
      Ok(Materialize(schema.0, pools))
  }

  // ---------------------------------------------------------------- the writer's schema and the reader's

  /** The writer never looks at a relation. */
  lemma {:induction false} BareWrites(codec: ValueCodec, s: Schema, rss: seq<Recordset>, marker: Marker)
    ensures WriteGroups(codec, Bare(s), rss, marker) == WriteGroups(codec, s, rss, marker)
    decreases s, |s.children| + 1
  {
    BareWritesChildren(codec, s, rss, 0);
  }

  lemma {:induction false} BareWritesChildren(codec: ValueCodec, s: Schema, rss: seq<Recordset>, from: nat)
    requires from <= |s.children|
    ensures WriteChildGroups(codec, Bare(s), rss, from) == WriteChildGroups(codec, s, rss, from)
    decreases s, |s.children| - from
  {
    if from < |s.children| {
      var child := s.children[from];
      BareWrites(codec, child.schema, NestedAll(rss, child.fieldIndex), Child(child.schema.groupId));
      BareWritesChildren(codec, s, rss, from + 1);
    }
  }

  /** What the writer emits under its own schema is what it would emit under the reader's. */
  lemma WrittenUnderParsed(codec: ValueCodec, fields: seq<Field>, rss: seq<Recordset>)
    requires ParseSchema(fields, 0, 2).Ok?
    ensures AdtgSchema(fields, 0, 2).Ok?
    ensures WriteGroups(codec, AdtgSchema(fields, 0, 2).value.0, rss, Root) == WriteGroups(codec, ParseSchema(fields, 0, 2).value.0, rss, Root)
  {
    SchemasAgree(fields, 0, 2);
    BareWrites(codec, ParseSchema(fields, 0, 2).value.0, rss, Root);
  }

  predicate AllRelated(fields: seq<Field>)
    decreases fields
  {
    forall i | 0 <= i < |fields| && fields[i].chapter.Some? ::
      fields[i].chapter.value.relation.Some? && AllRelated(fields[i].chapter.value.fields)
  }

  lemma {:induction false} RelatedIsReady(fields: seq<Field>)
    requires SchemasValid(fields)
    ensures RelationsReady(fields) <==> AllRelated(fields)
    decreases fields
  {
    forall i | 0 <= i < |fields| && fields[i].chapter.Some?
      ensures RelationsReady(fields[i].chapter.value.fields) <==> AllRelated(fields[i].chapter.value.fields)
    {
      RelatedIsReady(fields[i].chapter.value.fields);
    }
  }

  /** The writer takes a tree without some relation, and the reader then accepts no bytes at all for
      it; with every relation present it gets its schema. */
  lemma ReaderNeedsRelations(codec: ValueCodec, fields: seq<Field>, rs: Recordset)
    requires WriteChaptered(codec, fields, rs).Ok?
    ensures ParseSchema(fields, 0, 2).Ok? <==> AllRelated(fields)
    ensures !AllRelated(fields) ==> forall bytes :: ReadChaptered(codec, fields, bytes).Err?
  {
    SchemasAgree(fields, 0, 2);
    RelatedIsReady(fields);
  }

  /** A plain column and a chapter column of such columns without a relation. */
  predicate Unrelated(fields: seq<Field>) {
    && |fields| == 2 && !fields[0].IsChapter() && fields[0].chapter.None?
    && fields[1].IsChapter() && fields[1].chapter == Some(ChapterField([fields[0]], None))
  }

  /** An empty Recordset of these columns is written and cannot be read. */
  lemma UnrelatedIsUnreadable(codec: ValueCodec)
    ensures var number := Field("n", 3, true, false, None);
            var fields := [number, Field("c", 136, true, false, Some(ChapterField([number], None)))];
            && WriteChaptered(codec, fields, EmptyRecordset) == Ok([END])
            && ReadChaptered(codec, fields, [END]).Err?
  {
    var number := Field("n", 3, true, false, None);
    var fields := [number, Field("c", 136, true, false, Some(ChapterField([number], None)))];
    EmptyIsWritten(codec, fields);
    EmptyIsUnreadable(codec, fields, [END]);
  }

  lemma {:induction false} EmptyIsUnreadable(codec: ValueCodec, fields: seq<Field>, bytes: seq<byte>)
    requires Unrelated(fields)
    ensures ReadChaptered(codec, fields, bytes).Err?
  {
    assert ChapterColumns(fields, 1).Err?;
  }

  lemma {:induction false} EmptyIsWritten(codec: ValueCodec, fields: seq<Field>)
    requires Unrelated(fields)
    ensures WriteChaptered(codec, fields, EmptyRecordset) == Ok([END])
  {
    UnrelatedSchema(fields);
    UnrelatedIsValid(fields);
    var schema := AdtgSchema(fields, 0, 2).value.0;
    NothingToWrite(codec, schema.children[0].schema, Child(2));
    NothingBelow(codec, schema);
    EmptyWrite(codec, fields, schema, 3);
  }

  lemma {:induction false} EmptyWrite(codec: ValueCodec, fields: seq<Field>, schema: Schema, next: nat)
    requires SchemasValid(fields) && AdtgSchema(fields, 0, 2) == Ok((schema, next))
    requires WriteGroups(codec, schema, [EmptyRecordset], Root) == Ok([])
    ensures WriteChaptered(codec, fields, EmptyRecordset) == Ok([END])
  {
    assert TreeValid(fields, EmptyRecordset);
    assert [] + [END] == [END];
  }

  lemma {:induction false} UnrelatedIsValid(fields: seq<Field>)
    requires Unrelated(fields)
    ensures SchemasValid(fields)
  {
    assert SchemasValid([fields[0]]);
  }

  lemma {:induction false} UnrelatedSchema(fields: seq<Field>)
    requires Unrelated(fields)
    ensures AdtgSchema(fields, 0, 2) == Ok((Schema(0, fields, [ChildSchema(1, [], Schema(2, [fields[0]], []))]), 3))
  {
    OneColumnSchema(fields[0], 2, 3);
    LastChild(fields, 2, 3);
    var child := ChildSchema(1, [], Schema(2, [fields[0]], []));
    assert [child] + [] == [child];
    assert AdtgChildren(fields, 1, 2) == Ok(([child], 3));
    assert AdtgChildren(fields, 0, 2) == AdtgChildren(fields, 1, 2);
  }

  lemma {:induction false} OneColumnSchema(field: Field, groupId: nat, next: nat)
    requires !field.IsChapter()
    ensures AdtgSchema([field], groupId, next) == Ok((Schema(groupId, [field], []), next))
  {
    LastChild([field], 1, next);
  }

  lemma LastChild(fields: seq<Field>, from: nat, next: nat)
    requires from == |fields|
    ensures AdtgChildren(fields, from, next) == Ok(([], next))
  {
  }

  lemma {:induction false} NothingToWrite(codec: ValueCodec, s: Schema, marker: Marker)
    requires s.children == []
    ensures WriteGroups(codec, s, [], marker) == Ok([])
  {
    var nothing: seq<byte> := [];
    assert nothing + nothing == nothing;
    assert ChapterRowChanges([], s.fields) == [];
    assert EncodeChapterRows(codec, s.fields, marker, []) == Ok([]);
    assert WriteChildGroups(codec, s, [], 0) == Ok([]);
  }

  lemma {:induction false} NothingBelow(codec: ValueCodec, s: Schema)
    requires |s.children| == 1 && WriteGroups(codec, s.children[0].schema, [], Child(s.children[0].schema.groupId)) == Ok([])
    ensures WriteGroups(codec, s, [EmptyRecordset], Root) == Ok([])
  {
    OneRecordset(EmptyRecordset, KeyIndices(s.fields));
    assert NestedAll([EmptyRecordset], s.children[0].fieldIndex) == [];
    assert WriteChildGroups(codec, s, [EmptyRecordset], 1) == Ok([]);
  }

  // ---------------------------------------------------------------- groups in the byte stream

  function IdSet(children: seq<ChildSchema>): set<nat> {
    set x | x in GroupIds(children)
  }

  lemma DistinctParts(a: seq<nat>, b: seq<nat>)
    requires Distinct(a + b)
    ensures Distinct(a) && Distinct(b) && forall x | x in a :: x !in b
  {
    assert forall i | 0 <= i < |a| :: (a + b)[i] == a[i];
    assert forall i | 0 <= i < |b| :: (a + b)[|a| + i] == b[i];
  }

  /** The ids below a schema are told apart from each other, from this group, and from
      whatever comes later. */
  predicate IdsApart(children: seq<ChildSchema>, ids: set<nat>) {
    && Distinct(GroupIds(children))
    && IdSet(children) !! ids
    && forall x | x in GroupIds(children) :: x <= MAX_GROUP_ID
  }

  lemma ApartParts(children: seq<ChildSchema>, ids: set<nat>)
    requires children != [] && IdsApart(children, ids)
    ensures var head, rest := children[0].schema, children[1..];
            && head.groupId <= MAX_GROUP_ID
            && head.groupId !in IdSet(head.children) + IdSet(rest) + ids
            && IdsApart(head.children, IdSet(rest) + ids)
            && IdsApart(rest, ids)
            && IdSet(children) == {head.groupId} + IdSet(head.children) + IdSet(rest)
  {
    var head, rest := children[0].schema, children[1..];
    assert GroupIds(children) == [head.groupId] + GroupIds(head.children) + GroupIds(rest);
    DistinctParts([head.groupId] + GroupIds(head.children), GroupIds(rest));
    DistinctParts([head.groupId], GroupIds(head.children));
    assert head.groupId in [head.groupId];
    forall x | x in [head.groupId] || x in GroupIds(head.children) || x in GroupIds(rest) ensures x in GroupIds(children) {
    }
  }

  lemma BoundaryWidens(tail: seq<byte>, ids: set<nat>, more: set<nat>)
    requires Boundary(tail, ids) && ids <= more
    ensures Boundary(tail, more)
  {
  }

  lemma MarkerIsBoundary(groupId: nat, code: byte, tail: seq<byte>)
    requires (code == CURRENT || code == INSERT) && groupId <= MAX_GROUP_ID
    ensures Boundary(MarkerBytes(Child(groupId), code) + tail, {groupId})
  {
    LittleEndian4(groupId);
    assert (MarkerBytes(Child(groupId), code) + tail)[1..5] == LittleEndian(groupId, 4);
  }

  /** Seen from outside, a child group starts with the marker of one of its own groups. */
  lemma {:induction false} GroupBoundary(codec: ValueCodec, s: Schema, rss: seq<Recordset>, tail: seq<byte>, ids: set<nat>)
    requires WriteGroups(codec, s, rss, Child(s.groupId)).Ok? && s.groupId <= MAX_GROUP_ID
    requires Boundary(tail, ids) && IdsApart(s.children, ids)
    ensures Boundary(WriteGroups(codec, s, rss, Child(s.groupId)).value + tail, {s.groupId} + IdSet(s.children) + ids)
    decreases s, |s.children| + 1
  {
    var images := ChapterRowChanges(rss, s.fields);
    var rows := EncodeChapterRows(codec, s.fields, Child(s.groupId), images).value;
    var children := WriteChildGroups(codec, s, rss, 0).value;
    assert rows + children + tail == rows + (children + tail);
    if images == [] {
      assert s.children[0..] == s.children;
      ChildGroupsBoundary(codec, s, rss, 0, tail, ids);
      assert rows + (children + tail) == children + tail;
      BoundaryWidens(children + tail, IdSet(s.children) + ids, {s.groupId} + IdSet(s.children) + ids);
    } else {
      RowsBoundary(codec, s.fields, s.groupId, images, children + tail);
      BoundaryWidens(rows + (children + tail), {s.groupId}, {s.groupId} + IdSet(s.children) + ids);
    }
  }

  lemma RowsBoundary(codec: ValueCodec, fields: seq<Field>, groupId: nat, images: seq<RowImage>, tail: seq<byte>)
    requires images != [] && groupId <= MAX_GROUP_ID && EncodeChapterRows(codec, fields, Child(groupId), images).Ok?
    ensures Boundary(EncodeChapterRows(codec, fields, Child(groupId), images).value + tail, {groupId})
  {
    var bytes := EncodeChapterRows(codec, fields, Child(groupId), images).value + tail;
    var first := EncodeChapterRow(codec, fields, Child(groupId), images[0]).value;
    var code := if images[0].Add? then INSERT else CURRENT;
    var marker := MarkerBytes(Child(groupId), code);
    assert first[..|marker|] == marker;
    assert bytes == marker + bytes[|marker|..];
    MarkerIsBoundary(groupId, code, bytes[|marker|..]);
  }

  lemma {:induction false} ChildGroupsBoundary(codec: ValueCodec, s: Schema, rss: seq<Recordset>, from: nat, tail: seq<byte>, ids: set<nat>)
    requires from <= |s.children| && WriteChildGroups(codec, s, rss, from).Ok?
    requires Boundary(tail, ids) && IdsApart(s.children[from..], ids)
    ensures Boundary(WriteChildGroups(codec, s, rss, from).value + tail, IdSet(s.children[from..]) + ids)
    decreases s, |s.children| - from
  {
    if from == |s.children| {
      assert WriteChildGroups(codec, s, rss, from).value + tail == tail;
      BoundaryWidens(tail, ids, IdSet(s.children[from..]) + ids);
    } else {
      var child := s.children[from];
      var nested := NestedAll(rss, child.fieldIndex);
      var head, rest := WriteGroups(codec, child.schema, nested, Child(child.schema.groupId)).value, WriteChildGroups(codec, s, rss, from + 1).value;
      ApartParts(s.children[from..], ids);
      assert s.children[from..][1..] == s.children[from + 1..];
      ChildGroupsBoundary(codec, s, rss, from + 1, tail, ids);
      GroupBoundary(codec, child.schema, nested, rest + tail, IdSet(s.children[from + 1..]) + ids);
      assert WriteChildGroups(codec, s, rss, from).value + tail == head + (rest + tail);
      assert {child.schema.groupId} + IdSet(child.schema.children) + (IdSet(s.children[from + 1..]) + ids) == IdSet(s.children[from..]) + ids;
    }
  }

  /** The codec reads back every value of every pool. */
  ghost predicate GroupsReadable(codec: ValueCodec, s: Schema, rss: seq<Recordset>)
    decreases s
  {
    && (forall k | 0 <= k < |ChapterRowChanges(rss, s.fields)| :: ChapterRowReadable(codec, s.fields, ChapterRowChanges(rss, s.fields)[k]))
    && forall i | 0 <= i < |s.children| :: GroupsReadable(codec, s.children[i].schema, NestedAll(rss, s.children[i].fieldIndex))
  }

  predicate MarkerApart(marker: Marker, s: Schema, ids: set<nat>) {
    MarkerFits(marker) && (marker.Child? ==> marker.groupId !in IdSet(s.children) + ids)
  }

  lemma GroupParts(codec: ValueCodec, s: Schema, rss: seq<Recordset>, marker: Marker, tail: seq<byte>)
    requires WriteGroups(codec, s, rss, marker).Ok?
    ensures EncodeChapterRows(codec, s.fields, marker, ChapterRowChanges(rss, s.fields)).Ok? && WriteChildGroups(codec, s, rss, 0).Ok?
    ensures WriteGroups(codec, s, rss, marker).value + tail
            == EncodeChapterRows(codec, s.fields, marker, ChapterRowChanges(rss, s.fields)).value + (WriteChildGroups(codec, s, rss, 0).value + tail)
  {
    Regrouped(EncodeChapterRows(codec, s.fields, marker, ChapterRowChanges(rss, s.fields)).value, WriteChildGroups(codec, s, rss, 0).value, tail);
  }

  lemma GroupReadsOn(codec: ValueCodec, s: Schema, marker: Marker, bytes: seq<byte>, rows: seq<RowImage>, middle: seq<byte>, kids: seq<Pools>, end: seq<byte>)
    requires ReadChapterRows(codec, s.fields, marker, bytes) == Ok((rows, middle))
    requires ReadChildGroups(codec, s, 0, middle) == Ok((kids, end))
    ensures ReadGroup(codec, s, marker, bytes) == Ok((Pools(rows, kids), end))
  {
  }

  lemma RereadParts(s: Schema, rss: seq<Recordset>)
    ensures Reread(s, rss) == Pools(StoredRows(s.fields, ChapterRowChanges(rss, s.fields)), RereadList(s, rss))
  {
    assert Reread(s, rss).children == RereadList(s, rss);
  }

  /** A written group is read back as exactly its own pools, stored, and the reader stops at
      the first byte behind it: no row leaks into a sibling, parent or child group. */
  lemma {:induction false} GroupRoundTrip(codec: ValueCodec, s: Schema, rss: seq<Recordset>, marker: Marker, tail: seq<byte>, ids: set<nat>)
    requires WriteGroups(codec, s, rss, marker).Ok? && GroupsReadable(codec, s, rss)
    requires Boundary(tail, ids) && IdsApart(s.children, ids) && MarkerApart(marker, s, ids)
    ensures ReadGroup(codec, s, marker, WriteGroups(codec, s, rss, marker).value + tail) == Ok((Reread(s, rss), tail))
    decreases s, |s.children| + 1
  {
    var images := ChapterRowChanges(rss, s.fields);
    var children := WriteChildGroups(codec, s, rss, 0).value;
    GroupParts(codec, s, rss, marker, tail);
    assert s.children[0..] == s.children;
    ChildGroupsBoundary(codec, s, rss, 0, tail, ids);
    ChapterRowsRoundTrip(codec, s.fields, marker, images, children + tail, IdSet(s.children) + ids);
    ChildGroupsRoundTrip(codec, s, rss, 0, tail, ids);
    assert RereadList(s, rss)[0..] == RereadList(s, rss);
    GroupReadsOn(codec, s, marker, WriteGroups(codec, s, rss, marker).value + tail, StoredRows(s.fields, images), children + tail,
                 RereadList(s, rss), tail);
    RereadParts(s, rss);
  }

  function RereadList(s: Schema, rss: seq<Recordset>): (r: seq<Pools>)
    ensures |r| == |s.children|
  {
    seq(|s.children|, i requires 0 <= i < |s.children| => Reread(s.children[i].schema, NestedAll(rss, s.children[i].fieldIndex)))
  }

  /** One child group read, then the later ones. */
  lemma ChildGroupsReadOn(codec: ValueCodec, s: Schema, from: nat, bytes: seq<byte>, head: Pools, middle: seq<byte>, later: seq<Pools>, end: seq<byte>)
    requires from < |s.children|
    requires ReadGroup(codec, s.children[from].schema, Child(s.children[from].schema.groupId), bytes) == Ok((head, middle))
    requires ReadChildGroups(codec, s, from + 1, middle) == Ok((later, end))
    ensures ReadChildGroups(codec, s, from, bytes) == Ok(([head] + later, end))
  {
  }

  lemma ChildGroupsSplit(codec: ValueCodec, s: Schema, rss: seq<Recordset>, from: nat, tail: seq<byte>)
    requires from < |s.children| && WriteChildGroups(codec, s, rss, from).Ok?
    ensures var child := s.children[from];
            var head := WriteGroups(codec, child.schema, NestedAll(rss, child.fieldIndex), Child(child.schema.groupId));
            var rest := WriteChildGroups(codec, s, rss, from + 1);
            && head.Ok? && rest.Ok?
            && WriteChildGroups(codec, s, rss, from).value + tail == head.value + (rest.value + tail)
  {
    var child := s.children[from];
    Regrouped(WriteGroups(codec, child.schema, NestedAll(rss, child.fieldIndex), Child(child.schema.groupId)).value,
              WriteChildGroups(codec, s, rss, from + 1).value, tail);
  }

  /** The group at `from` is read back in front of the later ones. */
  lemma {:induction false} ChildGroupAtRoundTrip(codec: ValueCodec, s: Schema, rss: seq<Recordset>, from: nat, tail: seq<byte>, ids: set<nat>)
    requires from < |s.children| && WriteChildGroups(codec, s, rss, from).Ok? && GroupsReadable(codec, s, rss)
    requires WriteChildGroups(codec, s, rss, from + 1).Ok?
    requires Boundary(tail, ids) && IdsApart(s.children[from..], ids)
    ensures var child, behind := s.children[from], WriteChildGroups(codec, s, rss, from + 1).value + tail;
            ReadGroup(codec, child.schema, Child(child.schema.groupId), WriteChildGroups(codec, s, rss, from).value + tail)
            == Ok((RereadList(s, rss)[from], behind))
    decreases s, 0
  {
    var child := s.children[from];
    ChildGroupsSplit(codec, s, rss, from, tail);
    ApartParts(s.children[from..], ids);
    assert s.children[from..][1..] == s.children[from + 1..];
    ChildGroupsBoundary(codec, s, rss, from + 1, tail, ids);
    GroupRoundTrip(codec, child.schema, NestedAll(rss, child.fieldIndex), Child(child.schema.groupId),
                   WriteChildGroups(codec, s, rss, from + 1).value + tail, IdSet(s.children[from + 1..]) + ids);
  }

  lemma {:induction false} ChildGroupsRoundTrip(codec: ValueCodec, s: Schema, rss: seq<Recordset>, from: nat, tail: seq<byte>, ids: set<nat>)
    requires from <= |s.children| && WriteChildGroups(codec, s, rss, from).Ok? && GroupsReadable(codec, s, rss)
    requires Boundary(tail, ids) && IdsApart(s.children[from..], ids)
    ensures ReadChildGroups(codec, s, from, WriteChildGroups(codec, s, rss, from).value + tail) == Ok((RereadList(s, rss)[from..], tail))
    decreases s, |s.children| - from
  {
    if from == |s.children| {
      assert WriteChildGroups(codec, s, rss, from).value + tail == tail && RereadList(s, rss)[from..] == [];
    } else {
      ChildGroupsSplit(codec, s, rss, from, tail);
      LaterGroups(s, rss, from, ids);
      ChildGroupAtRoundTrip(codec, s, rss, from, tail, ids);
      ChildGroupsRoundTrip(codec, s, rss, from + 1, tail, ids);
      var bytes, behind := WriteChildGroups(codec, s, rss, from).value + tail, WriteChildGroups(codec, s, rss, from + 1).value + tail;
      ChildGroupsReadOn(codec, s, from, bytes, RereadList(s, rss)[from], behind, RereadList(s, rss)[from + 1..], tail);
    }
  }

  lemma LaterGroups(s: Schema, rss: seq<Recordset>, from: nat, ids: set<nat>)
    requires from < |s.children| && IdsApart(s.children[from..], ids)
    ensures IdsApart(s.children[from + 1..], ids)
    ensures RereadList(s, rss)[from..] == [RereadList(s, rss)[from]] + RereadList(s, rss)[from + 1..]
  {
    assert s.children[from..][1..] == s.children[from + 1..];
    ApartParts(s.children[from..], ids);
    FirstOfRest(RereadList(s, rss), from);
  }

  lemma FirstOfRest<T>(xs: seq<T>, from: nat)
    requires from < |xs|
    ensures xs[from..] == [xs[from]] + xs[from + 1..]
  {
  }

  /** The whole row tree with its terminator, written under the writer's schema and read under the
      reader's: every byte is consumed and exactly the written pools come back. */
  lemma RowTreeRoundTrip(codec: ValueCodec, fields: seq<Field>, rss: seq<Recordset>)
    requires AdtgSchema(fields, 0, 2).Ok? && ParseSchema(fields, 0, 2).Ok?
    requires WriteGroups(codec, AdtgSchema(fields, 0, 2).value.0, rss, Root).Ok?
    requires GroupsReadable(codec, ParseSchema(fields, 0, 2).value.0, rss)
    ensures var s := ParseSchema(fields, 0, 2).value.0;
            ReadTree(codec, s, WriteGroups(codec, AdtgSchema(fields, 0, 2).value.0, rss, Root).value + [END]) == Ok(Reread(s, rss))
  {
    var s := ParseSchema(fields, 0, 2).value.0;
    WrittenUnderParsed(codec, fields, rss);
    ParsedIdsArePreorder(fields, 0, 2);
    GroupRoundTrip(codec, s, rss, Root, [END], {});
  }

  /** Behind the terminator the reader takes nothing more. */
  lemma TrailingBytesRefused(codec: ValueCodec, fields: seq<Field>, rss: seq<Recordset>, extra: seq<byte>)
    requires AdtgSchema(fields, 0, 2).Ok? && ParseSchema(fields, 0, 2).Ok? && extra != []
    requires WriteGroups(codec, AdtgSchema(fields, 0, 2).value.0, rss, Root).Ok?
    requires GroupsReadable(codec, ParseSchema(fields, 0, 2).value.0, rss)
    ensures ReadTree(codec, ParseSchema(fields, 0, 2).value.0,
                     WriteGroups(codec, AdtgSchema(fields, 0, 2).value.0, rss, Root).value + ([0x0f] + extra)).Err?
  {
    WrittenUnderParsed(codec, fields, rss);
    ParsedIdsArePreorder(fields, 0, 2);
    GroupRoundTrip(codec, ParseSchema(fields, 0, 2).value.0, rss, Root, [0x0f] + extra, {});
  }

  // ---------------------------------------------------------------- the parser's trees are valid

  predicate RowValid(fields: seq<Field>, row: Row) {
    CellsValid(fields, row.state, row.values) && RowTreeValid(fields, row)
  }

  lemma {:induction false} ToGraphRows(fields: seq<Field>, images: seq<RowImage>)
    requires forall k | 0 <= k < |images| :: ImageValid(fields, images[k]) && ImageTreeValid(fields, images[k])
    ensures forall row | row in ToGraph(images).rows :: RowValid(fields, row)
  {
    if images != [] {
      var init, last := images[..|images| - 1], images[|images| - 1];
      ToGraphRows(fields, init);
      var before, rows := ToGraph(init).rows, ToGraph(images).rows;
      assert ImageValid(fields, last) && ImageTreeValid(fields, last);
      assert rows[|before|].state == last.State() && rows[|before|].values == last.values;
      forall row | row in rows[|before|..] ensures RowValid(fields, row) {
        if row != rows[|before|] {
          assert last.Edit? && row.state == Updated && row.values == last.updated;
        }
      }
      assert rows == before + rows[|before|..];
    }
  }

  predicate ImageTreeValid(fields: seq<Field>, image: RowImage) {
    && (forall j | 0 <= j < |image.values| && j < |fields| :: CellTreeValid(fields[j], image.values[j]))
    && (image.Edit? ==> forall j | 0 <= j < |image.updated| && j < |fields| :: CellTreeValid(fields[j], image.updated[j]))
  }

  lemma {:induction false} MaterializedRowValid(s: Schema, kids: seq<Pools>, row: RowImage)
    requires SchemaValid(s) && KidsShaped(s, kids) && RawRow(s.fields, row)
    ensures ImageValid(s.fields, MaterializeRow(s, kids, row)) && ImageTreeValid(s.fields, MaterializeRow(s, kids, row))
    decreases s, 1
  {
    var built, key := MaterializeRow(s, kids, row), row.Effective();
    MaterializedCells(s, kids, row);
    assert built.State() == row.State();
    assert ImageValid(s.fields, built);
    forall j | 0 <= j < |s.fields|
      ensures CellTreeValid(s.fields[j], built.values[j])
      ensures row.Edit? ==> CellTreeValid(s.fields[j], built.updated[j])
    {
      if s.fields[j].IsChapter() {
        JoinedValid(s, kids, row, j);
      }
    }
  }

  lemma ChapterFieldOfChild(s: Schema, j: nat)
    requires SchemaValid(s) && j < |s.fields| && s.fields[j].IsChapter()
    ensures var i := ChildIndex(s.fields, j);
            i < |s.children| && s.children[i].fieldIndex == j
            && s.fields[j].chapter == Some(ChapterField(s.children[i].schema.fields, Some(s.children[i].relation)))
  {
    var i := ChildIndex(s.fields, j);
    ChildIndexMonotone(s.fields, j, |s.fields|);
    var f := s.children[i].fieldIndex;
    if f < j {
      ChildIndexMonotone(s.fields, f, j);
    } else if j < f {
      ChildIndexMonotone(s.fields, j, f);
    }
  }

  lemma {:induction false} JoinedValid(s: Schema, kids: seq<Pools>, row: RowImage, j: nat)
    requires SchemaValid(s) && KidsShaped(s, kids) && RawRow(s.fields, row) && j < |s.fields| && s.fields[j].IsChapter()
    ensures s.fields[j].chapter.Some? && TreeValid(s.fields[j].chapter.value.fields, Joined(s, kids, ChildIndex(s.fields, j), row.Effective()))
    decreases s, 0
  {
    var i := ChildIndex(s.fields, j);
    ChapterFieldOfChild(s, j);
    var schema := s.children[i].schema;
    var block := Matching(s.children[i].relation, row.Effective(), kids[i].rows);
    ChildShaped(s, kids, i);
    OccurringRaw(s, kids, [row], i);
    MatchingMembers(s.children[i].relation, row.Effective(), kids[i].rows);
    forall k | 0 <= k < |block| ensures RawRow(schema.fields, block[k]) {
      assert block[k] in block && block[k] in kids[i].rows;
    }
    MaterializedValid(schema, kids[i].children, block);
  }

  /** Whatever rows the pools hold, repeated keys included, the Recordset the chapter parser builds
      passes the validator, and so does every nested one. */
  lemma {:induction false} MaterializedValid(s: Schema, kids: seq<Pools>, rows: seq<RowImage>)
    requires SchemaValid(s) && KidsShaped(s, kids) && RawRows(s.fields, rows)
    ensures TreeValid(s.fields, ToGraph(MaterializeRows(s, kids, rows)))
    decreases s, 2
  {
    var images := MaterializeRows(s, kids, rows);
    forall k | 0 <= k < |images| ensures ImageValid(s.fields, images[k]) && ImageTreeValid(s.fields, images[k]) {
      assert RawRow(s.fields, rows[k]);
      MaterializedRowValid(s, kids, rows[k]);
    }
    ToGraphRows(s.fields, images);
    GraphRoundTrip(images);
    forall row | row in ToGraph(images).rows ensures CellsValid(s.fields, row.state, row.values) && RowTreeValid(s.fields, row) {
      assert RowValid(s.fields, row);
    }
  }

  // ---------------------------------------------------------------- any bytes

  /** Stored values are neither chapters nor omitted. */
  ghost predicate PlainCodec(codec: ValueCodec) {
    forall field, bytes: seq<byte> | codec.decode(field, bytes).Ok? ::
      !codec.decode(field, bytes).value.0.Chapter? && codec.decode(field, bytes).value.0 != Unavailable
  }

  lemma {:induction false} ReadValuesFit(codec: ValueCodec, fields: seq<Field>, present: seq<bool>, bytes: seq<byte>)
    requires PlainCodec(codec) && |present| == |fields| && ReadValues(codec, fields, present, bytes).Ok?
    ensures forall i | 0 <= i < |fields| ::
              var value := ReadValues(codec, fields, present, bytes).value.0[i];
              value != Unavailable && fields[i].IsChapter() == value.Chapter?
  {
    if fields != [] {
      var head := ReadOne(codec, fields[0], present[0], bytes).value;
      ReadValuesFit(codec, fields[1..], present[1..], head.1);
      assert forall i | 1 <= i < |fields| :: fields[i] == fields[1..][i - 1];
    }
  }

  lemma {:induction false} ReadUpdatesFit(codec: ValueCodec, fields: seq<Field>, nonNull: seq<bool>, nulls: seq<bool>, bytes: seq<byte>)
    requires PlainCodec(codec) && |nonNull| == |nulls| == |fields| && ReadUpdates(codec, fields, nonNull, nulls, bytes).Ok?
    ensures forall i | 0 <= i < |fields| :: !ReadUpdates(codec, fields, nonNull, nulls, bytes).value.0[i].Chapter?
  {
    if fields != [] {
      var head := ReadUpdate(codec, fields[0], nonNull[0], nulls[0], bytes).value;
      ReadUpdatesFit(codec, fields[1..], nonNull[1..], nulls[1..], head.1);
      assert forall i | 1 <= i < |fields| :: fields[i] == fields[1..][i - 1];
    }
  }

  lemma ReadCurrentFits(codec: ValueCodec, fields: seq<Field>, bytes: seq<byte>, state: RowState)
    requires PlainCodec(codec)
    ensures ReadCurrent(codec, fields, bytes).Ok? ==> CellsValid(fields, state, ReadCurrent(codec, fields, bytes).value.0)
    ensures ReadInsert(codec, fields, bytes).Ok? ==> CellsValid(fields, state, ReadInsert(codec, fields, bytes).value.0)
  {
    if ReadCurrent(codec, fields, bytes).Ok? {
      var presence := RowPresence(bytes, fields).value;
      ReadValuesFit(codec, fields, presence.0, presence.1);
    }
    if ReadInsert(codec, fields, bytes).Ok? {
      var masks := ValueMasks(bytes, fields, true).value;
      ReadValuesFit(codec, fields, masks.0, masks.2);
    }
  }

  lemma FinishedRowFits(codec: ValueCodec, fields: seq<Field>, marker: Marker, values: seq<Value>, bytes: seq<byte>)
    requires PlainCodec(codec) && forall state :: CellsValid(fields, state, values)
    ensures var row := FinishChapterRow(codec, fields, marker, values, bytes); row.Ok? ==> RawRow(fields, row.value.0)
  {
    var row := FinishChapterRow(codec, fields, marker, values, bytes);
    if row.Ok? && row.value.0.Edit? {
      var rest := ReadMarker(bytes, marker, UPDATE).value;
      var masks := ValueMasks(rest, fields, false).value;
      ReadUpdatesFit(codec, fields, masks.0, masks.1, masks.2);
    }
  }

  lemma ReadRowFits(codec: ValueCodec, fields: seq<Field>, marker: Marker, bytes: seq<byte>)
    requires PlainCodec(codec)
    ensures var row := ReadChapterRow(codec, fields, marker, bytes); row.Ok? && row.value.Some? ==> RawRow(fields, row.value.value.0)
  {
    var current, insert := ReadMarker(bytes, marker, CURRENT), ReadMarker(bytes, marker, INSERT);
    if current.Some? {
      forall state ensures var row := ReadCurrent(codec, fields, current.value); row.Ok? ==> CellsValid(fields, state, row.value.0) {
        ReadCurrentFits(codec, fields, current.value, state);
      }
      var row := ReadCurrent(codec, fields, current.value);
      if row.Ok? {
        FinishedRowFits(codec, fields, marker, row.value.0, row.value.1);
      }
    } else if insert.Some? {
      ReadCurrentFits(codec, fields, insert.value, Inserted);
    }
  }

  lemma {:induction false} ReadRowsFit(codec: ValueCodec, fields: seq<Field>, marker: Marker, bytes: seq<byte>)
    requires PlainCodec(codec) && ReadChapterRows(codec, fields, marker, bytes).Ok?
    ensures RawRows(fields, ReadChapterRows(codec, fields, marker, bytes).value.0)
    decreases |bytes|
  {
    var row := ReadChapterRow(codec, fields, marker, bytes).value;
    if row.Some? {
      ReadRowFits(codec, fields, marker, bytes);
      ReadRowsFit(codec, fields, marker, row.value.1);
    }
  }

  /** Whatever the bytes, a group read has rows that fit its columns and one pool per child. */
  lemma {:induction false} ReadGroupShaped(codec: ValueCodec, s: Schema, marker: Marker, bytes: seq<byte>)
    requires PlainCodec(codec) && ReadGroup(codec, s, marker, bytes).Ok?
    ensures PoolsShaped(s, ReadGroup(codec, s, marker, bytes).value.0)
    decreases s, |s.children| + 1
  {
    var rows := ReadChapterRows(codec, s.fields, marker, bytes).value;
    var pools := ReadChildGroups(codec, s, 0, rows.1).value.0;
    ReadRowsFit(codec, s.fields, marker, bytes);
    ReadChildrenShaped(codec, s, 0, rows.1);
    forall i | 0 <= i < |s.children| ensures PoolsShaped(s.children[i].schema, pools[i]) {
      assert PoolsShaped(s.children[0 + i].schema, pools[i]);
    }
  }

  lemma ChildrenUnfold(codec: ValueCodec, s: Schema, from: nat, bytes: seq<byte>)
    requires from < |s.children| && ReadChildGroups(codec, s, from, bytes).Ok?
    ensures var child := s.children[from];
            var head := ReadGroup(codec, child.schema, Child(child.schema.groupId), bytes);
            && head.Ok? && ReadChildGroups(codec, s, from + 1, head.value.1).Ok?
            && ReadChildGroups(codec, s, from, bytes).value.0 == [head.value.0] + ReadChildGroups(codec, s, from + 1, head.value.1).value.0
  {
  }

  /** The pools of the child schemas from an index on. */
  predicate PoolsShapedFrom(s: Schema, from: nat, pools: seq<Pools>) {
    && from + |pools| == |s.children|
    && forall k | 0 <= k < |pools| :: PoolsShaped(s.children[from + k].schema, pools[k])
  }

  lemma ShapedFrom(s: Schema, from: nat, first: Pools, rest: seq<Pools>)
    requires from < |s.children| && PoolsShaped(s.children[from].schema, first) && PoolsShapedFrom(s, from + 1, rest)
    ensures PoolsShapedFrom(s, from, [first] + rest)
  {
    var all := [first] + rest;
    forall k | 0 <= k < |all| ensures PoolsShaped(s.children[from + k].schema, all[k]) {
      if k > 0 {
        assert PoolsShaped(s.children[from + 1 + (k - 1)].schema, rest[k - 1]);
      }
    }
  }

  lemma {:induction false} ReadChildrenShaped(codec: ValueCodec, s: Schema, from: nat, bytes: seq<byte>)
    requires PlainCodec(codec) && from <= |s.children| && ReadChildGroups(codec, s, from, bytes).Ok?
    ensures PoolsShapedFrom(s, from, ReadChildGroups(codec, s, from, bytes).value.0)
    decreases s, |s.children| - from
  {
    if from < |s.children| {
      var child := s.children[from];
      var head := ReadGroup(codec, child.schema, Child(child.schema.groupId), bytes).value;
      ReadGroupShaped(codec, child.schema, Child(child.schema.groupId), bytes);
      ReadChildrenShaped(codec, s, from + 1, head.1);
      ChildrenUnfold(codec, s, from, bytes);
      ShapedFrom(s, from, head.0, ReadChildGroups(codec, s, from + 1, head.1).value.0);
    }
  }

  /** Whatever the bytes, a shaped Recordset the reader accepts passes the validator at every depth. */
  lemma ReadIsValid(codec: ValueCodec, fields: seq<Field>, bytes: seq<byte>)
    requires PlainCodec(codec) && ReadChaptered(codec, fields, bytes).Ok?
    ensures TreeValid(fields, ReadChaptered(codec, fields, bytes).value)
  {
    var s := ParseSchema(fields, 0, 2).value.0;
    var pools := ReadTree(codec, s, bytes).value;
    ParsedSchemaValid(fields, 0, 2);
    ReadGroupShaped(codec, s, Root, bytes);
    assert PoolsShaped(s, pools);
    MaterializedValid(s, pools.children, pools.rows);
  }

  // ---------------------------------------------------------------- readable pools, readable groups

  /** The codec reads back every plain value stored in the pools. */
  ghost predicate PoolsReadable(codec: ValueCodec, s: Schema, pools: Pools)
    decreases s
  {
    && (forall k | 0 <= k < |pools.rows| :: ChapterRowReadable(codec, s.fields, pools.rows[k]))
    && |pools.children| == |s.children|
    && forall i | 0 <= i < |s.children| :: PoolsReadable(codec, s.children[i].schema, pools.children[i])
  }

  lemma MaterializedReadable(codec: ValueCodec, s: Schema, kids: seq<Pools>, row: RowImage)
    requires ChapterRowReadable(codec, s.fields, row)
    ensures ChapterRowReadable(codec, s.fields, MaterializeRow(s, kids, row))
  {
    MaterializedCells(s, kids, row);
  }

  /** Rows collected from a materialized level are readable if the pool's rows are. */
  lemma {:induction false} CollectedReadable(codec: ValueCodec, s: Schema, kids: seq<Pools>, rows: seq<RowImage>, i: nat)
    requires SchemaValid(s) && KidsShaped(s, kids) && RawRows(s.fields, rows) && i < |s.children|
    requires PoolsReadable(codec, s.children[i].schema, kids[i])
    ensures GroupsReadable(codec, s.children[i].schema, Nested(MaterializeRows(s, kids, rows), s.children[i].fieldIndex))
    decreases s
  {
    var schema, keys := s.children[i].schema, ParentKeys(rows, s.children[i].fieldIndex);
    var indices, occurring := KeyIndices(s.children[i].schema.fields), Occurring(s, kids, rows, i);
    NestedOfMaterialized(s, kids, rows, i);
    ImagesOfJoins(s, kids, i, keys, indices);
    OccurringRaw(s, kids, rows, i);
    ChildShaped(s, kids, i);
    UniqueOfMaterialized(schema, kids[i].children, occurring, indices, {});
    UniqueMembers(occurring, indices, {});
    OccurrenceMembers(s.children[i].relation, keys, kids[i].rows);
    var unique := Unique(occurring, indices, {});
    forall k | 0 <= k < |unique| ensures ChapterRowReadable(codec, schema.fields, MaterializeRow(schema, kids[i].children, unique[k])) {
      assert unique[k] in unique && unique[k] in kids[i].rows;
      MaterializedReadable(codec, schema, kids[i].children, unique[k]);
    }
    forall c | 0 <= c < |schema.children|
      ensures GroupsReadable(codec, schema.children[c].schema, NestedAll(Joins(s, kids, i, keys), schema.children[c].fieldIndex))
    {
      CollectedReadable(codec, schema, kids[i].children, occurring, c);
    }
  }

  lemma RootReadable(codec: ValueCodec, s: Schema, pools: Pools)
    requires SchemaValid(s) && PoolsShaped(s, pools) && PoolsReadable(codec, s, pools)
    ensures GroupsReadable(codec, s, [Materialize(s, pools)])
  {
    var built := MaterializeRows(s, pools.children, pools.rows);
    var rss := [ToGraph(built)];
    RootChanges(s, built);
    assert KidsShaped(s, pools.children);
    var rows := ChapterRowChanges(rss, s.fields);
    forall k | 0 <= k < |rows| ensures ChapterRowReadable(codec, s.fields, rows[k]) {
      assert rows[k] in rows;
      var j :| 0 <= j < |built| && built[j] == rows[k];
      MaterializedReadable(codec, s, pools.children, pools.rows[j]);
    }
    forall i | 0 <= i < |s.children| ensures GroupsReadable(codec, s.children[i].schema, NestedAll(rss, s.children[i].fieldIndex)) {
      CollectedReadable(codec, s, pools.children, pools.rows, i);
    }
  }

  lemma RootChanges(s: Schema, images: seq<RowImage>)
    ensures AllImages([ToGraph(images)]) == images
    ensures forall x | x in ChapterRowChanges([ToGraph(images)], s.fields) :: x in images
  {
    var indices := KeyIndices(s.fields);
    GraphRoundTrip(images);
    GraphCandidates(images, indices);
    OneRecordset(ToGraph(images), indices);
    UniqueMembers(images, indices, {});
    assert ChapterRowChanges([ToGraph(images)], s.fields) == Unique(images, indices, {});
  }

  // ---------------------------------------------------------------- end to end

  /** Writing a shaped Recordset and reading it back always yields some tree. It is the tree of the
      stored pools, the same tree if its updates were already reduced to changes, if and only if no
      two rows of one pool that the tree shows have the same change key; then the default and
      pending views are the same at every depth. */
  lemma ChapteredRoundTrip(codec: ValueCodec, fields: seq<Field>, pools: Pools, depth: nat)
    requires ParseSchema(fields, 0, 2).Ok? && ParseSchema(fields, 0, 2).value.0.children != []
    requires var s := ParseSchema(fields, 0, 2).value.0; PoolsShaped(s, pools) && PoolsReadable(codec, s, pools)
    requires WriteChaptered(codec, fields, Materialize(ParseSchema(fields, 0, 2).value.0, pools)).Ok?
    ensures var s := ParseSchema(fields, 0, 2).value.0;
            var tree := Materialize(s, pools);
            var back := ReadChaptered(codec, fields, WriteChaptered(codec, fields, tree).value);
            && back.Ok?
            && (back == Ok(Materialize(s, StoredPools(s, pools))) <==> KeysApart(s, Pruned(s, pools)))
            && (StoredPools(s, pools) == pools ==> (back == Ok(tree) <==> KeysApart(s, Pruned(s, pools))))
            && (KeysApart(s, Pruned(s, pools)) ==> SameViews(depth, back.value, tree))
  {
    var s := ParseSchema(fields, 0, 2).value.0;
    ParsedSchemaValid(fields, 0, 2);
    RootReadable(codec, s, pools);
    SchemasAgree(fields, 0, 2);
    RowTreeRoundTrip(codec, fields, [Materialize(s, pools)]);
    TreeKeptIffKeysApart(s, pools);
    StoredKeepsViews(s, pools, depth);
  }

  /** On a tree built from row pools only a cell it cannot encode stops the writer. */
  lemma OnlyCellsStopTheWriter(codec: ValueCodec, fields: seq<Field>, pools: Pools)
    requires SchemasValid(fields) && ParseSchema(fields, 0, 2).Ok?
    requires PoolsShaped(ParseSchema(fields, 0, 2).value.0, pools)
    ensures var s := ParseSchema(fields, 0, 2).value.0;
            WriteChaptered(codec, fields, Materialize(s, pools)).Ok? <==> WriteGroups(codec, s, [Materialize(s, pools)], Root).Ok?
  {
    var s := ParseSchema(fields, 0, 2).value.0;
    ParsedSchemaValid(fields, 0, 2);
    WrittenUnderParsed(codec, fields, [Materialize(s, pools)]);
    assert KidsShaped(s, pools.children);
    MaterializedValid(s, pools.children, pools.rows);
  }

  /** A Recordset without chapter columns is not read by the shaped reader. */
  lemma FlatIsNotShaped(codec: ValueCodec, fields: seq<Field>, bytes: seq<byte>)
    requires forall i | 0 <= i < |fields| :: fields[i].typeCode != 136
    ensures ReadChaptered(codec, fields, bytes).Err?
  {
    NoColumns(fields, 0);
    assert ParseChildren(fields, [], 2) == Ok(([], 2));
    assert ParseSchema(fields, 0, 2) == Ok((Schema(0, fields, []), 2));
  }

  lemma {:induction false} NoColumns(fields: seq<Field>, from: nat)
    requires from <= |fields| && forall i | from <= i < |fields| :: fields[i].typeCode != 136
    ensures ChapterColumns(fields, from) == Ok([])
    decreases |fields| - from
  {
    if from < |fields| {
      NoColumns(fields, from + 1);
    }
  }
}
