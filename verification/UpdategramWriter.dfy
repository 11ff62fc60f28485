/** Writing a Recordset as an updategram and walking it back. */
module UpdategramWriter {
  import opened Prelude
  import opened Text
  import opened AttributeText
  import opened RecordsetModel
  import opened RowGraph
  import opened Updategram
  import opened UpdategramRows

  // ---------------------------------------------------------------- the written tree

  /** `write_row_by_index`; an index no validated graph holds ends the writer. */
  function WriteRowAt(codec: XmlCodec, fields: seq<Field>, rs: Recordset, index: nat): Result<RowContent> {
    if index >= |rs.rows| || |rs.rows[index].values| != |fields| then Err
    else
      var attrs :- WriteRow(codec, fields, rs.rows[index].values, rs.rows[index].state);
      Ok(ContentOf(attrs))
  }

  function WriteRows(codec: XmlCodec, fields: seq<Field>, rs: Recordset, indices: seq<nat>): Result<seq<Node>> {
    if indices == [] then Ok([])
    else
      var init :- WriteRows(codec, fields, rs, indices[..|indices| - 1]);
      var content :- WriteRowAt(codec, fields, rs, indices[|indices| - 1]);
      Ok(init + [RowNode(Accepted, content)])
  }

  /** The elements one change is written as. */
  function WriteChange(codec: XmlCodec, fields: seq<Field>, rs: Recordset, change: RowChange): Result<seq<Node>> {
    match change.kind
    case Current => WriteRows(codec, fields, rs, change.rowIndices)
    case Insert =>
      var rows :- WriteRows(codec, fields, rs, change.rowIndices);
      Ok([Wrapper(InsertWrapper, rows)])
    case Delete =>
      var rows :- WriteRows(codec, fields, rs, change.rowIndices);
      Ok([Wrapper(DeleteWrapper, rows)])
    case Update =>
      if |change.rowIndices| < 2 then Err
      else
        var original :- WriteRowAt(codec, fields, rs, change.rowIndices[0]);
        var updated :- WriteRowAt(codec, fields, rs, change.rowIndices[1]);
        Ok([UpdateNode(original, updated)])
  }

  function UpdateNode(original: RowContent, updated: RowContent): Node {
    Wrapper(UpdateWrapper, [Wrapper(OriginalWrapper, [RowNode(Accepted, original)]), RowNode(Accepted, updated)])
  }

  function WriteChanges(codec: XmlCodec, fields: seq<Field>, rs: Recordset, changes: seq<RowChange>): Result<seq<Node>> {
    if changes == [] then Ok([])
    else Then(WriteChanges(codec, fields, rs, changes[..|changes| - 1]), WriteChange(codec, fields, rs, changes[|changes| - 1]))
  }

  /** `write_data` */
  function WriteData(codec: XmlCodec, fields: seq<Field>, rs: Recordset): Result<seq<Node>> {
    WriteChanges(codec, fields, rs, rs.changes)
  }

  /** One row by its index, through the loop over its cells. */
  method WriteOneRow(codec: XmlCodec, fields: seq<Field>, rs: Recordset, index: nat) returns (r: Result<RowContent>)
    ensures r == WriteRowAt(codec, fields, rs, index)
  {
    if index >= |rs.rows| || |rs.rows[index].values| != |fields| {
      return Err;
    }
    var attrs := WriteRowLoop(codec, fields, rs.rows[index].values, rs.rows[index].state);
    return if attrs.Ok? then Ok(ContentOf(attrs.value)) else Err;
  }

  /** The inner loop over one group's rows. */
  method WriteRowsLoop(codec: XmlCodec, fields: seq<Field>, rs: Recordset, indices: seq<nat>) returns (r: Result<seq<Node>>)
    ensures r == WriteRows(codec, fields, rs, indices)
  {
    var out: seq<Node> := [];
    for i := 0 to |indices|
      invariant WriteRows(codec, fields, rs, indices[..i]) == Ok(out)
    {
      assert indices[..i + 1][..i] == indices[..i];
      var content := WriteOneRow(codec, fields, rs, indices[i]);
      if content.Err? {
        RowFails(codec, fields, rs, indices, i);
        return Err;
      }
      out := out + [RowNode(Accepted, content.value)];
    }
    assert indices[..|indices|] == indices;
    return Ok(out);
  }

  lemma {:induction false} RowFails(codec: XmlCodec, fields: seq<Field>, rs: Recordset, indices: seq<nat>, i: nat)
    requires i < |indices| && WriteRowAt(codec, fields, rs, indices[i]).Err?
    ensures WriteRows(codec, fields, rs, indices).Err?
  {
    if i < |indices| - 1 {
      RowFails(codec, fields, rs, indices[..|indices| - 1], i);
    }
  }

  /** The original row in its own element, the updated row behind it, both in the update element. */
  method WriteUpdate(codec: XmlCodec, fields: seq<Field>, rs: Recordset, indices: seq<nat>) returns (r: Result<seq<Node>>)
    ensures r == WriteChange(codec, fields, rs, RowChange(Update, indices))
  {
    if |indices| < 2 {
      return Err;
    }
    var original := WriteOneRow(codec, fields, rs, indices[0]);
    if original.Err? {
      return Err;
    }
    var nodes := [Wrapper(OriginalWrapper, [RowNode(Accepted, original.value)])];
    var updated := WriteOneRow(codec, fields, rs, indices[1]);
    if updated.Err? {
      return Err;
    }
    nodes := nodes + [RowNode(Accepted, updated.value)];
    assert nodes == [Wrapper(OriginalWrapper, [RowNode(Accepted, original.value)]), RowNode(Accepted, updated.value)];
    return Ok([Wrapper(UpdateWrapper, nodes)]);
  }

  method WriteChangeNodes(codec: XmlCodec, fields: seq<Field>, rs: Recordset, change: RowChange) returns (r: Result<seq<Node>>)
    ensures r == WriteChange(codec, fields, rs, change)
  {
    if change.kind == Update {
      r := WriteUpdate(codec, fields, rs, change.rowIndices);
      assert change == RowChange(Update, change.rowIndices);
      return;
    }
    r := WriteRowsLoop(codec, fields, rs, change.rowIndices);
    if r.Ok? && change.kind == Insert {
      r := Ok([Wrapper(InsertWrapper, r.value)]);
    } else if r.Ok? && change.kind == Delete {
      r := Ok([Wrapper(DeleteWrapper, r.value)]);
    }
  }

  lemma WriteChangesSnoc(codec: XmlCodec, fields: seq<Field>, rs: Recordset, changes: seq<RowChange>, c: nat)
    requires c < |changes|
    ensures WriteChanges(codec, fields, rs, changes[..c + 1])
            == Then(WriteChanges(codec, fields, rs, changes[..c]), WriteChange(codec, fields, rs, changes[c]))
  {
    assert changes[..c + 1][..c] == changes[..c];
  }

  /** The outer loop over the changes. */
  method WriteDataLoop(codec: XmlCodec, fields: seq<Field>, rs: Recordset) returns (r: Result<seq<Node>>)
    ensures r == WriteData(codec, fields, rs)
  {
    var out: seq<Node> := [];
    for c := 0 to |rs.changes|
      invariant WriteChanges(codec, fields, rs, rs.changes[..c]) == Ok(out)
    {
      var nodes := WriteChangeNodes(codec, fields, rs, rs.changes[c]);
      WriteChangesSnoc(codec, fields, rs, rs.changes, c);
      if nodes.Err? {
        ChangeFails(codec, fields, rs, rs.changes, c);
        return Err;
      }
      out := out + nodes.value;
    }
    assert rs.changes[..|rs.changes|] == rs.changes;
    return Ok(out);
  }

  lemma {:induction false} ChangeFails(codec: XmlCodec, fields: seq<Field>, rs: Recordset, changes: seq<RowChange>, c: nat)
    requires c < |changes| && WriteChange(codec, fields, rs, changes[c]).Err?
    ensures WriteChanges(codec, fields, rs, changes).Err?
  {
    if c < |changes| - 1 {
      ChangeFails(codec, fields, rs, changes[..|changes| - 1], c);
    }
  }

  // ---------------------------------------------------------------- a written row reaches the walk

  /** A written row element is scanned back to the attributes it was written with. */
  lemma RowTagRoundTrip(codec: XmlCodec, fields: seq<Field>, values: seq<Value>, state: RowState, name: string, rest: string)
    requires FieldsNamed(fields) && |values| == |fields| && WriteRow(codec, fields, values, state).Ok? && IsName(name)
    ensures var attrs := WriteRow(codec, fields, values, state).value;
            var tag := ParseStartTag("<" + (name + (AttributesOfTag(attrs, true) + (">" + rest))));
            tag.Tag? && tag.name == name && tag.rest == rest && ParseList(tag.attributes) == Ok(attrs) && SelfClosing(tag.attributes)
  {
    var cells := CellsWritten(codec, fields, values, state).value;
    var attrs := WriteRow(codec, fields, values, state).value;
    CellNamesReadable(fields, cells);
    assert IsName(FORCE_NULL);
    TagRoundTrip(name, attrs, true, rest);
  }

  lemma {:induction false} CellNamesReadable(fields: seq<Field>, cells: seq<CellText>)
    requires FieldsNamed(fields) && |cells| <= |fields|
    ensures NamesReadable(CellAttributes(fields, cells))
  {
    if cells != [] {
      CellNamesReadable(fields, cells[..|cells| - 1]);
      assert IsAttributeName(fields[|cells| - 1].xmlName);
    }
  }

  // ---------------------------------------------------------------- group shapes

  datatype GroupShape = GroupShape(kind: ChangeKind, size: nat)

  function Shapes(changes: seq<RowChange>): (r: seq<GroupShape>)
    ensures |r| == |changes|
  {
    seq(|changes|, i requires 0 <= i < |changes| => GroupShape(changes[i].kind, |changes[i].rowIndices|))
  }

  /** A Current group of n rows comes back as n groups; every other group stays whole. */
  function SplitShape(change: RowChange): seq<GroupShape> {
    if change.kind == ChangeKind.Current
    then seq(|change.rowIndices|, _ => GroupShape(ChangeKind.Current, 1))
    else [GroupShape(change.kind, |change.rowIndices|)]
  }

  function SplitShapes(changes: seq<RowChange>): seq<GroupShape> {
    if changes == [] then [] else SplitShapes(changes[..|changes| - 1]) + SplitShape(changes[|changes| - 1])
  }

  lemma ShapesSnoc(changes: seq<RowChange>, change: RowChange)
    ensures Shapes(changes + [change]) == Shapes(changes) + [GroupShape(change.kind, |change.rowIndices|)]
  {
  }

  // ---------------------------------------------------------------- the walk of a written tree

  /** The Recordset with other row values. */
  function WithValues(rs: Recordset, values: seq<seq<Value>>): Recordset
    requires |values| == |rs.rows|
  {
    Recordset(seq(|rs.rows|, i requires 0 <= i < |rs.rows| => rs.rows[i].(values := values[i])), rs.changes)
  }

  /** What the walk has built so far: which row changes, in which groups. */
  predicate Holds(acc: Recordset, images: seq<RowImage>, shapes: seq<GroupShape>) {
    Ordered(acc) && Images(acc) == images && Shapes(acc.changes) == shapes
  }

  lemma PushHolds(acc: Recordset, image: RowImage)
    requires Ordered(acc)
    ensures Holds(Push(acc, image), Images(acc) + [image],
                  Shapes(acc.changes) + [GroupShape(image.Kind(), if image.Edit? then 2 else 1)])
  {
    PushKeepsOrder(acc, image);
    PushImages(acc, image);
  }

  lemma {:induction false} DataChildrenAppend(build: RowBuilder, a: seq<Node>, b: seq<Node>, rs: Recordset)
    ensures DataChildren(build, a + b, rs)
            == if DataChildren(build, a, rs).Ok? then DataChildren(build, b, DataChildren(build, a, rs).value) else Err
  {
    if a == [] {
      assert a + b == b;
    } else {
      assert (a + b)[1..] == a[1..] + b;
      if DataChild(build, a[0], rs).Ok? {
        DataChildrenAppend(build, a[1..], b, DataChild(build, a[0], rs).value);
      }
    }
  }

  lemma {:induction false} GroupChildrenAppend(build: RowBuilder, a: seq<Node>, b: seq<Node>, kind: ChangeKind, open: Open)
    ensures GroupChildren(build, a + b, kind, open)
            == if GroupChildren(build, a, kind, open).Ok? then GroupChildren(build, b, kind, GroupChildren(build, a, kind, open).value) else Err
  {
    if a == [] {
      assert a + b == b;
    } else {
      assert (a + b)[1..] == a[1..] + b;
      if GroupChild(build, a[0], kind, open).Ok? {
        GroupChildrenAppend(build, a[1..], b, kind, GroupChild(build, a[0], kind, open).value);
      }
    }
  }

  /** Accepted row elements. */
  function RowNodes(contents: seq<RowContent>): (r: seq<Node>)
    ensures |r| == |contents|
  {
    seq(|contents|, i requires 0 <= i < |contents| => RowNode(Accepted, contents[i]))
  }

  function BuildAll(build: RowBuilder, contents: seq<RowContent>, state: RowState): Result<seq<seq<Value>>> {
    if contents == [] then Ok([])
    else
      var init :- BuildAll(build, contents[..|contents| - 1], state);
      var values :- build(contents[|contents| - 1], state);
      Ok(init + [values])
  }

  function KeepAll(values: seq<seq<Value>>): (r: seq<RowImage>)
    ensures |r| == |values|
  {
    seq(|values|, i requires 0 <= i < |values| => Keep(values[i]))
  }

  function Singles(n: nat): seq<GroupShape> {
    seq(n, _ => GroupShape(ChangeKind.Current, 1))
  }

  /** Rows outside any wrapper: one Current group each. */
  lemma {:induction false} WalkCurrentRows(build: RowBuilder, contents: seq<RowContent>, acc: Recordset)
    requires Ordered(acc)
    ensures var built := BuildAll(build, contents, RowState.Current);
            var out := DataChildren(build, RowNodes(contents), acc);
            && (out.Ok? <==> built.Ok?)
            && (out.Ok? ==> Holds(out.value, Images(acc) + KeepAll(built.value), Shapes(acc.changes) + Singles(|contents|)))
  {
    if contents == [] {
      assert Images(acc) + KeepAll([]) == Images(acc) && Shapes(acc.changes) + Singles(0) == Shapes(acc.changes);
    } else {
      var init, last := contents[..|contents| - 1], contents[|contents| - 1];
      WalkCurrentRows(build, init, acc);
      assert RowNodes(contents) == RowNodes(init) + [RowNode(Accepted, last)];
      DataChildrenAppend(build, RowNodes(init), [RowNode(Accepted, last)], acc);
      var before := DataChildren(build, RowNodes(init), acc);
      if before.Ok? && build(last, RowState.Current).Ok? {
        var values, done := build(last, RowState.Current).value, BuildAll(build, init, RowState.Current).value;
        OneRow(build, last, before.value);
        PushHolds(before.value, Keep(values));
        assert Images(acc) + KeepAll(done) + [Keep(values)] == Images(acc) + KeepAll(done + [values]);
        assert Shapes(acc.changes) + Singles(|init|) + [GroupShape(ChangeKind.Current, 1)] == Shapes(acc.changes) + Singles(|contents|);
      } else if before.Ok? {
        OneRow(build, last, before.value);
      }
    }
  }

  lemma OneRow(build: RowBuilder, content: RowContent, rs: Recordset)
    ensures DataChildren(build, [RowNode(Accepted, content)], rs)
            == if build(content, RowState.Current).Ok? then Ok(Push(rs, Keep(build(content, RowState.Current).value))) else Err
  {
    var nodes := [RowNode(Accepted, content)];
    assert nodes[1..] == [];
  }

  /** The rows of an open wrapper after some elements. */
  function OpenRows(acc: Recordset, kind: ChangeKind, values: seq<seq<Value>>): Open {
    if values == [] then Open(acc, [], |acc.changes|)
    else
      var open := OpenRows(acc, kind, values[..|values| - 1]);
      Open(AppendRow(open.rs, StateOf(kind), open.changeIndex, values[|values| - 1]),
           open.rowIndices + [|open.rs.rows|], open.changeIndex)
  }

  lemma {:induction false} WalkGroupRows(build: RowBuilder, contents: seq<RowContent>, kind: ChangeKind, acc: Recordset)
    ensures var built := BuildAll(build, contents, StateOf(kind));
            GroupChildren(build, RowNodes(contents), kind, Open(acc, [], |acc.changes|))
            == if built.Ok? then Ok(OpenRows(acc, kind, built.value)) else Err
  {
    if contents != [] {
      var init, last := contents[..|contents| - 1], RowNode(Accepted, contents[|contents| - 1]);
      WalkGroupRows(build, init, kind, acc);
      assert RowNodes(contents) == RowNodes(init) + [last];
      GroupChildrenAppend(build, RowNodes(init), [last], kind, Open(acc, [], |acc.changes|));
      assert [last][1..] == [];
      var built := BuildAll(build, contents, StateOf(kind));
      if built.Ok? {
        BuildAllLength(build, init, StateOf(kind));
        assert built.value[..|init|] == BuildAll(build, init, StateOf(kind)).value;
      }
    }
  }

  lemma {:induction false} OpenRowsAre(acc: Recordset, kind: ChangeKind, values: seq<seq<Value>>)
    ensures var open := OpenRows(acc, kind, values);
            && open.changeIndex == |acc.changes| && open.rs.changes == acc.changes
            && acc.rows <= open.rs.rows && |open.rs.rows| == |acc.rows| + |values| && |open.rowIndices| == |values|
            && (forall k | 0 <= k < |values| :: open.rowIndices[k] == |acc.rows| + k)
            && (forall k | 0 <= k < |values| :: open.rs.rows[|acc.rows| + k].values == values[k])
  {
    if values != [] {
      OpenRowsAre(acc, kind, values[..|values| - 1]);
    }
  }

  function GroupImages(kind: ChangeKind, values: seq<seq<Value>>): (r: seq<RowImage>)
    ensures |r| == |values|
  {
    seq(|values|, i requires 0 <= i < |values| => ImageOf(kind, values[i]))
  }

  /** Rows of an insert or delete wrapper: one group of them all. */
  lemma WalkGroup(build: RowBuilder, contents: seq<RowContent>, kind: ChangeKind, acc: Recordset)
    requires Ordered(acc) && (kind == Insert || kind == Delete) && contents != []
    ensures var wrapper := Wrapper(if kind == Insert then InsertWrapper else DeleteWrapper, RowNodes(contents));
            var built := BuildAll(build, contents, StateOf(kind));
            var out := DataChildren(build, [wrapper], acc);
            && (out.Ok? <==> built.Ok?)
            && (out.Ok? ==> |built.value| == |contents|
                            && Holds(out.value, Images(acc) + GroupImages(kind, built.value),
                                     Shapes(acc.changes) + [GroupShape(kind, |contents|)]))
  {
    var nodes := [Wrapper(if kind == Insert then InsertWrapper else DeleteWrapper, RowNodes(contents))];
    assert nodes[1..] == [];
    WalkGroupRows(build, contents, kind, acc);
    var built := BuildAll(build, contents, StateOf(kind));
    if built.Ok? {
      BuildAllLength(build, contents, StateOf(kind));
      DataChildrenKeepOrder(build, nodes, acc);
      FlushedGroup(kind, acc, built.value);
    }
  }

  lemma {:induction false} BuildAllLength(build: RowBuilder, contents: seq<RowContent>, state: RowState)
    requires BuildAll(build, contents, state).Ok?
    ensures |BuildAll(build, contents, state).value| == |contents|
  {
    if contents != [] {
      BuildAllLength(build, contents[..|contents| - 1], state);
    }
  }

  lemma FlushedGroup(kind: ChangeKind, acc: Recordset, values: seq<seq<Value>>)
    requires GraphValid(acc) && kind != Update && values != []
    ensures var out := Flush(kind, OpenRows(acc, kind, values));
            && Images(out) == Images(acc) + GroupImages(kind, values)
            && Shapes(out.changes) == Shapes(acc.changes) + [GroupShape(kind, |values|)]
  {
    var open := OpenRows(acc, kind, values);
    OpenRowsAre(acc, kind, values);
    ShapesSnoc(acc.changes, RowChange(kind, open.rowIndices));
    NewGroupImages(kind, acc, values, open);
  }

  lemma NewGroupImages(kind: ChangeKind, acc: Recordset, values: seq<seq<Value>>, open: Open)
    requires GraphValid(acc) && kind != Update && values != []
    requires open.rs.changes == acc.changes && acc.rows <= open.rs.rows && |open.rs.rows| == |acc.rows| + |values|
    requires |open.rowIndices| == |values| && forall k | 0 <= k < |values| :: open.rowIndices[k] == |acc.rows| + k
    requires forall k | 0 <= k < |values| :: open.rs.rows[|acc.rows| + k].values == values[k]
    ensures Images(Flush(kind, open)) == Images(acc) + GroupImages(kind, values)
  {
    var out, change := Flush(kind, open), RowChange(kind, open.rowIndices);
    ImagesFromAppend(out, acc.changes, [change]);
    ImagesUnchanged(acc, out, 0);
    assert acc.changes[0..] == acc.changes;
    assert SplitGroup(out, kind, open.rowIndices) == GroupImages(kind, values);
    OneChange(out, change);
  }

  /** An update wrapper with one row on each side: one pair. */
  lemma WalkUpdate(build: RowBuilder, original: RowContent, updated: RowContent, acc: Recordset)
    requires Ordered(acc)
    ensures var out := DataChildren(build, [UpdateNode(original, updated)], acc);
            && (out.Ok? <==> build(original, Original).Ok? && build(updated, Updated).Ok?)
            && (out.Ok? ==> Holds(out.value, Images(acc) + [Edit(build(original, Original).value, build(updated, Updated).value)],
                                  Shapes(acc.changes) + [GroupShape(Update, 2)]))
  {
    var nodes := [UpdateNode(original, updated)];
    GatheredUpdate(original, updated);
    assert nodes[1..] == [];
    if build(original, Original).Ok? && build(updated, Updated).Ok? {
      var image := Edit(build(original, Original).value, build(updated, Updated).value);
      PushHolds(acc, image);
      assert DataChildren(build, nodes, acc) == Ok(Push(acc, image));
    }
  }

  lemma GatheredUpdate(original: RowContent, updated: RowContent)
    ensures GatherUpdate(UpdateNode(original, updated).children) == Ok(UpdateRows([original], [updated]))
  {
    var children := UpdateNode(original, updated).children;
    var originals, rows := [RowNode(Accepted, original)], [RowNode(Accepted, updated)];
    assert originals[1..] == [] && children[1..] == rows && rows[1..] == [];
    assert [original] + [] == [original] && [updated] + [] == [updated];
    assert OriginalRows(originals) == Ok([original]);
    assert GatherUpdate(rows) == Ok(UpdateRows([], [updated]));
  }

  // ---------------------------------------------------------------- every row read back

  function Builder(codec: XmlCodec, fields: seq<Field>): RowBuilder {
    (content: RowContent, state: RowState) => ParseRow(codec, fields, content, state)
  }

  /** Row i written on its own and read back on its own. */
  function RowBack(codec: XmlCodec, fields: seq<Field>, rs: Recordset, i: nat): Result<seq<Value>>
    requires i < |rs.rows|
  {
    var content :- WriteRowAt(codec, fields, rs, i);
    ParseRow(codec, fields, content, rs.rows[i].state)
  }

  function Backs(codec: XmlCodec, fields: seq<Field>, rs: Recordset): (r: seq<seq<Value>>)
    ensures |r| == |rs.rows|
  {
    seq(|rs.rows|, i requires 0 <= i < |rs.rows| =>
      if RowBack(codec, fields, rs, i).Ok? then RowBack(codec, fields, rs, i).value else [])
  }

  /** The content row i is written as, empty where the writer refuses it. */
  function ContentAt(codec: XmlCodec, fields: seq<Field>, rs: Recordset, index: nat): RowContent {
    match WriteRowAt(codec, fields, rs, index)
    case Ok(content) => content
    case Err => RowContent(map[], [], [])
  }

  function Contents(codec: XmlCodec, fields: seq<Field>, rs: Recordset, indices: seq<nat>): (r: seq<RowContent>)
    ensures |r| == |indices|
  {
    seq(|indices|, k requires 0 <= k < |indices| => ContentAt(codec, fields, rs, indices[k]))
  }

  lemma RowsAreWritten(codec: XmlCodec, fields: seq<Field>, rs: Recordset, indices: seq<nat>)
    requires WriteRows(codec, fields, rs, indices).Ok?
    ensures forall k | 0 <= k < |indices| :: WriteRowAt(codec, fields, rs, indices[k]).Ok?
  {
    forall k | 0 <= k < |indices| ensures WriteRowAt(codec, fields, rs, indices[k]).Ok? {
      if WriteRowAt(codec, fields, rs, indices[k]).Err? {
        RowFails(codec, fields, rs, indices, k);
      }
    }
  }

  lemma ContentsSnoc(codec: XmlCodec, fields: seq<Field>, rs: Recordset, indices: seq<nat>, last: nat)
    requires |indices| == last + 1
    ensures Contents(codec, fields, rs, indices)
            == Contents(codec, fields, rs, indices[..last]) + [ContentAt(codec, fields, rs, indices[last])]
  {
  }

  lemma RowNodesSnoc(contents: seq<RowContent>, content: RowContent)
    ensures RowNodes(contents + [content]) == RowNodes(contents) + [RowNode(Accepted, content)]
  {
  }

  lemma {:induction false} RowsAre(codec: XmlCodec, fields: seq<Field>, rs: Recordset, indices: seq<nat>)
    requires WriteRows(codec, fields, rs, indices).Ok?
    ensures forall k | 0 <= k < |indices| :: WriteRowAt(codec, fields, rs, indices[k]).Ok?
    ensures WriteRows(codec, fields, rs, indices).value == RowNodes(Contents(codec, fields, rs, indices))
  {
    RowsAreWritten(codec, fields, rs, indices);
    if indices != [] {
      var last := |indices| - 1;
      RowsAre(codec, fields, rs, indices[..last]);
      var contents, content := Contents(codec, fields, rs, indices[..last]), ContentAt(codec, fields, rs, indices[last]);
      ContentsSnoc(codec, fields, rs, indices, last);
      RowNodesSnoc(contents, content);
    }
  }

  lemma {:induction false} BuildAllIs(build: RowBuilder, contents: seq<RowContent>, state: RowState)
    ensures var built := BuildAll(build, contents, state);
            && (built.Ok? <==> forall k | 0 <= k < |contents| :: build(contents[k], state).Ok?)
            && (built.Ok? ==> |built.value| == |contents|
                              && forall k | 0 <= k < |contents| :: built.value[k] == build(contents[k], state).value)
  {
    if contents != [] {
      var last := |contents| - 1;
      BuildAllIs(build, contents[..last], state);
      if forall k | 0 <= k < last :: build(contents[..last][k], state).Ok? {
        assert forall k | 0 <= k < last :: build(contents[k], state).Ok?;
      } else {
        var k :| 0 <= k < last && build(contents[..last][k], state).Err?;
        assert build(contents[k], state).Err?;
      }
    }
  }

  /** The rows of a group in one state, built from what was written. */
  lemma GroupBack(codec: XmlCodec, fields: seq<Field>, rs: Recordset, indices: seq<nat>, state: RowState)
    requires forall k | 0 <= k < |indices| :: WriteRowAt(codec, fields, rs, indices[k]).Ok?
    requires forall k | 0 <= k < |indices| :: indices[k] < |rs.rows| && rs.rows[indices[k]].state == state
    ensures var built := BuildAll(Builder(codec, fields), Contents(codec, fields, rs, indices), state);
            && (built.Ok? <==> forall k | 0 <= k < |indices| :: RowBack(codec, fields, rs, indices[k]).Ok?)
            && (built.Ok? ==> |built.value| == |indices|
                              && forall k | 0 <= k < |indices| :: built.value[k] == Backs(codec, fields, rs)[indices[k]])
  {
    var build, contents := Builder(codec, fields), Contents(codec, fields, rs, indices);
    BuildAllIs(build, contents, state);
    forall k | 0 <= k < |indices| ensures build(contents[k], state) == RowBack(codec, fields, rs, indices[k]) {
    }
  }

  predicate GroupReads(codec: XmlCodec, fields: seq<Field>, rs: Recordset, change: RowChange) {
    forall k | 0 <= k < |change.rowIndices| ::
      change.rowIndices[k] < |rs.rows| ==> RowBack(codec, fields, rs, change.rowIndices[k]).Ok?
  }

  /** Walking the elements of one change. */
  lemma WalkChange(codec: XmlCodec, fields: seq<Field>, rs: Recordset, c: nat, acc: Recordset)
    requires GraphValid(rs) && c < |rs.changes| && Ordered(acc)
    requires WriteChange(codec, fields, rs, rs.changes[c]).Ok?
    ensures var change := rs.changes[c];
            var out := DataChildren(Builder(codec, fields), WriteChange(codec, fields, rs, change).value, acc);
            && (out.Ok? <==> GroupReads(codec, fields, rs, change))
            && (out.Ok? ==> Holds(out.value, Images(acc) + ChangeImages(WithValues(rs, Backs(codec, fields, rs)), change),
                                  Shapes(acc.changes) + SplitShape(change)))
  {
    var change := rs.changes[c];
    assert ChangeLinked(rs, c);
    var states := StatesOf(rs, change.rowIndices);
    assert forall k | 0 <= k < |states| :: states[k] == rs.rows[change.rowIndices[k]].state;
    match change.kind
    case Current => WalkCurrentChange(codec, fields, rs, change, acc);
    case Insert => WalkWrappedChange(codec, fields, rs, change, acc);
    case Delete => WalkWrappedChange(codec, fields, rs, change, acc);
    case Update =>
      assert states[0] == Original && states[1] == Updated && |states| == 2;
      WalkUpdateChange(codec, fields, rs, change, acc);
  }

  /** The images of a group are its rows' new values. */
  lemma GroupImagesAre(rs: Recordset, values: seq<seq<Value>>, change: RowChange, built: seq<seq<Value>>)
    requires |values| == |rs.rows| && change.kind != Update && |built| == |change.rowIndices|
    requires forall k | 0 <= k < |built| :: change.rowIndices[k] < |rs.rows| && built[k] == values[change.rowIndices[k]]
    ensures ChangeImages(WithValues(rs, values), change) == GroupImages(change.kind, built)
  {
  }

  lemma WalkCurrentChange(codec: XmlCodec, fields: seq<Field>, rs: Recordset, change: RowChange, acc: Recordset)
    requires Ordered(acc) && change.kind == ChangeKind.Current && WriteChange(codec, fields, rs, change).Ok?
    requires forall k | 0 <= k < |change.rowIndices| ::
               change.rowIndices[k] < |rs.rows| && rs.rows[change.rowIndices[k]].state == RowState.Current
    ensures var out := DataChildren(Builder(codec, fields), WriteChange(codec, fields, rs, change).value, acc);
            && (out.Ok? <==> GroupReads(codec, fields, rs, change))
            && (out.Ok? ==> Holds(out.value, Images(acc) + ChangeImages(WithValues(rs, Backs(codec, fields, rs)), change),
                                  Shapes(acc.changes) + SplitShape(change)))
  {
    var build, indices := Builder(codec, fields), change.rowIndices;
    RowsAre(codec, fields, rs, indices);
    var contents := Contents(codec, fields, rs, indices);
    WalkCurrentRows(build, contents, acc);
    GroupBack(codec, fields, rs, indices, RowState.Current);
    var built := BuildAll(build, contents, RowState.Current);
    if built.Ok? {
      GroupImagesAre(rs, Backs(codec, fields, rs), change, built.value);
      assert KeepAll(built.value) == GroupImages(change.kind, built.value);
    }
  }

  lemma WalkWrappedChange(codec: XmlCodec, fields: seq<Field>, rs: Recordset, change: RowChange, acc: Recordset)
    requires Ordered(acc) && (change.kind == Insert || change.kind == Delete) && change.rowIndices != []
    requires WriteChange(codec, fields, rs, change).Ok?
    requires forall k | 0 <= k < |change.rowIndices| ::
               change.rowIndices[k] < |rs.rows| && rs.rows[change.rowIndices[k]].state == StateOf(change.kind)
    ensures var out := DataChildren(Builder(codec, fields), WriteChange(codec, fields, rs, change).value, acc);
            && (out.Ok? <==> GroupReads(codec, fields, rs, change))
            && (out.Ok? ==> Holds(out.value, Images(acc) + ChangeImages(WithValues(rs, Backs(codec, fields, rs)), change),
                                  Shapes(acc.changes) + SplitShape(change)))
  {
    var build, indices := Builder(codec, fields), change.rowIndices;
    RowsAre(codec, fields, rs, indices);
    var contents := Contents(codec, fields, rs, indices);
    WalkGroup(build, contents, change.kind, acc);
    GroupBack(codec, fields, rs, indices, StateOf(change.kind));
    var built := BuildAll(build, contents, StateOf(change.kind));
    if built.Ok? {
      GroupImagesAre(rs, Backs(codec, fields, rs), change, built.value);
    }
  }

  lemma WalkUpdateChange(codec: XmlCodec, fields: seq<Field>, rs: Recordset, change: RowChange, acc: Recordset)
    requires Ordered(acc) && change.kind == Update && |change.rowIndices| == 2 && WriteChange(codec, fields, rs, change).Ok?
    requires change.rowIndices[0] < |rs.rows| && change.rowIndices[1] < |rs.rows|
    requires rs.rows[change.rowIndices[0]].state == Original && rs.rows[change.rowIndices[1]].state == Updated
    ensures var out := DataChildren(Builder(codec, fields), WriteChange(codec, fields, rs, change).value, acc);
            && (out.Ok? <==> GroupReads(codec, fields, rs, change))
            && (out.Ok? ==> Holds(out.value, Images(acc) + ChangeImages(WithValues(rs, Backs(codec, fields, rs)), change),
                                  Shapes(acc.changes) + SplitShape(change)))
  {
    var i, j := change.rowIndices[0], change.rowIndices[1];
    var original, updated := WriteRowAt(codec, fields, rs, i).value, WriteRowAt(codec, fields, rs, j).value;
    PairReads(codec, fields, rs, change);
    WalkUpdate(Builder(codec, fields), original, updated, acc);
  }

  lemma PairReads(codec: XmlCodec, fields: seq<Field>, rs: Recordset, change: RowChange)
    requires change.kind == Update && |change.rowIndices| == 2
    requires change.rowIndices[0] < |rs.rows| && change.rowIndices[1] < |rs.rows|
    ensures var original, updated := RowBack(codec, fields, rs, change.rowIndices[0]), RowBack(codec, fields, rs, change.rowIndices[1]);
            && (GroupReads(codec, fields, rs, change) <==> original.Ok? && updated.Ok?)
            && (original.Ok? && updated.Ok?
                ==> ChangeImages(WithValues(rs, Backs(codec, fields, rs)), change) == [Edit(original.value, updated.value)])
  {
    var original, updated := RowBack(codec, fields, rs, change.rowIndices[0]), RowBack(codec, fields, rs, change.rowIndices[1]);
    if GroupReads(codec, fields, rs, change) {
      assert original.Ok? && updated.Ok?;
    }
  }

  /** The walk of the first n changes, by its result. */
  predicate Walked(codec: XmlCodec, fields: seq<Field>, rs: Recordset, n: nat, out: Result<Recordset>)
    requires n <= |rs.changes|
  {
    && (out.Ok? <==> forall c | 0 <= c < n :: GroupReads(codec, fields, rs, rs.changes[c]))
    && (out.Ok? ==> Holds(out.value, ImagesFrom(WithValues(rs, Backs(codec, fields, rs)), rs.changes[..n]), SplitShapes(rs.changes[..n])))
  }

  lemma ImagesOneMore(rs: Recordset, changes: seq<RowChange>, n: nat)
    requires n < |changes|
    ensures ImagesFrom(rs, changes[..n + 1]) == ImagesFrom(rs, changes[..n]) + ChangeImages(rs, changes[n])
    ensures SplitShapes(changes[..n + 1]) == SplitShapes(changes[..n]) + SplitShape(changes[n])
  {
    assert changes[..n + 1] == changes[..n] + [changes[n]];
    assert changes[..n + 1][..n] == changes[..n];
    ImagesFromAppend(rs, changes[..n], [changes[n]]);
    OneChange(rs, changes[n]);
  }

  lemma WalkedOneMore(codec: XmlCodec, fields: seq<Field>, rs: Recordset, n: nat, acc: Recordset, out: Result<Recordset>)
    requires n < |rs.changes| && Walked(codec, fields, rs, n, Ok(acc))
    requires out.Ok? <==> GroupReads(codec, fields, rs, rs.changes[n])
    requires out.Ok? ==> Holds(out.value, Images(acc) + ChangeImages(WithValues(rs, Backs(codec, fields, rs)), rs.changes[n]),
                               Shapes(acc.changes) + SplitShape(rs.changes[n]))
    ensures Walked(codec, fields, rs, n + 1, out)
  {
    var back := WithValues(rs, Backs(codec, fields, rs));
    ImagesOneMore(back, rs.changes, n);
    assert Images(acc) == ImagesFrom(back, rs.changes[..n]) && Shapes(acc.changes) == SplitShapes(rs.changes[..n]);
    assert (forall c | 0 <= c < n + 1 :: GroupReads(codec, fields, rs, rs.changes[c])) <==> GroupReads(codec, fields, rs, rs.changes[n]);
  }

  lemma WalkedNoMore(codec: XmlCodec, fields: seq<Field>, rs: Recordset, n: nat)
    requires n < |rs.changes| && Walked(codec, fields, rs, n, Err)
    ensures Walked(codec, fields, rs, n + 1, Err)
  {
    var c :| 0 <= c < n && !GroupReads(codec, fields, rs, rs.changes[c]);
    assert c < n + 1;
  }

  /** The walk of one more change from where the walk of the first n stands. */
  lemma WalkNext(codec: XmlCodec, fields: seq<Field>, rs: Recordset, n: nat, acc: Result<Recordset>, tail: seq<Node>)
    requires GraphValid(rs) && n < |rs.changes| && Walked(codec, fields, rs, n, acc)
    requires WriteChange(codec, fields, rs, rs.changes[n]) == Ok(tail)
    ensures Walked(codec, fields, rs, n + 1,
                   if acc.Ok? then DataChildren(Builder(codec, fields), tail, acc.value) else Err)
  {
    if acc.Ok? {
      WalkChange(codec, fields, rs, n, acc.value);
      WalkedOneMore(codec, fields, rs, n, acc.value, DataChildren(Builder(codec, fields), tail, acc.value));
    } else {
      WalkedNoMore(codec, fields, rs, n);
    }
  }

  lemma {:induction false} WalkChanges(codec: XmlCodec, fields: seq<Field>, rs: Recordset, n: nat)
    requires GraphValid(rs) && n <= |rs.changes| && WriteChanges(codec, fields, rs, rs.changes[..n]).Ok?
    ensures Walked(codec, fields, rs, n,
                   DataChildren(Builder(codec, fields), WriteChanges(codec, fields, rs, rs.changes[..n]).value, EmptyRecordset))
  {
    if n == 0 {
      NothingWalked(codec, fields, rs);
    } else {
      WriteChangesSnoc(codec, fields, rs, rs.changes, n - 1);
      var head := WriteChanges(codec, fields, rs, rs.changes[..n - 1]).value;
      var tail := WriteChange(codec, fields, rs, rs.changes[n - 1]).value;
      WalkChanges(codec, fields, rs, n - 1);
      DataChildrenAppend(Builder(codec, fields), head, tail, EmptyRecordset);
      WalkNext(codec, fields, rs, n - 1, DataChildren(Builder(codec, fields), head, EmptyRecordset), tail);
    }
  }

  lemma NothingWalked(codec: XmlCodec, fields: seq<Field>, rs: Recordset)
    ensures Walked(codec, fields, rs, 0, Ok(EmptyRecordset))
  {
  }

  lemma OneChange(rs: Recordset, change: RowChange)
    ensures ImagesFrom(rs, [change]) == ChangeImages(rs, change)
  {
    assert [change][1..] == [] && ChangeImages(rs, change) + [] == ChangeImages(rs, change);
  }

  /** The walk over a written tree succeeds exactly when every row reads back on its own, and
      then yields those rows, in change order, in the same groups. */
  lemma WalkOfWritten(codec: XmlCodec, fields: seq<Field>, rs: Recordset)
    requires GraphValid(rs) && WriteData(codec, fields, rs).Ok?
    ensures var out := ParseRows(Builder(codec, fields), WriteData(codec, fields, rs).value);
            && (out.Ok? <==> forall i | 0 <= i < |rs.rows| :: RowBack(codec, fields, rs, i).Ok?)
            && (out.Ok? ==> Holds(out.value, Images(WithValues(rs, Backs(codec, fields, rs))), SplitShapes(rs.changes)))
  {
    assert rs.changes[..|rs.changes|] == rs.changes;
    WalkChanges(codec, fields, rs, |rs.changes|);
    if forall c | 0 <= c < |rs.changes| :: GroupReads(codec, fields, rs, rs.changes[c]) {
      forall i | 0 <= i < |rs.rows| ensures RowBack(codec, fields, rs, i).Ok? {
        assert RowLinked(rs, i);
        var c := rs.rows[i].changeIndex.value;
        assert GroupReads(codec, fields, rs, rs.changes[c]);
      }
    }
  }

  // ---------------------------------------------------------------- the round trip

  function XmlRecordset(fields: seq<Field>, rs: Recordset): Recordset
    requires forall i | 0 <= i < |rs.rows| :: |rs.rows[i].values| == |fields|
  {
    WithValues(rs, XmlRows(fields, rs))
  }

  function XmlRows(fields: seq<Field>, rs: Recordset): (r: seq<seq<Value>>)
    requires forall i | 0 <= i < |rs.rows| :: |rs.rows[i].values| == |fields|
    ensures |r| == |rs.rows|
  {
    seq(|rs.rows|, i requires 0 <= i < |rs.rows| => XmlValues(fields, rs.rows[i].values))
  }

  predicate RowsRead(codec: XmlCodec, fields: seq<Field>, rs: Recordset) {
    forall i | 0 <= i < |rs.rows| :: RowReads(codec, fields, rs.rows[i].values, rs.rows[i].state)
  }

  lemma WrittenRows(codec: XmlCodec, fields: seq<Field>, rs: Recordset, i: nat)
    requires GraphValid(rs) && WriteData(codec, fields, rs).Ok? && i < |rs.rows|
    ensures WriteRowAt(codec, fields, rs, i).Ok?
  {
    assert RowLinked(rs, i);
    var c := rs.rows[i].changeIndex.value;
    var change := rs.changes[c];
    assert rs.changes[..|rs.changes|] == rs.changes;
    WrittenChange(codec, fields, rs, |rs.changes|, c);
    var k :| 0 <= k < |change.rowIndices| && change.rowIndices[k] == i;
    PairOfUpdate(rs, c);
    WrittenInChange(codec, fields, rs, change, k);
  }

  lemma WrittenInChange(codec: XmlCodec, fields: seq<Field>, rs: Recordset, change: RowChange, k: nat)
    requires WriteChange(codec, fields, rs, change).Ok? && k < |change.rowIndices|
    requires change.kind == Update ==> |change.rowIndices| == 2
    ensures WriteRowAt(codec, fields, rs, change.rowIndices[k]).Ok?
  {
    if change.kind != Update {
      assert WriteRows(codec, fields, rs, change.rowIndices).Ok?;
      RowsAreWritten(codec, fields, rs, change.rowIndices);
    } else {
      assert k == 0 || k == 1;
    }
  }

  lemma PairOfUpdate(rs: Recordset, c: nat)
    requires GraphValid(rs) && c < |rs.changes|
    ensures rs.changes[c].kind == Update ==> |rs.changes[c].rowIndices| == 2
  {
    assert ChangeLinked(rs, c);
    assert |StatesOf(rs, rs.changes[c].rowIndices)| == |rs.changes[c].rowIndices|;
  }

  lemma {:induction false} WrittenChange(codec: XmlCodec, fields: seq<Field>, rs: Recordset, n: nat, c: nat)
    requires c < n <= |rs.changes| && WriteChanges(codec, fields, rs, rs.changes[..n]).Ok?
    ensures WriteChange(codec, fields, rs, rs.changes[c]).Ok?
  {
    assert rs.changes[..n][..n - 1] == rs.changes[..n - 1];
    if c < n - 1 {
      WrittenChange(codec, fields, rs, n - 1, c);
    }
  }

  /** Equal row changes mean equal rows: no row of a validated graph goes unlisted. */
  lemma ImagesDetermineRows(rs: Recordset, a: seq<seq<Value>>, b: seq<seq<Value>>, i: nat)
    requires GraphValid(rs) && |a| == |b| == |rs.rows| && i < |rs.rows|
    requires Images(WithValues(rs, a)) == Images(WithValues(rs, b))
    ensures a[i] == b[i]
  {
    assert RowLinked(rs, i);
    var c := rs.rows[i].changeIndex.value;
    var change := rs.changes[c];
    SameChangeImages(rs, a, b, 0, c);
    assert rs.changes[0..] == rs.changes;
    var k :| 0 <= k < |change.rowIndices| && change.rowIndices[k] == i;
    assert ChangeLinked(rs, c);
    var x, y := ChangeImages(WithValues(rs, a), change), ChangeImages(WithValues(rs, b), change);
    if change.kind == Update {
      assert |StatesOf(rs, change.rowIndices)| == 2;
      assert x[0] == y[0];
    } else {
      assert x[k].values == a[i] && y[k].values == b[i];
    }
  }

  lemma {:induction false} SameChangeImages(rs: Recordset, a: seq<seq<Value>>, b: seq<seq<Value>>, from: nat, c: nat)
    requires |a| == |b| == |rs.rows| && from <= c < |rs.changes|
    requires ImagesFrom(WithValues(rs, a), rs.changes[from..]) == ImagesFrom(WithValues(rs, b), rs.changes[from..])
    ensures ChangeImages(WithValues(rs, a), rs.changes[c]) == ChangeImages(WithValues(rs, b), rs.changes[c])
    decreases |rs.changes| - from
  {
    var x, y := ChangeImages(WithValues(rs, a), rs.changes[from]), ChangeImages(WithValues(rs, b), rs.changes[from]);
    var more := rs.changes[from..][1..];
    assert more == rs.changes[from + 1..];
    assert |x| == |y|;
    CutSame(x, ImagesFrom(WithValues(rs, a), more), y, ImagesFrom(WithValues(rs, b), more));
    if from < c {
      SameChangeImages(rs, a, b, from + 1, c);
    }
  }

  lemma CutSame<T>(a: seq<T>, x: seq<T>, b: seq<T>, y: seq<T>)
    requires |a| == |b| && a + x == b + y
    ensures a == b && x == y
  {
    assert a == (a + x)[..|a|] && x == (a + x)[|a|..];
  }

  /** The XML round trip: rows, states and groups come back, nulls, values and omitted cells
      apart, if and only if every row's names survive. */
  lemma UpdategramRoundTrip(codec: XmlCodec, fields: seq<Field>, rs: Recordset)
    requires FieldsNamed(fields) && GraphValid(rs) && RowsRead(codec, fields, rs) && WriteData(codec, fields, rs).Ok?
    ensures (var out := ParseRows(Builder(codec, fields), WriteData(codec, fields, rs).value);
             out.Ok? && Holds(out.value, Images(XmlRecordset(fields, rs)), SplitShapes(rs.changes)))
            <==> forall i | 0 <= i < |rs.rows| :: NamesKept(fields, rs.rows[i].values, rs.rows[i].state)
  {
    var out := ParseRows(Builder(codec, fields), WriteData(codec, fields, rs).value);
    var backs, rows := Backs(codec, fields, rs), XmlRows(fields, rs);
    forall i | 0 <= i < |rs.rows|
      ensures RowBack(codec, fields, rs, i) == Ok(rows[i]) <==> NamesKept(fields, rs.rows[i].values, rs.rows[i].state)
    {
      WrittenRows(codec, fields, rs, i);
      RowRoundTrip(codec, fields, rs.rows[i].values, rs.rows[i].state);
    }
    WalkOfWritten(codec, fields, rs);
    if forall i | 0 <= i < |rs.rows| :: NamesKept(fields, rs.rows[i].values, rs.rows[i].state) {
      assert backs == rows;
    } else if out.Ok? && Images(out.value) == Images(XmlRecordset(fields, rs)) {
      forall i | 0 <= i < |rs.rows| ensures RowBack(codec, fields, rs, i) == Ok(rows[i]) {
        ImagesDetermineRows(rs, backs, rows, i);
      }
    }
  }

  lemma WithValuesValid(rs: Recordset, values: seq<seq<Value>>)
    requires GraphValid(rs) && |values| == |rs.rows|
    ensures GraphValid(WithValues(rs, values))
  {
    var out := WithValues(rs, values);
    forall i | 0 <= i < |out.rows| ensures RowLinked(out, i) {
      assert RowLinked(rs, i);
    }
    forall c | 0 <= c < |out.changes| ensures ChangeLinked(out, c) {
      assert ChangeLinked(rs, c);
      assert StatesOf(out, out.changes[c].rowIndices) == StatesOf(rs, rs.changes[c].rowIndices);
    }
  }

  /** In particular neither view changes. */
  lemma UpdategramKeepsViews(codec: XmlCodec, fields: seq<Field>, rs: Recordset)
    requires FieldsNamed(fields) && GraphValid(rs) && RowsRead(codec, fields, rs) && WriteData(codec, fields, rs).Ok?
    requires forall i | 0 <= i < |rs.rows| :: NamesKept(fields, rs.rows[i].values, rs.rows[i].state)
    ensures var out := ParseRows(Builder(codec, fields), WriteData(codec, fields, rs).value);
            && out.Ok?
            && DefaultView(out.value) == DefaultView(XmlRecordset(fields, rs))
            && PendingView(out.value) == PendingView(XmlRecordset(fields, rs))
  {
    UpdategramRoundTrip(codec, fields, rs);
    ViewsFollowImages(ParseRows(Builder(codec, fields), WriteData(codec, fields, rs).value).value);
    WithValuesValid(rs, XmlRows(fields, rs));
    ViewsFollowImages(XmlRecordset(fields, rs));
  }
}
