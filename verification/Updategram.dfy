/** Reading an XML updategram: rows inside insert, delete and update wrappers, wrappers inside
    wrappers, and the row/change graph the walk builds. */
module Updategram {
  import opened Prelude
  import opened RecordsetModel
  import opened RowGraph

  // ---------------------------------------------------------------- the element tree

  datatype Disposition = Accepted | Ignored | Missing

  datatype WrapperKind = InsertWrapper | DeleteWrapper | UpdateWrapper | OriginalWrapper

  /** The elements below `rs:data`. A row carries its raw attribute list and its own child
      elements; the disposition is the raw scanner's verdict on it. */
  datatype Node =
    | RowNode(disposition: Disposition, content: RowContent)
    | Wrapper(kind: WrapperKind, children: seq<Node>)
    | Other(children: seq<Node>)

  datatype RowContent = RowContent(attrs: map<string, string>, forceNull: seq<string>, children: seq<Node>)

  /** `push_row` and `push_row_with_schema` up to the push: the values of one row element. */
  type RowBuilder = (RowContent, RowState) -> Result<seq<Value>>

  // ---------------------------------------------------------------- the walk

  function AppendRow(rs: Recordset, state: RowState, changeIndex: nat, values: seq<Value>): Recordset {
    rs.(rows := rs.rows + [Row(|rs.rows|, state, [StatusOf(state)], Some(changeIndex), values)])
  }

  function PushChange(rs: Recordset, change: RowChange): Recordset {
    rs.(changes := rs.changes + [change])
  }

  /** Rows of an open insert or delete wrapper that no change lists yet. */
  datatype Open = Open(rs: Recordset, rowIndices: seq<nat>, changeIndex: nat)

  /** `flush_insert_delete_change` */
  function Flush(kind: ChangeKind, open: Open): Recordset {
    if open.rowIndices == [] then open.rs else PushChange(open.rs, RowChange(kind, open.rowIndices))
  }

  /** Row elements of an update wrapper, before and after the edit. */
  datatype UpdateRows = UpdateRows(originals: seq<RowContent>, updated: seq<RowContent>)

  /** The row elements directly inside an `original` wrapper. */
  function OriginalRows(nodes: seq<Node>): Result<seq<RowContent>> {
    if nodes == [] then Ok([])
    else if !nodes[0].RowNode? || nodes[0].disposition == Missing then Err
    else
      var rest :- OriginalRows(nodes[1..]);
      Ok((if nodes[0].disposition == Accepted then [nodes[0].content] else []) + rest)
  }

  function GatherUpdate(nodes: seq<Node>): Result<UpdateRows> {
    if nodes == [] then Ok(UpdateRows([], []))
    else
      match nodes[0]
      case Other(_) => Err
      case Wrapper(kind, children) =>
        if kind != OriginalWrapper then Err
        else
          var head :- OriginalRows(children);
          var rest :- GatherUpdate(nodes[1..]);
          Ok(UpdateRows(head + rest.originals, rest.updated))
      case RowNode(disposition, content) =>
        if disposition == Missing then Err
        else
          var rest :- GatherUpdate(nodes[1..]);
          Ok(UpdateRows(rest.originals, (if disposition == Accepted then [content] else []) + rest.updated))
  }

  /** `malformed_update_current_row` */
  function MalformedRow(update: UpdateRows): Option<RowContent> {
    if update.updated == [] then if update.originals == [] then None else Some(update.originals[0])
    else if update.originals == [] then Some(update.updated[0])
    else
      var last := update.updated[|update.updated| - 1];
      Some(last.(attrs := update.originals[0].attrs + last.attrs))
  }

  function PushUpdate(build: RowBuilder, update: UpdateRows, rs: Recordset): Result<Recordset> {
    var changeIndex := |rs.changes|;
    if |update.originals| == 1 && |update.updated| == 1 then
      var original :- build(update.originals[0], Original);
      var updated :- build(update.updated[0], Updated);
      var withRows := AppendRow(AppendRow(rs, Original, changeIndex, original), Updated, changeIndex, updated);
      Ok(PushChange(withRows, RowChange(Update, [|rs.rows|, |rs.rows| + 1])))
    else if MalformedRow(update).Some? then
      var values :- build(MalformedRow(update).value, RowState.Current);
      Ok(PushChange(AppendRow(rs, RowState.Current, changeIndex, values), RowChange(ChangeKind.Current, [|rs.rows|])))
    else Ok(rs)
  }

  /** `parse_flat_data_child` and `parse_shaped_data_child` */
  function DataChild(build: RowBuilder, node: Node, rs: Recordset): Result<Recordset>
    decreases node, 1
  {
    match node
    case RowNode(disposition, content) =>
      if disposition == Missing then Err
      else if disposition == Ignored then Ok(rs)
      else
        var values :- build(content, RowState.Current);
        Ok(PushChange(AppendRow(rs, RowState.Current, |rs.changes|, values), RowChange(ChangeKind.Current, [|rs.rows|])))
    case Wrapper(kind, children) =>
      match kind {
        case InsertWrapper =>
          var open :- GroupChildren(build, children, Insert, Open(rs, [], |rs.changes|));
          Ok(Flush(Insert, open))
        case DeleteWrapper =>
          var open :- GroupChildren(build, children, Delete, Open(rs, [], |rs.changes|));
          Ok(Flush(Delete, open))
        case UpdateWrapper =>
          var update :- GatherUpdate(children);
          PushUpdate(build, update, rs)
        case OriginalWrapper => DataChildren(build, children, rs)
      }
    case Other(children) => DataChildren(build, children, rs)
  }

  function DataChildren(build: RowBuilder, nodes: seq<Node>, rs: Recordset): Result<Recordset>
    decreases nodes, 0
  {
    if nodes == [] then Ok(rs)
    else
      var next :- DataChild(build, nodes[0], rs);
      DataChildren(build, nodes[1..], next)
  }

  /** `is_nested_rowset_update_wrapper_with_row_content` */
  predicate HasRowContent(nodes: seq<Node>) {
    exists i :: 0 <= i < |nodes| && IsRowContent(nodes[i])
  }

  predicate IsRowContent(node: Node) {
    node.RowNode?
    || (node.Wrapper? && node.kind == OriginalWrapper && exists k :: 0 <= k < |node.children| && node.children[k].RowNode?)
  }

  function StateOf(kind: ChangeKind): RowState {
    if kind == Insert then Inserted else RowState.Deleted
  }

  /** `parse_flat_insert_delete_child` and its shaped twin: a nested wrapper closes the open
      group, is walked on its own, and the group goes on behind it. */
  function GroupChild(build: RowBuilder, node: Node, kind: ChangeKind, open: Open): Result<Open>
    decreases node, 1
  {
    match node
    case RowNode(disposition, content) =>
      if disposition == Missing then Err
      else if disposition == Ignored then Ok(open)
      else
        var values :- build(content, StateOf(kind));
        Ok(Open(AppendRow(open.rs, StateOf(kind), open.changeIndex, values), open.rowIndices + [|open.rs.rows|], open.changeIndex))
    case Wrapper(wrapper, children) =>
      if wrapper == InsertWrapper || wrapper == DeleteWrapper || (wrapper == UpdateWrapper && HasRowContent(children)) then
        var inner :- NestedWrapper(build, wrapper, children, Flush(kind, open));
        Ok(Open(inner, [], |inner.changes|))
      else Err
    case Other(children) => GroupChildren(build, children, kind, open)
  }

  /** The data walk of a wrapper met inside an open group. */
  function NestedWrapper(build: RowBuilder, wrapper: WrapperKind, children: seq<Node>, rs: Recordset): Result<Recordset>
    requires wrapper != OriginalWrapper
    decreases children, 1
  {
    if wrapper == UpdateWrapper then
      var update :- GatherUpdate(children);
      PushUpdate(build, update, rs)
    else
      var kind := if wrapper == InsertWrapper then Insert else Delete;
      var open :- GroupChildren(build, children, kind, Open(rs, [], |rs.changes|));
      Ok(Flush(kind, open))
  }

  function GroupChildren(build: RowBuilder, nodes: seq<Node>, kind: ChangeKind, open: Open): Result<Open>
    decreases nodes, 0
  {
    if nodes == [] then Ok(open)
    else
      var next :- GroupChild(build, nodes[0], kind, open);
      GroupChildren(build, nodes[1..], kind, next)
  }

  /** `parse_rows` and `parse_rows_with_schema` over the children of the data elements. */
  function ParseRows(build: RowBuilder, nodes: seq<Node>): Result<Recordset> {
    DataChildren(build, nodes, EmptyRecordset)
  }

  lemma NestedWrapperIsDataChild(build: RowBuilder, wrapper: WrapperKind, children: seq<Node>, rs: Recordset)
    requires wrapper != OriginalWrapper
    ensures NestedWrapper(build, wrapper, children, rs) == DataChild(build, Wrapper(wrapper, children), rs)
  {
  }

  // ---------------------------------------------------------------- the invariant

  /** A validated graph whose changes list the rows in row order. */
  predicate Ordered(rs: Recordset) {
    GraphValid(rs) && AllIndices(rs.changes) == Upto(|rs.rows|)
  }

  function Upto(n: nat): (r: seq<nat>)
    ensures |r| == n
  {
    seq(n, i requires 0 <= i < n => i)
  }

  /** At every step: the open rows would be numbered as the next change, and listing them
      would complete the graph. */
  predicate OpenOrdered(kind: ChangeKind, open: Open) {
    (kind == Insert || kind == Delete) && open.changeIndex == |open.rs.changes| && Ordered(Flush(kind, open))
  }

  lemma {:induction false} AllIndicesSnoc(changes: seq<RowChange>, change: RowChange)
    ensures AllIndices(changes + [change]) == AllIndices(changes) + change.rowIndices
  {
    if changes == [] {
      assert changes + [change] == [change] && [change][1..] == [];
    } else {
      assert (changes + [change])[1..] == changes[1..] + [change];
      AllIndicesSnoc(changes[1..], change);
    }
  }

  /** Pushing one image, as the readers of both formats do, keeps the order. */
  lemma PushKeepsOrder(rs: Recordset, image: RowImage)
    requires Ordered(rs)
    ensures Ordered(Push(rs, image))
  {
    var out := Push(rs, image);
    PushValid(rs, image);
    AllIndicesSnoc(rs.changes, out.changes[|rs.changes|]);
    assert out.changes == rs.changes + [out.changes[|rs.changes|]];
    assert Upto(|out.rows|) == Upto(|rs.rows|) + out.changes[|rs.changes|].rowIndices;
  }

  lemma OpenGroupLinked(kind: ChangeKind, open: Open, values: seq<Value>)
    requires OpenOrdered(kind, open)
    ensures var after := Flush(kind, Open(AppendRow(open.rs, StateOf(kind), open.changeIndex, values),
                                          open.rowIndices + [|open.rs.rows|], open.changeIndex));
            ChangeLinked(after, |open.rs.changes|)
  {
    var before := Flush(kind, open);
    var c := |open.rs.changes|;
    if open.rowIndices != [] {
      assert ChangeLinked(before, c);
      var was := StatesOf(before, open.rowIndices);
      assert forall k | 0 <= k < |open.rowIndices| :: was[k] == before.rows[open.rowIndices[k]].state;
    }
  }

  /** The open group with one more row. */
  function WithRow(kind: ChangeKind, open: Open, values: seq<Value>): Open
    requires kind == Insert || kind == Delete
  {
    Open(AppendRow(open.rs, StateOf(kind), open.changeIndex, values), open.rowIndices + [|open.rs.rows|], open.changeIndex)
  }

  lemma OpenRowLinked(kind: ChangeKind, open: Open, values: seq<Value>, i: nat)
    requires OpenOrdered(kind, open) && i <= |open.rs.rows|
    ensures RowLinked(Flush(kind, WithRow(kind, open, values)), i)
  {
    if i < |open.rs.rows| {
      assert RowLinked(Flush(kind, open), i);
    }
  }

  lemma ClosedGroupLinked(kind: ChangeKind, open: Open, values: seq<Value>, k: nat)
    requires OpenOrdered(kind, open) && k < |open.rs.changes|
    ensures ChangeLinked(Flush(kind, WithRow(kind, open, values)), k)
  {
    var before, after := Flush(kind, open), Flush(kind, WithRow(kind, open, values));
    assert ChangeLinked(before, k);
    assert StatesOf(after, after.changes[k].rowIndices) == StatesOf(before, before.changes[k].rowIndices);
  }

  lemma OpenIndices(kind: ChangeKind, open: Open, values: seq<Value>)
    requires OpenOrdered(kind, open)
    ensures AllIndices(Flush(kind, WithRow(kind, open, values)).changes) == Upto(|open.rs.rows| + 1)
  {
    var n := |open.rs.rows|;
    AllIndicesSnoc(open.rs.changes, RowChange(kind, open.rowIndices + [n]));
    AllIndicesSnoc(open.rs.changes, RowChange(kind, open.rowIndices));
    assert AllIndices(open.rs.changes) + open.rowIndices == Upto(n);
    Regrouped(AllIndices(open.rs.changes), open.rowIndices, [n]);
    assert Upto(n + 1) == Upto(n) + [n];
  }

  /** One more open row keeps the invariant. */
  lemma OpenRowKeepsOrder(kind: ChangeKind, open: Open, values: seq<Value>)
    requires OpenOrdered(kind, open)
    ensures OpenOrdered(kind, Open(AppendRow(open.rs, StateOf(kind), open.changeIndex, values),
                                   open.rowIndices + [|open.rs.rows|], open.changeIndex))
  {
    var after := Flush(kind, WithRow(kind, open, values));
    forall i | 0 <= i < |after.rows| ensures RowLinked(after, i) {
      OpenRowLinked(kind, open, values, i);
    }
    forall k | 0 <= k < |after.changes| ensures ChangeLinked(after, k) {
      if k < |open.rs.changes| {
        ClosedGroupLinked(kind, open, values, k);
      } else {
        OpenGroupLinked(kind, open, values);
      }
    }
    OpenIndices(kind, open, values);
  }

  lemma UpdateKeepsOrder(build: RowBuilder, update: UpdateRows, rs: Recordset)
    requires Ordered(rs) && PushUpdate(build, update, rs).Ok?
    ensures Ordered(PushUpdate(build, update, rs).value)
  {
    if |update.originals| == 1 && |update.updated| == 1 {
      var image := Edit(build(update.originals[0], Original).value, build(update.updated[0], Updated).value);
      PushKeepsOrder(rs, image);
      assert PushUpdate(build, update, rs).value == Push(rs, image);
    } else if MalformedRow(update).Some? {
      var image := Keep(build(MalformedRow(update).value, RowState.Current).value);
      PushKeepsOrder(rs, image);
      assert PushUpdate(build, update, rs).value == Push(rs, image);
    }
  }

  lemma {:induction false} DataChildKeepsOrder(build: RowBuilder, node: Node, rs: Recordset)
    requires Ordered(rs) && DataChild(build, node, rs).Ok?
    ensures Ordered(DataChild(build, node, rs).value)
    decreases node, 1
  {
    match node
    case RowNode(disposition, content) =>
      if disposition == Accepted {
        var image := Keep(build(content, RowState.Current).value);
        PushKeepsOrder(rs, image);
        assert DataChild(build, node, rs).value == Push(rs, image);
      }
    case Wrapper(kind, children) =>
      match kind {
        case InsertWrapper => GroupChildrenKeepOrder(build, children, Insert, Open(rs, [], |rs.changes|));
        case DeleteWrapper => GroupChildrenKeepOrder(build, children, Delete, Open(rs, [], |rs.changes|));
        case UpdateWrapper => UpdateKeepsOrder(build, GatherUpdate(children).value, rs);
        case OriginalWrapper => DataChildrenKeepOrder(build, children, rs);
      }
    case Other(children) => DataChildrenKeepOrder(build, children, rs);
  }

  lemma {:induction false} DataChildrenKeepOrder(build: RowBuilder, nodes: seq<Node>, rs: Recordset)
    requires Ordered(rs) && DataChildren(build, nodes, rs).Ok?
    ensures Ordered(DataChildren(build, nodes, rs).value)
    decreases nodes, 0
  {
    if nodes != [] {
      DataChildKeepsOrder(build, nodes[0], rs);
      DataChildrenKeepOrder(build, nodes[1..], DataChild(build, nodes[0], rs).value);
    }
  }

  lemma {:induction false} GroupChildKeepsOrder(build: RowBuilder, node: Node, kind: ChangeKind, open: Open)
    requires OpenOrdered(kind, open) && GroupChild(build, node, kind, open).Ok?
    ensures OpenOrdered(kind, GroupChild(build, node, kind, open).value)
    decreases node, 1
  {
    match node
    case RowNode(disposition, content) =>
      if disposition == Accepted {
        OpenRowKeepsOrder(kind, open, build(content, StateOf(kind)).value);
      }
    case Wrapper(wrapper, children) => NestedKeepsOrder(build, wrapper, children, Flush(kind, open));
    case Other(children) => GroupChildrenKeepOrder(build, children, kind, open);
  }

  lemma {:induction false} NestedKeepsOrder(build: RowBuilder, wrapper: WrapperKind, children: seq<Node>, rs: Recordset)
    requires wrapper != OriginalWrapper && Ordered(rs) && NestedWrapper(build, wrapper, children, rs).Ok?
    ensures Ordered(NestedWrapper(build, wrapper, children, rs).value)
    decreases children, 1
  {
    if wrapper == UpdateWrapper {
      UpdateKeepsOrder(build, GatherUpdate(children).value, rs);
    } else {
      GroupChildrenKeepOrder(build, children, if wrapper == InsertWrapper then Insert else Delete, Open(rs, [], |rs.changes|));
    }
  }

  lemma {:induction false} GroupChildrenKeepOrder(build: RowBuilder, nodes: seq<Node>, kind: ChangeKind, open: Open)
    requires OpenOrdered(kind, open) && GroupChildren(build, nodes, kind, open).Ok?
    ensures OpenOrdered(kind, GroupChildren(build, nodes, kind, open).value)
    decreases nodes, 0
  {
    if nodes != [] {
      GroupChildKeepsOrder(build, nodes[0], kind, open);
      GroupChildrenKeepOrder(build, nodes[1..], kind, GroupChild(build, nodes[0], kind, open).value);
    }
  }

  /** Whatever the element tree looks like, a walk that succeeds yields a graph the validator
      accepts, with the rows listed once each, in row order. */
  lemma WalkYieldsValidGraph(build: RowBuilder, nodes: seq<Node>)
    requires ParseRows(build, nodes).Ok?
    ensures Ordered(ParseRows(build, nodes).value)
  {
    DataChildrenKeepOrder(build, nodes, EmptyRecordset);
  }

  // ---------------------------------------------------------------- the walk as the source runs it

  /** `row_indices` and `change_index` of an open wrapper, updated in place. */
  class PendingGroup {
    var rowIndices: seq<nat>
    var changeIndex: nat

    constructor (changeIndex: nat)
      ensures rowIndices == [] && this.changeIndex == changeIndex
    {
      this.rowIndices, this.changeIndex := [], changeIndex;
    }
  }

  /** `rows` and `changes`, pushed to by the recursive walk. */
  class Walker {
    const build: RowBuilder
    var rows: seq<Row>
    var changes: seq<RowChange>

    constructor (build: RowBuilder)
      ensures this.build == build && Graph() == EmptyRecordset
    {
      this.build, rows, changes := build, [], [];
    }

    function Graph(): Recordset
      reads this
    {
      Recordset(rows, changes)
    }

    method PushRow(content: RowContent, state: RowState, changeIndex: nat) returns (index: Result<nat>)
      modifies this`rows
      ensures index.Ok? <==> build(content, state).Ok?
      ensures index.Ok? ==> index.value == |old(rows)| && Graph() == AppendRow(old(Graph()), state, changeIndex, build(content, state).value)
    {
      var values := build(content, state);
      if values.Err? {
        return Err;
      }
      index := Ok(|rows|);
      rows := rows + [Row(|rows|, state, [StatusOf(state)], Some(changeIndex), values.value)];
    }

    method FlushGroup(kind: ChangeKind, group: PendingGroup)
      modifies this`changes, group`rowIndices
      ensures Graph() == Flush(kind, Open(old(Graph()), old(group.rowIndices), old(group.changeIndex)))
      ensures group.rowIndices == []
    {
      if group.rowIndices != [] {
        changes := changes + [RowChange(kind, group.rowIndices)];
        group.rowIndices := [];
      }
    }

    method PushUpdateRows(update: UpdateRows) returns (ok: bool)
      modifies this
      ensures ok <==> PushUpdate(build, update, old(Graph())).Ok?
      ensures ok ==> Graph() == PushUpdate(build, update, old(Graph())).value
    {
      var changeIndex := |changes|;
      if |update.originals| == 1 && |update.updated| == 1 {
        var original := PushRow(update.originals[0], Original, changeIndex);
        if original.Err? {
          return false;
        }
        var updated := PushRow(update.updated[0], Updated, changeIndex);
        if updated.Err? {
          return false;
        }
        changes := changes + [RowChange(Update, [original.value, updated.value])];
      } else {
        var malformed := MalformedRow(update);
        if malformed.Some? {
          var index := PushRow(malformed.value, RowState.Current, changeIndex);
          if index.Err? {
            return false;
          }
          changes := changes + [RowChange(ChangeKind.Current, [index.value])];
        }
      }
      return true;
    }

    method WalkChild(node: Node) returns (ok: bool)
      modifies this
      ensures ok <==> DataChild(build, node, old(Graph())).Ok?
      ensures ok ==> Graph() == DataChild(build, node, old(Graph())).value
      decreases node, 1
    {
      match node {
        case RowNode(disposition, content) =>
          if disposition == Missing {
            return false;
          }
          if disposition == Accepted {
            var index := PushRow(content, RowState.Current, |changes|);
            if index.Err? {
              return false;
            }
            changes := changes + [RowChange(ChangeKind.Current, [index.value])];
          }
          return true;
        case Wrapper(kind, children) =>
          if kind == OriginalWrapper {
            ok := WalkChildren(children);
          } else {
            NestedWrapperIsDataChild(build, kind, children, Graph());
            ok := WalkWrapper(kind, children);
          }
        case Other(children) =>
          ok := WalkChildren(children);
      }
    }

    method WalkWrapper(wrapper: WrapperKind, children: seq<Node>) returns (ok: bool)
      requires wrapper != OriginalWrapper
      modifies this
      ensures ok <==> NestedWrapper(build, wrapper, children, old(Graph())).Ok?
      ensures ok ==> Graph() == NestedWrapper(build, wrapper, children, old(Graph())).value
      decreases children, 1
    {
      if wrapper == UpdateWrapper {
        var update := GatherUpdate(children);
        if update.Err? {
          return false;
        }
        ok := PushUpdateRows(update.value);
      } else {
        var kind := if wrapper == InsertWrapper then Insert else Delete;
        var group := new PendingGroup(|changes|);
        ok := WalkGroupChildren(children, kind, group);
        if ok {
          FlushGroup(kind, group);
        }
      }
    }

    method WalkChildren(nodes: seq<Node>) returns (ok: bool)
      modifies this
      ensures ok <==> DataChildren(build, nodes, old(Graph())).Ok?
      ensures ok ==> Graph() == DataChildren(build, nodes, old(Graph())).value
      decreases nodes, 0
    {
      if nodes == [] {
        return true;
      }
      ok := WalkChild(nodes[0]);
      if ok {
        ok := WalkChildren(nodes[1..]);
      }
    }

    method WalkGroupChild(node: Node, kind: ChangeKind, group: PendingGroup) returns (ok: bool)
      modifies this, group
      ensures var was := Open(old(Graph()), old(group.rowIndices), old(group.changeIndex));
              && (ok <==> GroupChild(build, node, kind, was).Ok?)
              && (ok ==> Open(Graph(), group.rowIndices, group.changeIndex) == GroupChild(build, node, kind, was).value)
      decreases node, 1
    {
      match node {
        case RowNode(disposition, content) =>
          if disposition == Missing {
            return false;
          }
          if disposition == Accepted {
            var index := PushRow(content, StateOf(kind), group.changeIndex);
            if index.Err? {
              return false;
            }
            group.rowIndices := group.rowIndices + [index.value];
          }
          return true;
        case Wrapper(wrapper, children) =>
          if wrapper == InsertWrapper || wrapper == DeleteWrapper || (wrapper == UpdateWrapper && HasRowContent(children)) {
            FlushGroup(kind, group);
            ok := WalkWrapper(wrapper, children);
            group.changeIndex := |changes|;
          } else {
            ok := false;
          }
        case Other(children) =>
          ok := WalkGroupChildren(children, kind, group);
      }
    }

    method WalkGroupChildren(nodes: seq<Node>, kind: ChangeKind, group: PendingGroup) returns (ok: bool)
      modifies this, group
      ensures var was := Open(old(Graph()), old(group.rowIndices), old(group.changeIndex));
              && (ok <==> GroupChildren(build, nodes, kind, was).Ok?)
              && (ok ==> Open(Graph(), group.rowIndices, group.changeIndex) == GroupChildren(build, nodes, kind, was).value)
      decreases nodes, 0
    {
      if nodes == [] {
        return true;
      }
      ok := WalkGroupChild(nodes[0], kind, group);
      if ok {
        ok := WalkGroupChildren(nodes[1..], kind, group);
      }
    }
  }
}
