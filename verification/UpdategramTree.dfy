/** What an updategram means: which rows its elements stand for, in which states and groups, read
    off the element tree by plain recursion; and when the tree is refused. */
module UpdategramTree {
  import opened Prelude
  import opened RecordsetModel
  import opened Updategram

  /** A row element with the state its row gets. */
  datatype Entry = Entry(state: RowState, content: RowContent)

  /** A tree as a list: rows in document order, and a cut wherever a change begins or ends. */
  datatype Item = Member(entry: Entry) | Cut

  // ---------------------------------------------------------------- the meaning of a tree

  /** The accepted row elements directly below, in order. */
  function DirectRows(nodes: seq<Node>): seq<RowContent> {
    if nodes == [] then []
    else
      (if nodes[0].RowNode? && nodes[0].disposition == Accepted then [nodes[0].content] else []) + DirectRows(nodes[1..])
  }

  /** The accepted row elements directly below the `original` wrappers directly below. */
  function RowsOfOriginals(nodes: seq<Node>): seq<RowContent> {
    if nodes == [] then []
    else
      (if nodes[0].Wrapper? && nodes[0].kind == OriginalWrapper then DirectRows(nodes[0].children) else [])
      + RowsOfOriginals(nodes[1..])
  }

  /** A well-formed update is its original and its updated row; any other with rows is one row. */
  function UpdateEntries(originals: seq<RowContent>, updated: seq<RowContent>): seq<Entry> {
    if |originals| == 1 && |updated| == 1 then [Entry(Original, originals[0]), Entry(Updated, updated[0])]
    else if originals == [] && updated == [] then []
    else [Entry(RowState.Current, Merged(originals, updated))]
  }

  /** The last updated row, with the first original row's attributes where it has none of its own; if
      one side has no rows, the first row of the other. */
  function Merged(originals: seq<RowContent>, updated: seq<RowContent>): RowContent
    requires originals != [] || updated != []
  {
    if updated == [] then originals[0]
    else if originals == [] then updated[0]
    else
      var first, last := originals[0].attrs, updated[|updated| - 1];
      RowContent(map name | name in first.Keys + last.attrs.Keys :: if name in last.attrs then last.attrs[name] else first[name],
                 last.forceNull, last.children)
  }

  function Members(entries: seq<Entry>): (r: seq<Item>)
    ensures |r| == |entries|
  {
    seq(|entries|, k requires 0 <= k < |entries| => Member(entries[k]))
  }

  /** The list of one element: `around` is the state given by the innermost insert or delete wrapper,
      Current outside any. */
  function Items(node: Node, around: RowState): seq<Item>
    decreases node, 1
  {
    match node
    case RowNode(disposition, content) =>
      if disposition != Accepted then []
      else if around == RowState.Current then [Cut, Member(Entry(around, content)), Cut]
      else [Member(Entry(around, content))]
    case Other(children) => AllItems(children, around)
    case Wrapper(InsertWrapper, children) => [Cut] + AllItems(children, Inserted) + [Cut]
    case Wrapper(DeleteWrapper, children) => [Cut] + AllItems(children, RowState.Deleted) + [Cut]
    case Wrapper(UpdateWrapper, children) => [Cut] + Members(UpdateEntries(RowsOfOriginals(children), DirectRows(children))) + [Cut]
    case Wrapper(OriginalWrapper, children) => AllItems(children, around)
  }

  function AllItems(nodes: seq<Node>, around: RowState): seq<Item>
    decreases nodes, 0
  {
    if nodes == [] then [] else Items(nodes[0], around) + AllItems(nodes[1..], around)
  }

  /** The rows of a tree in document order. */
  function Entries(items: seq<Item>): seq<Entry> {
    if items == [] then [] else (if items[0].Member? then [items[0].entry] else []) + Entries(items[1..])
  }

  /** The longest runs of rows between two cuts, behind the rows of a run already begun. */
  function Runs(begun: seq<Entry>, items: seq<Item>): seq<seq<Entry>>
    decreases |items|
  {
    if items == [] then Closed(begun)
    else
      match items[0]
      case Member(entry) => Runs(begun + [entry], items[1..])
      case Cut => Closed(begun) + Runs([], items[1..])
  }

  function Closed(begun: seq<Entry>): seq<seq<Entry>> {
    if begun == [] then [] else [begun]
  }

  // ---------------------------------------------------------------- which trees are refused

  /** Only rows the raw scanner knows. */
  predicate OnlyRows(nodes: seq<Node>) {
    forall i | 0 <= i < |nodes| :: nodes[i].RowNode? && nodes[i].disposition != Missing
  }

  /** An update holds rows and `original` wrappers of rows, nothing else. */
  predicate UpdateFormed(nodes: seq<Node>) {
    forall i | 0 <= i < |nodes| ::
      match nodes[i]
      case RowNode(disposition, _) => disposition != Missing
      case Wrapper(kind, children) => kind == OriginalWrapper && OnlyRows(children)
      case Other(_) => false
  }

  /** Inside an insert or delete wrapper an `original` wrapper may not stand, and an update only if it
      holds a row element, be it directly or in an `original` wrapper. */
  predicate Formed(node: Node, inGroup: bool)
    decreases node, 1
  {
    match node
    case RowNode(disposition, _) => disposition != Missing
    case Other(children) => AllFormed(children, inGroup)
    case Wrapper(kind, children) =>
      match kind
      case InsertWrapper => AllFormed(children, true)
      case DeleteWrapper => AllFormed(children, true)
      case OriginalWrapper => !inGroup && AllFormed(children, false)
      case UpdateWrapper => UpdateFormed(children) && (inGroup ==> exists i :: 0 <= i < |children| && HoldsRow(children[i]))
  }

  predicate HoldsRow(node: Node) {
    node.RowNode? || (node.Wrapper? && node.kind == OriginalWrapper && exists k :: 0 <= k < |node.children| && node.children[k].RowNode?)
  }

  predicate AllFormed(nodes: seq<Node>, inGroup: bool)
    decreases nodes, 0
  {
    nodes == [] || (Formed(nodes[0], inGroup) && AllFormed(nodes[1..], inGroup))
  }

  /** Every row's attributes make values. */
  predicate AllBuild(build: RowBuilder, items: seq<Item>) {
    forall k | 0 <= k < |items| && items[k].Member? :: build(items[k].entry.content, items[k].entry.state).Ok?
  }

  // ---------------------------------------------------------------- the Recordset of a list of runs

  function ValuesOf(build: RowBuilder, entry: Entry): seq<Value> {
    match build(entry.content, entry.state)
    case Ok(values) => values
    case Err => []
  }

  /** The rows of one change, numbered from `first` on. */
  function RunRows(build: RowBuilder, run: seq<Entry>, first: nat, change: nat): (r: seq<Row>)
    ensures |r| == |run|
  {
    seq(|run|, k requires 0 <= k < |run| =>
      Row(first + k, run[k].state, [StatusOf(run[k].state)], Some(change), ValuesOf(build, run[k])))
  }

  function RunIndices(first: nat, length: nat): (r: seq<nat>)
    ensures |r| == length
  {
    seq(length, k requires 0 <= k < length => first + k)
  }

  function KindOf(state: RowState): ChangeKind {
    match state
    case Current => ChangeKind.Current
    case Inserted => Insert
    case Deleted => Delete
    case Original => Update
    case Updated => Update
  }

  /** One change per run, over consecutive rows. */
  function Built(build: RowBuilder, runs: seq<seq<Entry>>): Recordset {
    if runs == [] then EmptyRecordset
    else
      var before, run := Built(build, runs[..|runs| - 1]), runs[|runs| - 1];
      Recordset(before.rows + RunRows(build, run, |before.rows|, |runs| - 1),
                before.changes + [RowChange(KindOf(if run == [] then RowState.Current else run[0].state),
                                            RunIndices(|before.rows|, |run|))])
  }

  // ---------------------------------------------------------------- the walk, item by item

  /** Runs already complete, and the one being read. */
  datatype Reading = Reading(done: seq<seq<Entry>>, begun: seq<Entry>)

  function Read(reading: Reading, item: Item): Reading {
    match item
    case Member(entry) => Reading(reading.done, reading.begun + [entry])
    case Cut => Reading(reading.done + Closed(reading.begun), [])
  }

  function After(reading: Reading, items: seq<Item>): Reading
    decreases |items|
  {
    if items == [] then reading else After(Read(reading, items[0]), items[1..])
  }

  lemma {:induction false} AfterAppend(reading: Reading, a: seq<Item>, b: seq<Item>)
    ensures After(reading, a + b) == After(After(reading, a), b)
    decreases |a|
  {
    if a == [] {
      assert a + b == b;
    } else {
      assert (a + b)[1..] == a[1..] + b;
      AfterAppend(Read(reading, a[0]), a[1..], b);
    }
  }

  lemma AfterCut(reading: Reading)
    ensures After(reading, [Cut]) == Reading(reading.done + Closed(reading.begun), [])
  {
    assert [Cut][1..] == [];
  }

  /** A stretch between two cuts. */
  lemma AfterCuts(reading: Reading, items: seq<Item>)
    ensures var inner := After(Reading(reading.done + Closed(reading.begun), []), items);
            After(reading, [Cut] + items + [Cut]) == Reading(inner.done + Closed(inner.begun), [])
  {
    AfterAppend(reading, [Cut] + items, [Cut]);
    AfterAppend(reading, [Cut], items);
    AfterCut(reading);
    AfterCut(After(Reading(reading.done + Closed(reading.begun), []), items));
  }

  lemma {:induction false} AfterMembers(reading: Reading, entries: seq<Entry>)
    ensures After(reading, Members(entries)) == Reading(reading.done, reading.begun + entries)
    decreases |entries|
  {
    if entries == [] {
      assert reading.begun + entries == reading.begun;
    } else {
      assert Members(entries)[1..] == Members(entries[1..]);
      AfterMembers(Reading(reading.done, reading.begun + [entries[0]]), entries[1..]);
      assert reading.begun + [entries[0]] + entries[1..] == reading.begun + entries;
    }
  }

  lemma {:induction false} AfterIsRuns(reading: Reading, items: seq<Item>)
    ensures var end := After(reading, items); reading.done + Runs(reading.begun, items) == end.done + Closed(end.begun)
    decreases |items|
  {
    if items != [] {
      AfterIsRuns(Read(reading, items[0]), items[1..]);
      if items[0].Cut? {
        Regrouped(reading.done, Closed(reading.begun), Runs([], items[1..]));
      }
    }
  }

  // ---------------------------------------------------------------- the walk's state at each item

  /** The open wrapper of the walk once these runs have been read. */
  function OpenOf(build: RowBuilder, reading: Reading): Open {
    var rs := Built(build, reading.done);
    Open(Recordset(rs.rows + RunRows(build, reading.begun, |rs.rows|, |reading.done|), rs.changes),
         RunIndices(|rs.rows|, |reading.begun|), |reading.done|)
  }

  predicate AllIn(run: seq<Entry>, state: RowState) {
    forall k | 0 <= k < |run| :: run[k].state == state
  }

  lemma {:induction false} BuiltChanges(build: RowBuilder, runs: seq<seq<Entry>>)
    ensures |Built(build, runs).changes| == |runs|
  {
    if runs != [] {
      BuiltChanges(build, runs[..|runs| - 1]);
    }
  }

  lemma BuiltSnoc(build: RowBuilder, runs: seq<seq<Entry>>, run: seq<Entry>)
    requires run != []
    ensures var before := Built(build, runs);
            Built(build, runs + [run])
            == Recordset(before.rows + RunRows(build, run, |before.rows|, |runs|),
                         before.changes + [RowChange(KindOf(run[0].state), RunIndices(|before.rows|, |run|))])
  {
    assert (runs + [run])[..|runs|] == runs;
  }

  lemma NothingOpen(build: RowBuilder, done: seq<seq<Entry>>)
    ensures OpenOf(build, Reading(done, [])) == Open(Built(build, done), [], |Built(build, done).changes|)
  {
    BuiltChanges(build, done);
  }

  lemma FlushCloses(build: RowBuilder, kind: ChangeKind, reading: Reading)
    requires (kind == Insert || kind == Delete) && AllIn(reading.begun, StateOf(kind))
    ensures Flush(kind, OpenOf(build, reading)) == Built(build, reading.done + Closed(reading.begun))
  {
    if reading.begun == [] {
      assert reading.done + [] == reading.done;
    } else {
      BuiltSnoc(build, reading.done, reading.begun);
      assert OpenOf(build, reading).rowIndices != [];
    }
  }

  lemma OpenGrows(build: RowBuilder, reading: Reading, entry: Entry)
    ensures var open := OpenOf(build, reading);
            OpenOf(build, Reading(reading.done, reading.begun + [entry]))
            == Open(AppendRow(open.rs, entry.state, open.changeIndex, ValuesOf(build, entry)),
                    open.rowIndices + [|open.rs.rows|], open.changeIndex)
  {
    var rs := Built(build, reading.done);
    assert RunRows(build, reading.begun + [entry], |rs.rows|, |reading.done|)
        == RunRows(build, reading.begun, |rs.rows|, |reading.done|)
           + [Row(|rs.rows| + |reading.begun|, entry.state, [StatusOf(entry.state)], Some(|reading.done|), ValuesOf(build, entry))];
    assert RunIndices(|rs.rows|, |reading.begun| + 1) == RunIndices(|rs.rows|, |reading.begun|) + [|rs.rows| + |reading.begun|];
  }

  // ---------------------------------------------------------------- updates

  lemma {:induction false} OriginalsGathered(nodes: seq<Node>)
    ensures OriginalRows(nodes) == if OnlyRows(nodes) then Ok(DirectRows(nodes)) else Err
  {
    if nodes != [] {
      OriginalsGathered(nodes[1..]);
      assert OnlyRows(nodes) <==> nodes[0].RowNode? && nodes[0].disposition != Missing && OnlyRows(nodes[1..]) by {
        assert nodes == [nodes[0]] + nodes[1..];
      }
    }
  }

  lemma UpdateFormedFirst(nodes: seq<Node>)
    requires nodes != []
    ensures UpdateFormed(nodes) <==> UpdateFormed([nodes[0]]) && UpdateFormed(nodes[1..])
  {
    assert nodes == [nodes[0]] + nodes[1..];
  }

  lemma {:induction false} UpdateGathered(nodes: seq<Node>)
    ensures GatherUpdate(nodes) == if UpdateFormed(nodes) then Ok(UpdateRows(RowsOfOriginals(nodes), DirectRows(nodes))) else Err
  {
    if nodes != [] {
      UpdateGathered(nodes[1..]);
      UpdateFormedFirst(nodes);
      assert [nodes[0]][0] == nodes[0];
      assert [] + RowsOfOriginals(nodes[1..]) == RowsOfOriginals(nodes[1..]) && [] + DirectRows(nodes[1..]) == DirectRows(nodes[1..]);
      if nodes[0].Wrapper? {
        OriginalsGathered(nodes[0].children);
      }
    }
  }

  lemma MergedIsMalformed(originals: seq<RowContent>, updated: seq<RowContent>)
    ensures MalformedRow(UpdateRows(originals, updated))
            == if originals == [] && updated == [] then None else Some(Merged(originals, updated))
  {
    if originals != [] && updated != [] {
      assert originals[0].attrs + updated[|updated| - 1].attrs == Merged(originals, updated).attrs;
    }
  }

  /** The single row of a malformed update has, for each name, the last updated row's value, or else the
      first original row's; its forced nulls and its elements are the updated row's alone. */
  lemma MergedAttributes(update: UpdateRows, name: string)
    ensures MalformedRow(update).None? <==> update.originals == [] && update.updated == []
    ensures update.originals == [] && update.updated != [] ==> MalformedRow(update) == Some(update.updated[0])
    ensures update.originals != [] && update.updated == [] ==> MalformedRow(update) == Some(update.originals[0])
    ensures update.originals != [] && update.updated != [] ==>
              var row, first, last := MalformedRow(update).value, update.originals[0], update.updated[|update.updated| - 1];
              && (name in last.attrs ==> name in row.attrs && row.attrs[name] == last.attrs[name])
              && (name !in last.attrs && name in first.attrs ==> name in row.attrs && row.attrs[name] == first.attrs[name])
              && (name !in last.attrs && name !in first.attrs ==> name !in row.attrs)
              && row.forceNull == last.forceNull && row.children == last.children
  {
    MergedIsMalformed(update.originals, update.updated);
  }

  lemma UpdatePushed(build: RowBuilder, originals: seq<RowContent>, updated: seq<RowContent>, done: seq<seq<Entry>>)
    ensures var entries := UpdateEntries(originals, updated);
            PushUpdate(build, UpdateRows(originals, updated), Built(build, done))
            == if AllBuild(build, Members(entries)) then Ok(Built(build, done + Closed(entries))) else Err
  {
    var entries := UpdateEntries(originals, updated);
    MergedIsMalformed(originals, updated);
    if |originals| == 1 && |updated| == 1 {
      PairPushed(build, originals[0], updated[0], done);
    } else if entries == [] {
      assert done + [] == done;
    } else {
      MergedPushed(build, originals, updated, done);
    }
  }

  lemma MergedPushed(build: RowBuilder, originals: seq<RowContent>, updated: seq<RowContent>, done: seq<seq<Entry>>)
    requires !(|originals| == 1 && |updated| == 1) && (originals != [] || updated != [])
    requires MalformedRow(UpdateRows(originals, updated)) == Some(Merged(originals, updated))
    ensures var entries := [Entry(RowState.Current, Merged(originals, updated))];
            PushUpdate(build, UpdateRows(originals, updated), Built(build, done))
            == if AllBuild(build, Members(entries)) then Ok(Built(build, done + [entries])) else Err
  {
    var entries, rs := [Entry(RowState.Current, Merged(originals, updated))], Built(build, done);
    BuiltChanges(build, done);
    BuiltSnoc(build, done, entries);
    OneRow(build, entries, |rs.rows|, |done|);
  }

  lemma PairPushed(build: RowBuilder, original: RowContent, updated: RowContent, done: seq<seq<Entry>>)
    ensures var entries := [Entry(Original, original), Entry(Updated, updated)];
            PushUpdate(build, UpdateRows([original], [updated]), Built(build, done))
            == if AllBuild(build, Members(entries)) then Ok(Built(build, done + [entries])) else Err
  {
    var entries, rs := [Entry(Original, original), Entry(Updated, updated)], Built(build, done);
    BuiltChanges(build, done);
    BuiltSnoc(build, done, entries);
    TwoRows(build, entries, |rs.rows|, |done|);
    PairAppended(build, original, updated, rs);
  }

  lemma PairAppended(build: RowBuilder, original: RowContent, updated: RowContent, rs: Recordset)
    ensures var a, b, n := build(original, Original), build(updated, Updated), |rs.rows|;
            PushUpdate(build, UpdateRows([original], [updated]), rs)
            == if a.Ok? && b.Ok?
               then Ok(Recordset(rs.rows + [Row(n, Original, [StatusOf(Original)], Some(|rs.changes|), a.value),
                                            Row(n + 1, Updated, [StatusOf(Updated)], Some(|rs.changes|), b.value)],
                                 rs.changes + [RowChange(Update, [n, n + 1])]))
               else Err
  {
    var a, b, n := build(original, Original), build(updated, Updated), |rs.rows|;
    if a.Ok? && b.Ok? {
      var x, y := Row(n, Original, [StatusOf(Original)], Some(|rs.changes|), a.value), Row(n + 1, Updated, [StatusOf(Updated)], Some(|rs.changes|), b.value);
      Regrouped(rs.rows, [x], [y]);
      assert [x] + [y] == [x, y];
    }
  }

  lemma OneRow(build: RowBuilder, run: seq<Entry>, first: nat, change: nat)
    requires |run| == 1
    ensures RunRows(build, run, first, change) == [Row(first, run[0].state, [StatusOf(run[0].state)], Some(change), ValuesOf(build, run[0]))]
    ensures RunIndices(first, 1) == [first]
    ensures AllBuild(build, Members(run)) <==> build(run[0].content, run[0].state).Ok?
  {
    assert Members(run)[0].entry == run[0];
  }

  lemma TwoRows(build: RowBuilder, run: seq<Entry>, first: nat, change: nat)
    requires |run| == 2
    ensures RunRows(build, run, first, change)
            == [Row(first, run[0].state, [StatusOf(run[0].state)], Some(change), ValuesOf(build, run[0])),
                Row(first + 1, run[1].state, [StatusOf(run[1].state)], Some(change), ValuesOf(build, run[1]))]
    ensures RunIndices(first, 2) == [first, first + 1]
    ensures AllBuild(build, Members(run))
            <==> build(run[0].content, run[0].state).Ok? && build(run[1].content, run[1].state).Ok?
  {
    assert Members(run)[0].entry == run[0] && Members(run)[1].entry == run[1];
  }

  lemma BuildAppend(build: RowBuilder, a: seq<Item>, b: seq<Item>)
    ensures AllBuild(build, a + b) <==> AllBuild(build, a) && AllBuild(build, b)
  {
    assert forall k | 0 <= k < |a| :: (a + b)[k] == a[k];
    assert forall k | 0 <= k < |b| :: (a + b)[|a| + k] == b[k];
  }

  lemma BuildBetween(build: RowBuilder, items: seq<Item>)
    ensures AllBuild(build, [Cut] + items + [Cut]) <==> AllBuild(build, items)
  {
    BuildAppend(build, [Cut] + items, [Cut]);
    BuildAppend(build, [Cut], items);
  }

  // ---------------------------------------------------------------- the walk computes the meaning

  /** What reading a tree's list yields, or an error. */
  function Outcome<T>(build: RowBuilder, formed: bool, items: seq<Item>, value: T): Result<T> {
    if formed && AllBuild(build, items) then Ok(value) else Err
  }

  lemma {:induction false} DataRead(build: RowBuilder, node: Node, runs: seq<seq<Entry>>)
    ensures var items := Items(node, RowState.Current);
            && After(Reading(runs, []), items).begun == []
            && DataChild(build, node, Built(build, runs))
               == Outcome(build, Formed(node, false), items, Built(build, After(Reading(runs, []), items).done))
    decreases node, 1
  {
    match node
    case RowNode(disposition, content) =>
      if disposition == Accepted {
        DataRowRead(build, content, runs);
      }
    case Other(children) => AllDataRead(build, children, runs);
    case Wrapper(kind, children) =>
      if kind == OriginalWrapper {
        AllDataRead(build, children, runs);
      } else if kind == UpdateWrapper {
        UpdateRead(build, children, runs);
      } else {
        var change := if kind == InsertWrapper then Insert else Delete;
        NothingOpen(build, runs);
        AllGroupRead(build, children, change, Reading(runs, []));
        GroupClosed(build, change, children, runs);
      }
  }

  lemma DataRowRead(build: RowBuilder, content: RowContent, runs: seq<seq<Entry>>)
    ensures var node := RowNode(Accepted, content);
            var items := Items(node, RowState.Current);
            && After(Reading(runs, []), items).begun == []
            && DataChild(build, node, Built(build, runs))
               == Outcome(build, true, items, Built(build, After(Reading(runs, []), items).done))
  {
    var run, rs := [Entry(RowState.Current, content)], Built(build, runs);
    assert [Cut, Member(run[0]), Cut] == [Cut] + Members(run) + [Cut];
    AfterCuts(Reading(runs, []), Members(run));
    assert runs + [] == runs;
    AfterMembers(Reading(runs, []), run);
    assert [] + run == run;
    BuildBetween(build, Members(run));
    RowPushed(build, content, runs);
  }

  lemma RowPushed(build: RowBuilder, content: RowContent, runs: seq<seq<Entry>>)
    ensures var run, rs := [Entry(RowState.Current, content)], Built(build, runs);
            && (AllBuild(build, Members(run)) <==> build(content, RowState.Current).Ok?)
            && DataChild(build, RowNode(Accepted, content), rs) == Outcome(build, true, Members(run), Built(build, runs + [run]))
  {
    var run, rs := [Entry(RowState.Current, content)], Built(build, runs);
    BuiltChanges(build, runs);
    BuiltSnoc(build, runs, run);
    OneRow(build, run, |rs.rows|, |runs|);
  }

  lemma UpdateChild(build: RowBuilder, children: seq<Node>, rs: Recordset)
    ensures DataChild(build, Wrapper(UpdateWrapper, children), rs)
            == if UpdateFormed(children) then PushUpdate(build, UpdateRows(RowsOfOriginals(children), DirectRows(children)), rs) else Err
  {
    UpdateGathered(children);
  }

  lemma UpdateRead(build: RowBuilder, children: seq<Node>, runs: seq<seq<Entry>>)
    ensures var node := Wrapper(UpdateWrapper, children);
            var items := Items(node, RowState.Current);
            && After(Reading(runs, []), items).begun == []
            && DataChild(build, node, Built(build, runs))
               == Outcome(build, UpdateFormed(children), items, Built(build, After(Reading(runs, []), items).done))
  {
    var originals, updated := RowsOfOriginals(children), DirectRows(children);
    var entries := UpdateEntries(originals, updated);
    UpdateChild(build, children, Built(build, runs));
    UpdatePushed(build, originals, updated, runs);
    assert Items(Wrapper(UpdateWrapper, children), RowState.Current) == [Cut] + Members(entries) + [Cut];
    AfterCuts(Reading(runs, []), Members(entries));
    assert runs + [] == runs;
    AfterMembers(Reading(runs, []), entries);
    assert [] + entries == entries;
    BuildBetween(build, Members(entries));
  }

  /** Closing a group behind its elements. */
  lemma GroupClosed(build: RowBuilder, kind: ChangeKind, children: seq<Node>, runs: seq<seq<Entry>>)
    requires kind == Insert || kind == Delete
    requires AllIn(After(Reading(runs, []), AllItems(children, StateOf(kind))).begun, StateOf(kind))
    ensures var inner, node := AllItems(children, StateOf(kind)), Wrapper(if kind == Insert then InsertWrapper else DeleteWrapper, children);
            var items, end := Items(node, RowState.Current), After(Reading(runs, []), inner);
            && After(Reading(runs, []), items).begun == []
            && Flush(kind, OpenOf(build, end)) == Built(build, After(Reading(runs, []), items).done)
            && (AllBuild(build, items) <==> AllBuild(build, inner))
  {
    var inner := AllItems(children, StateOf(kind));
    FlushCloses(build, kind, After(Reading(runs, []), inner));
    AfterCuts(Reading(runs, []), inner);
    assert runs + [] == runs;
    BuildBetween(build, inner);
  }

  lemma {:induction false} AllDataRead(build: RowBuilder, nodes: seq<Node>, runs: seq<seq<Entry>>)
    ensures var items := AllItems(nodes, RowState.Current);
            && After(Reading(runs, []), items).begun == []
            && DataChildren(build, nodes, Built(build, runs))
               == Outcome(build, AllFormed(nodes, false), items, Built(build, After(Reading(runs, []), items).done))
    decreases nodes, 0
  {
    if nodes != [] {
      var first, rest := Items(nodes[0], RowState.Current), AllItems(nodes[1..], RowState.Current);
      DataRead(build, nodes[0], runs);
      AllDataRead(build, nodes[1..], After(Reading(runs, []), first).done);
      AfterAppend(Reading(runs, []), first, rest);
      BuildAppend(build, first, rest);
    }
  }

  lemma {:induction false} GroupRead(build: RowBuilder, node: Node, kind: ChangeKind, reading: Reading)
    requires (kind == Insert || kind == Delete) && AllIn(reading.begun, StateOf(kind))
    ensures var items := Items(node, StateOf(kind));
            && AllIn(After(reading, items).begun, StateOf(kind))
            && GroupChild(build, node, kind, OpenOf(build, reading))
               == Outcome(build, Formed(node, true), items, OpenOf(build, After(reading, items)))
    decreases node, 2
  {
    match node
    case RowNode(disposition, content) =>
      if disposition == Accepted {
        GroupRowRead(build, content, kind, reading);
      }
    case Other(children) => AllGroupRead(build, children, kind, reading);
    case Wrapper(wrapper, children) =>
      if wrapper != OriginalWrapper {
        DataRead(build, node, reading.done + Closed(reading.begun));
        NestedRead(build, wrapper, children, kind, reading);
      } else {
        AllGroupRead(build, children, kind, reading);
      }
  }

  lemma GroupRowRead(build: RowBuilder, content: RowContent, kind: ChangeKind, reading: Reading)
    requires (kind == Insert || kind == Delete) && AllIn(reading.begun, StateOf(kind))
    ensures var node := RowNode(Accepted, content);
            var items := Items(node, StateOf(kind));
            && AllIn(After(reading, items).begun, StateOf(kind))
            && GroupChild(build, node, kind, OpenOf(build, reading)) == Outcome(build, true, items, OpenOf(build, After(reading, items)))
  {
    var entry := Entry(StateOf(kind), content);
    assert Items(RowNode(Accepted, content), StateOf(kind)) == Members([entry]);
    OpenGrows(build, reading, entry);
    AfterMembers(reading, [entry]);
    OneRow(build, [entry], 0, 0);
  }

  lemma NestedRead(build: RowBuilder, wrapper: WrapperKind, children: seq<Node>, kind: ChangeKind, reading: Reading)
    requires (kind == Insert || kind == Delete) && AllIn(reading.begun, StateOf(kind)) && wrapper != OriginalWrapper
    requires var node, runs := Wrapper(wrapper, children), reading.done + Closed(reading.begun);
             var items := Items(node, RowState.Current);
             && After(Reading(runs, []), items).begun == []
             && DataChild(build, node, Built(build, runs))
                == Outcome(build, Formed(node, false), items, Built(build, After(Reading(runs, []), items).done))
    ensures var node := Wrapper(wrapper, children);
            var items := Items(node, StateOf(kind));
            && After(reading, items).begun == []
            && GroupChild(build, node, kind, OpenOf(build, reading))
               == Outcome(build, Formed(node, true), items, OpenOf(build, After(reading, items)))
  {
    var node, runs := Wrapper(wrapper, children), reading.done + Closed(reading.begun);
    NestedWrapperIsDataChild(build, wrapper, children, Built(build, runs));
    FlushCloses(build, kind, reading);
    CutFirst(node, StateOf(kind), reading);
    RowContentAgrees(children);
    NothingOpen(build, After(reading, Items(node, StateOf(kind))).done);
  }

  /** A nested wrapper closes what is open before it. */
  lemma CutFirst(node: Node, around: RowState, reading: Reading)
    requires node.Wrapper? && node.kind != OriginalWrapper
    ensures Items(node, around) == Items(node, RowState.Current)
    ensures After(reading, Items(node, around)) == After(Reading(reading.done + Closed(reading.begun), []), Items(node, around))
  {
    var runs, items := reading.done + Closed(reading.begun), Items(node, around);
    assert items[0] == Cut;
    assert runs + [] == runs;
    assert Read(reading, Cut) == Read(Reading(runs, []), Cut);
  }

  lemma RowContentAgrees(nodes: seq<Node>)
    ensures HasRowContent(nodes) <==> exists i :: 0 <= i < |nodes| && HoldsRow(nodes[i])
  {
    assert forall i | 0 <= i < |nodes| :: IsRowContent(nodes[i]) <==> HoldsRow(nodes[i]);
  }

  lemma {:induction false} AllGroupRead(build: RowBuilder, nodes: seq<Node>, kind: ChangeKind, reading: Reading)
    requires (kind == Insert || kind == Delete) && AllIn(reading.begun, StateOf(kind))
    ensures var items := AllItems(nodes, StateOf(kind));
            && AllIn(After(reading, items).begun, StateOf(kind))
            && GroupChildren(build, nodes, kind, OpenOf(build, reading))
               == Outcome(build, AllFormed(nodes, true), items, OpenOf(build, After(reading, items)))
    decreases nodes, 0
  {
    if nodes != [] {
      var first, rest := Items(nodes[0], StateOf(kind)), AllItems(nodes[1..], StateOf(kind));
      GroupRead(build, nodes[0], kind, reading);
      AllGroupRead(build, nodes[1..], kind, After(reading, first));
      AfterAppend(reading, first, rest);
      BuildAppend(build, first, rest);
    }
  }

  /** The walk succeeds if and only if the tree is well formed and every row's attributes make values,
      and then it yields one change per run of rows between two cuts, in document order. */
  lemma ParseRowsMeaning(build: RowBuilder, nodes: seq<Node>)
    ensures var items := AllItems(nodes, RowState.Current);
            ParseRows(build, nodes) == if AllFormed(nodes, false) && AllBuild(build, items) then Ok(Built(build, Runs([], items))) else Err
  {
    var items := AllItems(nodes, RowState.Current);
    AllDataRead(build, nodes, []);
    AfterIsRuns(Reading([], []), items);
    var end := After(Reading([], []), items);
    assert [] + Runs([], items) == Runs([], items) && end.done + [] == end.done;
  }

  // ---------------------------------------------------------------- row by row

  function Flat(runs: seq<seq<Entry>>): seq<Entry> {
    if runs == [] then [] else Flat(runs[..|runs| - 1]) + runs[|runs| - 1]
  }

  lemma FlatSnoc(runs: seq<seq<Entry>>, run: seq<Entry>)
    ensures Flat(runs + [run]) == Flat(runs) + run
  {
    assert (runs + [run])[..|runs|] == runs;
  }

  lemma FlatClosed(runs: seq<seq<Entry>>, begun: seq<Entry>)
    ensures Flat(runs + Closed(begun)) == Flat(runs) + begun
  {
    if begun == [] {
      assert runs + [] == runs && Flat(runs) + [] == Flat(runs);
    } else {
      FlatSnoc(runs, begun);
    }
  }

  lemma {:induction false} FlatAfter(reading: Reading, items: seq<Item>)
    ensures var end := After(reading, items);
            Flat(end.done + Closed(end.begun)) == Flat(reading.done) + reading.begun + Entries(items)
    decreases |items|
  {
    if items == [] {
      FlatClosed(reading.done, reading.begun);
    } else {
      FlatAfter(Read(reading, items[0]), items[1..]);
      match items[0]
      case Member(entry) =>
        Regrouped(Flat(reading.done), reading.begun, [entry]);
        Regrouped(Flat(reading.done) + reading.begun, [entry], Entries(items[1..]));
      case Cut =>
        FlatClosed(reading.done, reading.begun);
        assert Flat(reading.done) + reading.begun + [] == Flat(reading.done) + reading.begun;
        assert [] + Entries(items[1..]) == Entries(items[1..]);
    }
  }

  lemma {:induction false} BuiltRows(build: RowBuilder, runs: seq<seq<Entry>>)
    ensures var rows, entries := Built(build, runs).rows, Flat(runs);
            && |rows| == |entries|
            && forall i | 0 <= i < |rows| ::
                 rows[i].ordinal == i && rows[i].state == entries[i].state && rows[i].values == ValuesOf(build, entries[i])
  {
    if runs != [] {
      BuiltRows(build, runs[..|runs| - 1]);
    }
  }

  lemma {:induction false} BuildsEntries(build: RowBuilder, items: seq<Item>)
    requires AllBuild(build, items)
    ensures forall i | 0 <= i < |Entries(items)| :: build(Entries(items)[i].content, Entries(items)[i].state).Ok?
  {
    if items != [] {
      assert items == [items[0]] + items[1..];
      BuildAppend(build, [items[0]], items[1..]);
      BuildsEntries(build, items[1..]);
      assert [items[0]][0] == items[0];
    }
  }

  /** The rows of the Recordset are the accepted row elements of the tree, one for one, in document
      order, each in the state its element has there. */
  lemma RowsAreEntries(build: RowBuilder, nodes: seq<Node>)
    requires ParseRows(build, nodes).Ok?
    ensures var rows, entries := ParseRows(build, nodes).value.rows, Entries(AllItems(nodes, RowState.Current));
            && |rows| == |entries|
            && forall i | 0 <= i < |rows| ::
                 rows[i].state == entries[i].state && build(entries[i].content, entries[i].state) == Ok(rows[i].values)
  {
    var items := AllItems(nodes, RowState.Current);
    ParseRowsMeaning(build, nodes);
    AfterIsRuns(Reading([], []), items);
    FlatAfter(Reading([], []), items);
    assert [] + Runs([], items) == Runs([], items);
    assert Flat([]) + [] + Entries(items) == Entries(items);
    BuiltRows(build, Runs([], items));
    BuildsEntries(build, items);
  }

  /** A delete wrapper inside an insert wrapper: its row is deleted, not inserted. */
  lemma NestedDeleteDeletes(build: RowBuilder, content: RowContent, values: seq<Value>)
    requires build(content, RowState.Deleted) == Ok(values)
    ensures ParseRows(build, [Wrapper(InsertWrapper, [Wrapper(DeleteWrapper, [RowNode(Accepted, content)])])])
            == Ok(Recordset([Row(0, RowState.Deleted, [Status.Deleted], Some(0), values)], [RowChange(Delete, [0])]))
  {
    var row := [RowNode(Accepted, content)];
    var inner := [Wrapper(DeleteWrapper, row)];
    var outer := [Wrapper(InsertWrapper, inner)];
    assert row[1..] == [] && inner[1..] == [] && outer[1..] == [];
    var before := Open(EmptyRecordset, [], 0);
    var rs := Recordset([Row(0, RowState.Deleted, [Status.Deleted], Some(0), values)], [RowChange(Delete, [0])]);
    var open := Open(Recordset(rs.rows, []), [0], 0);
    assert EmptyRecordset.rows + rs.rows == rs.rows && before.rowIndices + [0] == [0] && EmptyRecordset.changes + rs.changes == rs.changes;
    assert GroupChildren(build, row, Delete, before) == GroupChild(build, row[0], Delete, before) == Ok(open);
    assert Flush(Delete, open) == rs;
    assert NestedWrapper(build, DeleteWrapper, row, EmptyRecordset) == Ok(rs);
    assert GroupChildren(build, inner, Insert, before) == GroupChild(build, inner[0], Insert, before) == Ok(Open(rs, [], 1));
    assert DataChild(build, outer[0], EmptyRecordset) == Ok(rs);
    assert DataChildren(build, outer[1..], rs) == Ok(rs);
  }
}
