/** The views read off a Recordset's change groups, and what validation guarantees of them. */
module RowGraph {
  import opened Prelude
  import opened RecordsetModel

  datatype ViewRow = ViewRow(status: Status, values: seq<Value>)

  // ---------------------------------------------------------------- the views

  /** One view row per group member that exists. */
  function GroupView(rs: Recordset, indices: seq<nat>, status: Status): seq<ViewRow> {
    if indices == [] then []
    else (if indices[0] < |rs.rows| then [ViewRow(status, rs.rows[indices[0]].values)] else []) + GroupView(rs, indices[1..], status)
  }

  /** The first existing group member in the given state. */
  function FindState(rs: Recordset, indices: seq<nat>, state: RowState): Option<Row> {
    if indices == [] then None
    else if indices[0] < |rs.rows| && rs.rows[indices[0]].state == state then Some(rs.rows[indices[0]])
    else FindState(rs, indices[1..], state)
  }

  function UpdateView(rs: Recordset, indices: seq<nat>): seq<ViewRow> {
    var original, updated := FindState(rs, indices, Original), FindState(rs, indices, Updated);
    if original.Some? && updated.Some?
    then [ViewRow(Modified, Overlay(original.value.values, updated.value.values))]
    else []
  }

  function DefaultRows(rs: Recordset, change: RowChange): seq<ViewRow> {
    match change.kind
    case Current => GroupView(rs, change.rowIndices, Unmodified)
    case Insert => GroupView(rs, change.rowIndices, New)
    case Update => UpdateView(rs, change.rowIndices)
    case Delete => []
  }

  function PendingRows(rs: Recordset, change: RowChange): seq<ViewRow> {
    match change.kind
    case Current => []
    case Insert => GroupView(rs, change.rowIndices, New)
    case Update => UpdateView(rs, change.rowIndices)
    case Delete => GroupView(rs, change.rowIndices, Status.Deleted)
  }

  function ViewFrom(rs: Recordset, changes: seq<RowChange>, pending: bool): seq<ViewRow> {
    if changes == [] then []
    else (if pending then PendingRows(rs, changes[0]) else DefaultRows(rs, changes[0])) + ViewFrom(rs, changes[1..], pending)
  }

  /** `materialize_default_view_unchecked` */
  function DefaultView(rs: Recordset): seq<ViewRow> {
    ViewFrom(rs, rs.changes, false)
  }

  /** `materialize_pending_view_unchecked` */
  function PendingView(rs: Recordset): seq<ViewRow> {
    ViewFrom(rs, rs.changes, true)
  }

  lemma {:induction false} ViewFromSnoc(rs: Recordset, changes: seq<RowChange>, change: RowChange, pending: bool)
    ensures ViewFrom(rs, changes + [change], pending)
            == ViewFrom(rs, changes, pending) + if pending then PendingRows(rs, change) else DefaultRows(rs, change)
  {
    if changes == [] {
      assert changes + [change] == [change];
      assert [change][1..] == [];
    } else {
      assert (changes + [change])[1..] == changes[1..] + [change];
      ViewFromSnoc(rs, changes[1..], change, pending);
    }
  }

  lemma {:induction false} GroupViewSnoc(rs: Recordset, indices: seq<nat>, index: nat, status: Status)
    ensures GroupView(rs, indices + [index], status)
            == GroupView(rs, indices, status) + if index < |rs.rows| then [ViewRow(status, rs.rows[index].values)] else []
  {
    if indices == [] {
      assert indices + [index] == [index];
      assert [index][1..] == [];
    } else {
      assert (indices + [index])[1..] == indices[1..] + [index];
      GroupViewSnoc(rs, indices[1..], index, status);
    }
  }

  method PushGroup(rs: Recordset, indices: seq<nat>, status: Status, before: seq<ViewRow>) returns (rows: seq<ViewRow>)
    ensures rows == before + GroupView(rs, indices, status)
  {
    rows := before;
    for i := 0 to |indices|
      invariant rows == before + GroupView(rs, indices[..i], status)
    {
      assert indices[..i + 1] == indices[..i] + [indices[i]];
      GroupViewSnoc(rs, indices[..i], indices[i], status);
      if indices[i] < |rs.rows| {
        rows := rows + [ViewRow(status, rs.rows[indices[i]].values)];
      }
    }
    assert indices[..|indices|] == indices;
  }

  /** Both view builders: one pass over the changes pushing rows. */
  method BuildView(rs: Recordset, pending: bool) returns (rows: seq<ViewRow>)
    ensures rows == if pending then PendingView(rs) else DefaultView(rs)
  {
    rows := [];
    for c := 0 to |rs.changes|
      invariant rows == ViewFrom(rs, rs.changes[..c], pending)
    {
      var change := rs.changes[c];
      assert rs.changes[..c + 1] == rs.changes[..c] + [change];
      ViewFromSnoc(rs, rs.changes[..c], change, pending);
      match change.kind {
        case Current =>
          if !pending {
            rows := PushGroup(rs, change.rowIndices, Unmodified, rows);
          }
        case Insert =>
          rows := PushGroup(rs, change.rowIndices, New, rows);
        case Update =>
          rows := rows + UpdateView(rs, change.rowIndices);
        case Delete =>
          if pending {
            rows := PushGroup(rs, change.rowIndices, Status.Deleted, rows);
          }
      }
    }
    assert rs.changes[..|rs.changes|] == rs.changes;
  }

  // ---------------------------------------------------------------- views of single changes

  function DefaultRow(image: RowImage): seq<ViewRow> {
    match image
    case Keep(values) => [ViewRow(Unmodified, values)]
    case Add(values) => [ViewRow(New, values)]
    case Edit(_, _) => [ViewRow(Modified, image.Effective())]
    case Drop(_) => []
  }

  function PendingRow(image: RowImage): seq<ViewRow> {
    match image
    case Keep(_) => []
    case Add(values) => [ViewRow(New, values)]
    case Edit(_, _) => [ViewRow(Modified, image.Effective())]
    case Drop(values) => [ViewRow(Status.Deleted, values)]
  }

  function RowsOf(images: seq<RowImage>, pending: bool): seq<ViewRow> {
    if images == [] then []
    else (if pending then PendingRow(images[0]) else DefaultRow(images[0])) + RowsOf(images[1..], pending)
  }

  lemma {:induction false} RowsOfAppend(a: seq<RowImage>, b: seq<RowImage>, pending: bool)
    ensures RowsOf(a + b, pending) == RowsOf(a, pending) + RowsOf(b, pending)
  {
    if a == [] {
      assert a + b == b;
    } else {
      assert (a + b)[1..] == a[1..] + b;
      RowsOfAppend(a[1..], b, pending);
    }
  }

  lemma {:induction false} OneRowView(kind: ChangeKind, values: seq<Value>, rest: seq<RowImage>, pending: bool)
    requires kind != Update
    ensures RowsOf([ImageOf(kind, values)] + rest, pending)
            == (if (pending && kind == ChangeKind.Current) || (!pending && kind == Delete) then []
                else [ViewRow(match kind case Insert => New case Delete => Status.Deleted case _ => Unmodified, values)])
               + RowsOf(rest, pending)
  {
    assert ([ImageOf(kind, values)] + rest)[1..] == rest;
  }

  lemma {:induction false} GroupViewOfImages(rs: Recordset, indices: seq<nat>, kind: ChangeKind, pending: bool)
    requires kind != Update && forall k | 0 <= k < |indices| :: indices[k] < |rs.rows|
    ensures RowsOf(SplitGroup(rs, kind, indices), pending)
            == if (pending && kind == ChangeKind.Current) || (!pending && kind == Delete) then []
               else GroupView(rs, indices, match kind case Insert => New case Delete => Status.Deleted case _ => Unmodified)
  {
    if indices != [] {
      var images := SplitGroup(rs, kind, indices);
      GroupViewOfImages(rs, indices[1..], kind, pending);
      assert images == [ImageOf(kind, rs.rows[indices[0]].values)] + SplitGroup(rs, kind, indices[1..]);
      OneRowView(kind, rs.rows[indices[0]].values, SplitGroup(rs, kind, indices[1..]), pending);
    }
  }

  lemma ChangeViewOfImages(rs: Recordset, c: nat, pending: bool)
    requires GraphValid(rs) && c < |rs.changes|
    ensures RowsOf(ChangeImages(rs, rs.changes[c]), pending)
            == if pending then PendingRows(rs, rs.changes[c]) else DefaultRows(rs, rs.changes[c])
  {
    var change := rs.changes[c];
    assert ChangeLinked(rs, c);
    if change.kind == Update {
      var states := StatesOf(rs, change.rowIndices);
      assert states[0] == Original && states[1] == Updated && |states| == 2;
      var image := ChangeImages(rs, change)[0];
      assert change.rowIndices[1..][0] == change.rowIndices[1];
      assert FindState(rs, change.rowIndices, Updated) == Some(rs.rows[change.rowIndices[1]]);
      assert [image][1..] == [];
    } else {
      GroupViewOfImages(rs, change.rowIndices, change.kind, pending);
    }
  }

  /** On a validated graph no view drops a row: the views are exactly the changes' own rows. */
  lemma {:induction false} ViewsOfImages(rs: Recordset, from: nat, pending: bool)
    requires GraphValid(rs) && from <= |rs.changes|
    ensures ViewFrom(rs, rs.changes[from..], pending) == RowsOf(ImagesFrom(rs, rs.changes[from..]), pending)
    decreases |rs.changes| - from
  {
    if from < |rs.changes| {
      ViewsOfImages(rs, from + 1, pending);
      assert rs.changes[from..][1..] == rs.changes[from + 1..];
      ChangeViewOfImages(rs, from, pending);
      RowsOfAppend(ChangeImages(rs, rs.changes[from]), ImagesFrom(rs, rs.changes[from + 1..]), pending);
    }
  }

  lemma ViewsFollowImages(rs: Recordset)
    requires GraphValid(rs)
    ensures DefaultView(rs) == RowsOf(Images(rs), false)
    ensures PendingView(rs) == RowsOf(Images(rs), true)
  {
    ViewsOfImages(rs, 0, false);
    ViewsOfImages(rs, 0, true);
    assert rs.changes[0..] == rs.changes;
  }

  /** What a change shows, in its rows: every row of a current, insert or delete group as it stands, in
      group order; an update as one row, each cell pending if there is a pending one. */
  predicate ShowsRows(rs: Recordset, indices: seq<nat>, shown: seq<ViewRow>, status: Status)
    requires forall k | 0 <= k < |indices| :: indices[k] < |rs.rows|
  {
    && |shown| == |indices|
    && forall k | 0 <= k < |indices| :: shown[k] == ViewRow(status, rs.rows[indices[k]].values)
  }

  predicate ShowsUpdate(original: seq<Value>, updated: seq<Value>, shown: seq<ViewRow>) {
    && |shown| == 1 && shown[0].status == Modified
    && |shown[0].values| == (if |original| <= |updated| then |original| else |updated|)
    && forall j | 0 <= j < |shown[0].values| :: shown[0].values[j] == if updated[j] == Unavailable then original[j] else updated[j]
  }

  lemma {:induction false} GroupShowsRows(rs: Recordset, indices: seq<nat>, status: Status)
    requires forall k | 0 <= k < |indices| :: indices[k] < |rs.rows|
    ensures ShowsRows(rs, indices, GroupView(rs, indices, status), status)
  {
    if indices != [] {
      GroupShowsRows(rs, indices[1..], status);
    }
  }

  lemma ChangeShows(rs: Recordset, c: nat)
    requires GraphValid(rs) && c < |rs.changes|
    ensures var rows := rs.changes[c].rowIndices; forall k | 0 <= k < |rows| :: rows[k] < |rs.rows|
    ensures var change, default, pending := rs.changes[c], DefaultRows(rs, rs.changes[c]), PendingRows(rs, rs.changes[c]);
            match change.kind
            case Current => ShowsRows(rs, change.rowIndices, default, Unmodified) && pending == []
            case Insert => ShowsRows(rs, change.rowIndices, default, New) && ShowsRows(rs, change.rowIndices, pending, New)
            case Delete => default == [] && ShowsRows(rs, change.rowIndices, pending, Status.Deleted)
            case Update =>
              && |change.rowIndices| == 2 && default == pending
              && ShowsUpdate(rs.rows[change.rowIndices[0]].values, rs.rows[change.rowIndices[1]].values, default)
  {
    var change := rs.changes[c];
    assert ChangeLinked(rs, c);
    if change.kind == Update {
      var states := StatesOf(rs, change.rowIndices);
      assert states[0] == Original && states[1] == Updated && |states| == 2;
      assert change.rowIndices[1..][0] == change.rowIndices[1];
      assert FindState(rs, change.rowIndices, Updated) == Some(rs.rows[change.rowIndices[1]]);
    } else {
      GroupShowsRows(rs, change.rowIndices, Unmodified);
      GroupShowsRows(rs, change.rowIndices, New);
      GroupShowsRows(rs, change.rowIndices, Status.Deleted);
    }
  }

  /** A row's status is the status of what its change shows, and every change shows something in one of
      the views. */
  lemma StatusIsShown(rs: Recordset, i: nat)
    requires GraphValid(rs) && i < |rs.rows|
    ensures rs.rows[i].changeIndex.Some? && rs.rows[i].changeIndex.value < |rs.changes| && |rs.rows[i].status| == 1
    ensures var change := rs.changes[rs.rows[i].changeIndex.value];
            var shown := DefaultRows(rs, change) + PendingRows(rs, change);
            shown != [] && forall k | 0 <= k < |shown| :: shown[k].status == rs.rows[i].status[0]
  {
    assert RowLinked(rs, i);
    var c := rs.rows[i].changeIndex.value;
    var change := rs.changes[c];
    assert ChangeLinked(rs, c);
    ChangeShows(rs, c);
    var k :| 0 <= k < |change.rowIndices| && change.rowIndices[k] == i;
    assert StatesOf(rs, change.rowIndices)[k] == rs.rows[i].state;
  }

  /** Splitting groups into one change per row, as the readers do, changes neither view. */
  lemma SplittingKeepsViews(rs: Recordset)
    requires GraphValid(rs)
    ensures DefaultView(ToGraph(Images(rs))) == DefaultView(rs)
    ensures PendingView(ToGraph(Images(rs))) == PendingView(rs)
  {
    GraphRoundTrip(Images(rs));
    ViewsFollowImages(rs);
    ViewsFollowImages(ToGraph(Images(rs)));
  }

  // ---------------------------------------------------------------- the groups partition the rows

  function AllIndices(changes: seq<RowChange>): seq<nat> {
    if changes == [] then [] else changes[0].rowIndices + AllIndices(changes[1..])
  }

  lemma DistinctAppend(a: seq<nat>, b: seq<nat>)
    requires Distinct(a) && Distinct(b) && forall x | x in a :: x !in b
    ensures Distinct(a + b)
  {
    forall i, j | 0 <= i < j < |a + b| ensures (a + b)[i] != (a + b)[j] {
      if i < |a| <= j {
        assert a[i] in a && b[j - |a|] in b;
      }
    }
  }

  predicate RefersFrom(rs: Recordset, x: nat, from: nat) {
    x < |rs.rows| && rs.rows[x].changeIndex.Some? && from <= rs.rows[x].changeIndex.value
  }

  /** Every index listed from change `from` on belongs to a row that refers back to it. */
  lemma {:induction false} IndicesReferBack(rs: Recordset, from: nat)
    requires GraphValid(rs) && from <= |rs.changes|
    ensures forall x: nat :: x in AllIndices(rs.changes[from..]) <==> RefersFrom(rs, x, from)
    ensures Distinct(AllIndices(rs.changes[from..]))
    decreases |rs.changes| - from
  {
    if from < |rs.changes| {
      assert ChangeLinked(rs, from);
      IndicesReferBack(rs, from + 1);
      assert rs.changes[from..][1..] == rs.changes[from + 1..];
      forall x: nat ensures x in AllIndices(rs.changes[from..]) <==> RefersFrom(rs, x, from) {
        if x < |rs.rows| {
          assert RowLinked(rs, x);
        }
      }
      DistinctAppend(rs.changes[from].rowIndices, AllIndices(rs.changes[from + 1..]));
    } else {
      forall x: nat ensures !RefersFrom(rs, x, from) {
        if x < |rs.rows| {
          assert RowLinked(rs, x);
        }
      }
    }
  }

  lemma {:induction false} DistinctCount(xs: seq<nat>, n: nat)
    requires Distinct(xs) && forall x: nat :: x in xs <==> x < n
    ensures |xs| == n
  {
    assert xs != [] ==> xs[0] in xs;
    if n > 0 {
      assert n - 1 in xs;
      var i :| 0 <= i < |xs| && xs[i] == n - 1;
      var rest := xs[..i] + xs[i + 1..];
      forall x: nat ensures x in rest <==> x < n - 1 {
        if x in rest {
          assert x in xs && x != xs[i];
        }
        if x < n - 1 {
          assert x in xs;
        }
      }
      DistinctCount(rest, n - 1);
    }
  }

  function CountKind(images: seq<RowImage>, kind: ChangeKind): nat {
    if images == [] then 0 else (if images[0].Kind() == kind then 1 else 0) + CountKind(images[1..], kind)
  }

  lemma {:induction false} CountAppend(a: seq<RowImage>, b: seq<RowImage>, kind: ChangeKind)
    ensures CountKind(a + b, kind) == CountKind(a, kind) + CountKind(b, kind)
  {
    if a == [] {
      assert a + b == b;
    } else {
      assert (a + b)[1..] == a[1..] + b;
      CountAppend(a[1..], b, kind);
    }
  }

  function RowsIn(images: seq<RowImage>): nat {
    CountKind(images, ChangeKind.Current) + CountKind(images, Insert) + CountKind(images, Delete) + 2 * CountKind(images, Update)
  }

  lemma {:induction false} GroupCounts(rs: Recordset, kind: ChangeKind, indices: seq<nat>)
    requires kind != Update
    ensures CountKind(SplitGroup(rs, kind, indices), kind) == |indices|
    ensures forall other | other != kind :: CountKind(SplitGroup(rs, kind, indices), other) == 0
  {
    if indices != [] {
      GroupCounts(rs, kind, indices[1..]);
      assert SplitGroup(rs, kind, indices)[1..] == SplitGroup(rs, kind, indices[1..]);
    }
  }

  lemma RowsInAppend(a: seq<RowImage>, b: seq<RowImage>)
    ensures RowsIn(a + b) == RowsIn(a) + RowsIn(b)
  {
    CountAppend(a, b, ChangeKind.Current);
    CountAppend(a, b, Insert);
    CountAppend(a, b, Delete);
    CountAppend(a, b, Update);
  }

  lemma OneUpdate(image: RowImage)
    requires image.Edit?
    ensures RowsIn([image]) == 2
  {
    NoneOf(image, ChangeKind.Current);
    NoneOf(image, Insert);
    NoneOf(image, Delete);
    assert [image][1..] == [];
    assert CountKind([image], Update) == 1;
  }

  lemma NoneOf(image: RowImage, kind: ChangeKind)
    requires image.Kind() != kind
    ensures CountKind([image], kind) == 0
  {
    assert [image][1..] == [];
  }

  lemma RowsOfChange(rs: Recordset, c: nat)
    requires GraphValid(rs) && c < |rs.changes|
    ensures RowsIn(ChangeImages(rs, rs.changes[c])) == |rs.changes[c].rowIndices|
  {
    var change := rs.changes[c];
    assert ChangeLinked(rs, c);
    assert |StatesOf(rs, change.rowIndices)| == |change.rowIndices|;
    if change.kind == Update {
      assert |change.rowIndices| == 2;
      OneUpdate(ChangeImages(rs, change)[0]);
    } else {
      GroupCounts(rs, change.kind, change.rowIndices);
    }
  }

  lemma {:induction false} IndexCount(rs: Recordset, from: nat)
    requires GraphValid(rs) && from <= |rs.changes|
    ensures |AllIndices(rs.changes[from..])| == RowsIn(ImagesFrom(rs, rs.changes[from..]))
    decreases |rs.changes| - from
  {
    if from < |rs.changes| {
      IndexCount(rs, from + 1);
      assert rs.changes[from..][1..] == rs.changes[from + 1..];
      RowsInAppend(ChangeImages(rs, rs.changes[from]), ImagesFrom(rs, rs.changes[from + 1..]));
      RowsOfChange(rs, from);
    }
  }

  lemma {:induction false} ViewCounts(images: seq<RowImage>)
    ensures |RowsOf(images, false)| == CountKind(images, ChangeKind.Current) + CountKind(images, Insert) + CountKind(images, Update)
    ensures |RowsOf(images, true)| == CountKind(images, Insert) + CountKind(images, Update) + CountKind(images, Delete)
  {
    if images != [] {
      ViewCounts(images[1..]);
    }
  }

  /** A validated graph is a partition of its rows, and every row is accounted for by the views. */
  lemma ValidatedIsPartition(rs: Recordset)
    requires GraphValid(rs)
    ensures Distinct(AllIndices(rs.changes)) && forall x: nat :: x in AllIndices(rs.changes) <==> x < |rs.rows|
    ensures |rs.rows| == |DefaultView(rs)| + CountKind(Images(rs), Delete) + CountKind(Images(rs), Update)
    ensures |PendingView(rs)| == CountKind(Images(rs), Insert) + CountKind(Images(rs), Update) + CountKind(Images(rs), Delete)
  {
    assert rs.changes[0..] == rs.changes;
    IndicesReferBack(rs, 0);
    forall x: nat ensures x in AllIndices(rs.changes) <==> x < |rs.rows| {
      if x < |rs.rows| {
        assert RowLinked(rs, x);
      }
    }
    DistinctCount(AllIndices(rs.changes), |rs.rows|);
    IndexCount(rs, 0);
    ViewsFollowImages(rs);
    ViewCounts(Images(rs));
  }

  /** What one change adds to the default row count. */
  function RowCountOf(change: RowChange): nat {
    match change.kind
    case Current => |change.rowIndices|
    case Insert => |change.rowIndices|
    case Update => 1
    case Delete => 0
  }

  lemma ChangeCount(rs: Recordset, c: nat)
    requires GraphValid(rs) && c < |rs.changes|
    ensures |DefaultRows(rs, rs.changes[c])| == RowCountOf(rs.changes[c])
  {
    var change := rs.changes[c];
    assert ChangeLinked(rs, c);
    ChangeViewOfImages(rs, c, false);
    ViewCounts(ChangeImages(rs, change));
    if change.kind == Update {
      assert |StatesOf(rs, change.rowIndices)| == 2;
      assert ChangeImages(rs, change)[1..] == [];
    } else {
      GroupCounts(rs, change.kind, change.rowIndices);
    }
  }

  /** `default_row_count`: the row count in the ADTG header is the length of the default view. */
  method DefaultRowCount(rs: Recordset) returns (count: nat)
    requires GraphValid(rs)
    ensures count == |DefaultView(rs)|
  {
    count := 0;
    for c := 0 to |rs.changes|
      invariant count == |ViewFrom(rs, rs.changes[..c], false)|
    {
      var change := rs.changes[c];
      assert rs.changes[..c + 1] == rs.changes[..c] + [change];
      ViewFromSnoc(rs, rs.changes[..c], change, false);
      ChangeCount(rs, c);
      match change.kind {
        case Current => count := count + |change.rowIndices|;
        case Insert => count := count + |change.rowIndices|;
        case Update => count := count + 1;
        case Delete =>
      }
    }
    assert rs.changes[..|rs.changes|] == rs.changes;
  }

  // ---------------------------------------------------------------- what validation leaves open

  lemma SameRowOf(a: Recordset, b: Recordset, i: nat)
    requires GraphValid(a) && GraphValid(b) && a.changes == b.changes && i < |a.rows| == |b.rows|
    ensures a.rows[i].(values := []) == b.rows[i].(values := [])
  {
    assert RowLinked(a, i) && RowLinked(b, i);
    var c := a.rows[i].changeIndex.value;
    assert ChangeLinked(a, c) && ChangeLinked(b, c);
    var change := a.changes[c];
    var k :| 0 <= k < |change.rowIndices| && change.rowIndices[k] == i;
    assert StatesOf(a, change.rowIndices)[k] == a.rows[i].state && StatesOf(b, change.rowIndices)[k] == b.rows[i].state;
  }

  /** The validator leaves no freedom: once the changes and the rows' values are given, every row's
      ordinal, state, status and change index are determined. */
  lemma GraphDetermined(a: Recordset, b: Recordset)
    requires GraphValid(a) && GraphValid(b) && a.changes == b.changes && |a.rows| == |b.rows|
    requires forall i | 0 <= i < |a.rows| :: a.rows[i].values == b.rows[i].values
    ensures a == b
  {
    forall i | 0 <= i < |a.rows| ensures a.rows[i] == b.rows[i] {
      SameRowOf(a, b, i);
    }
  }

  // ---------------------------------------------------------------- the validator

  /** The row and change loops of `validate_recordset_shape_at`, with their early exits. */
  method ValidateGraph(rs: Recordset) returns (ok: bool)
    ensures ok <==> GraphValid(rs)
  {
    for i := 0 to |rs.rows|
      invariant forall k | 0 <= k < i :: RowLinked(rs, k)
    {
      var row := rs.rows[i];
      if row.ordinal != i {
        assert !RowLinked(rs, i);
        return false;
      }
      if row.changeIndex.None? || row.changeIndex.value >= |rs.changes| {
        assert !RowLinked(rs, i);
        return false;
      }
      if i !in rs.changes[row.changeIndex.value].rowIndices {
        assert !RowLinked(rs, i);
        return false;
      }
      if row.status != [StatusOf(row.state)] {
        assert !RowLinked(rs, i);
        return false;
      }
    }
    for c := 0 to |rs.changes|
      invariant forall k | 0 <= k < c :: ChangeLinked(rs, k)
    {
      var linked := ValidateChange(rs, c);
      if !linked {
        return false;
      }
    }
    return true;
  }

  method ValidateChange(rs: Recordset, c: nat) returns (ok: bool)
    requires c < |rs.changes|
    ensures ok <==> ChangeLinked(rs, c)
  {
    var change := rs.changes[c];
    if change.rowIndices == [] {
      return false;
    }
    var seen: set<nat> := {};
    var states := [];
    for k := 0 to |change.rowIndices|
      invariant seen == set j | 0 <= j < k :: change.rowIndices[j]
      invariant Distinct(change.rowIndices[..k])
      invariant |states| == k
      invariant forall j | 0 <= j < k ::
                  && change.rowIndices[j] < |rs.rows|
                  && rs.rows[change.rowIndices[j]].changeIndex == Some(c)
                  && states[j] == rs.rows[change.rowIndices[j]].state
    {
      var index := change.rowIndices[k];
      if index in seen {
        var j :| 0 <= j < k && change.rowIndices[j] == index;
        return false;
      }
      seen := seen + {index};
      if index >= |rs.rows| {
        return false;
      }
      if rs.rows[index].changeIndex != Some(c) {
        return false;
      }
      assert change.rowIndices[..k + 1] == change.rowIndices[..k] + [index];
      states := states + [rs.rows[index].state];
    }
    assert change.rowIndices[..|change.rowIndices|] == change.rowIndices;
    assert states == StatesOf(rs, change.rowIndices);
    ok := StatesFit(change.kind, states);
  }
}
