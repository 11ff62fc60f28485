/** Reducing updates to their changed cells is invisible: every view at every depth is the
    same before and after. */
module ChapterViews {
  import opened Prelude
  import opened RecordsetModel
  import opened RowGraph
  import opened RowCodec
  import opened ChapterTree
  import opened ChapterJoin

  /** Equal plain cells; nested Recordsets with the same views, looking `depth` levels down. */
  ghost predicate SameValue(depth: nat, a: Value, b: Value)
    decreases depth, 1
  {
    if a.Chapter? && b.Chapter? then SameViews(depth, a.recordset, b.recordset) else a == b
  }

  ghost predicate SameRow(depth: nat, a: ViewRow, b: ViewRow)
    decreases depth, 2
  {
    && a.status == b.status && |a.values| == |b.values|
    && forall j | 0 <= j < |a.values| :: SameValue(depth, a.values[j], b.values[j])
  }

  ghost predicate SameRows(depth: nat, a: seq<ViewRow>, b: seq<ViewRow>)
    decreases depth, 3
  {
    |a| == |b| && forall k | 0 <= k < |a| :: SameRow(depth, a[k], b[k])
  }

  /** The default and pending views agree, and so do those of all nested Recordsets. */
  ghost predicate SameViews(depth: nat, a: Recordset, b: Recordset)
    decreases depth, 0
  {
    depth == 0
    || (SameRows(depth - 1, DefaultView(a), DefaultView(b)) && SameRows(depth - 1, PendingView(a), PendingView(b)))
  }

  /** The cells of a stored and joined row against those of the original, column by column. */
  lemma {:induction false} CellsSame(s: Schema, kids: seq<Pools>, row: RowImage, depth: nat)
    requires SchemaValid(s) && KidsShaped(s, kids) && RawRow(s.fields, row)
    ensures RowSame(depth, MaterializeRow(s, StoredKids(s, kids), Stored(s.fields, row)), MaterializeRow(s, kids, row))
    decreases s, 1
  {
    var stored := Stored(s.fields, row);
    var a, b := MaterializeRow(s, StoredKids(s, kids), stored), MaterializeRow(s, kids, row);
    MaterializedCells(s, StoredKids(s, kids), stored);
    MaterializedCells(s, kids, row);
    StoredEffective(s.fields, row);
    assert |a.Effective()| == |b.Effective()| == |s.fields|;
    forall j | 0 <= j < |s.fields| ensures SameValue(depth, a.Effective()[j], b.Effective()[j]) {
      if s.fields[j].IsChapter() {
        var i := ChildIndex(s.fields, j);
        ChildIndexMonotone(s.fields, j, |s.fields|);
        JoinedSame(s, kids, row, i, depth);
        assert a.Effective()[j] == Chapter(Joined(s, StoredKids(s, kids), i, stored.Effective()));
        assert b.Effective()[j] == Chapter(Joined(s, kids, i, row.Effective()));
      } else {
        assert a.Effective()[j] == stored.Effective()[j];
        assert b.Effective()[j] == row.Effective()[j] && !row.Effective()[j].Chapter?;
      }
    }
  }

  lemma {:induction false} JoinedSame(s: Schema, kids: seq<Pools>, row: RowImage, i: nat, depth: nat)
    requires SchemaValid(s) && KidsShaped(s, kids) && RawRow(s.fields, row) && i < |s.children|
    ensures SameViews(depth, Joined(s, StoredKids(s, kids), i, Stored(s.fields, row).Effective()), Joined(s, kids, i, row.Effective()))
    decreases s, 0
  {
    var schema, relation := s.children[i].schema, s.children[i].relation;
    var block := Matching(relation, row.Effective(), kids[i].rows);
    ChildShaped(s, kids, i);
    OccurringRaw(s, kids, [row], i);
    assert RelationValid(relation, s.fields, schema.fields);
    StoredMatching(relation, s.fields, schema.fields, row, kids[i].rows);
    MatchingMembers(relation, row.Effective(), kids[i].rows);
    forall k | 0 <= k < |block| ensures RawRow(schema.fields, block[k]) {
      assert block[k] in block && block[k] in kids[i].rows;
    }
    RowsSame(schema, kids[i].children, block, depth);
  }

  lemma {:induction false} RowsSame(s: Schema, kids: seq<Pools>, rows: seq<RowImage>, depth: nat)
    requires SchemaValid(s) && KidsShaped(s, kids) && RawRows(s.fields, rows)
    ensures SameViews(depth, ToGraph(MaterializeRows(s, StoredKids(s, kids), StoredRows(s.fields, rows))), ToGraph(MaterializeRows(s, kids, rows)))
    decreases s, 4
  {
    if depth > 0 {
      RowsPairwise(s, kids, rows, depth - 1);
      GraphsSame(depth - 1, MaterializeRows(s, StoredKids(s, kids), StoredRows(s.fields, rows)), MaterializeRows(s, kids, rows));
    }
  }

  lemma {:induction false} RowsPairwise(s: Schema, kids: seq<Pools>, rows: seq<RowImage>, depth: nat)
    requires SchemaValid(s) && KidsShaped(s, kids) && RawRows(s.fields, rows)
    ensures var a, b := MaterializeRows(s, StoredKids(s, kids), StoredRows(s.fields, rows)), MaterializeRows(s, kids, rows);
            |a| == |b| && forall k | 0 <= k < |a| :: RowSame(depth, a[k], b[k])
    decreases s, 3
  {
    var a, b := MaterializeRows(s, StoredKids(s, kids), StoredRows(s.fields, rows)), MaterializeRows(s, kids, rows);
    forall k | 0 <= k < |rows| ensures RowSame(depth, a[k], b[k]) {
      RowAtSame(s, kids, rows, k, depth, a[k], b[k]);
    }
  }

  lemma {:induction false} RowAtSame(s: Schema, kids: seq<Pools>, rows: seq<RowImage>, k: nat, depth: nat, a: RowImage, b: RowImage)
    requires SchemaValid(s) && KidsShaped(s, kids) && RawRows(s.fields, rows) && k < |rows|
    requires a == MaterializeRow(s, StoredKids(s, kids), Stored(s.fields, rows[k])) && b == MaterializeRow(s, kids, rows[k])
    ensures RowSame(depth, a, b)
    decreases s, 2
  {
    assert RawRow(s.fields, rows[k]);
    CellsSame(s, kids, rows[k], depth);
  }

  lemma GraphsSame(depth: nat, a: seq<RowImage>, b: seq<RowImage>)
    requires |a| == |b| && forall k | 0 <= k < |a| :: RowSame(depth, a[k], b[k])
    ensures SameViews(depth + 1, ToGraph(a), ToGraph(b))
  {
    GraphRoundTrip(a);
    GraphRoundTrip(b);
    ViewsFollowImages(ToGraph(a));
    ViewsFollowImages(ToGraph(b));
    ViewsSame(depth, a, b, false);
    ViewsSame(depth, a, b, true);
  }

  ghost predicate RowSame(depth: nat, a: RowImage, b: RowImage) {
    && a.Kind() == b.Kind()
    && |a.Effective()| == |b.Effective()|
    && forall j | 0 <= j < |a.Effective()| :: SameValue(depth, a.Effective()[j], b.Effective()[j])
  }

  lemma {:induction false} ViewsSame(depth: nat, a: seq<RowImage>, b: seq<RowImage>, pending: bool)
    requires |a| == |b| && forall k | 0 <= k < |a| :: RowSame(depth, a[k], b[k])
    ensures SameRows(depth, RowsOf(a, pending), RowsOf(b, pending))
  {
    if a != [] {
      assert RowSame(depth, a[0], b[0]);
      forall k | 0 <= k < |a[1..]| ensures RowSame(depth, a[1..][k], b[1..][k]) {
        assert RowSame(depth, a[k + 1], b[k + 1]);
      }
      ViewsSame(depth, a[1..], b[1..], pending);
      FirstViewSame(depth, a[0], b[0], pending);
      SameRowsAppend(depth, ViewOf(a[0], pending), ViewOf(b[0], pending), RowsOf(a[1..], pending), RowsOf(b[1..], pending));
    }
  }

  function ViewOf(image: RowImage, pending: bool): seq<ViewRow> {
    if pending then PendingRow(image) else DefaultRow(image)
  }

  lemma FirstViewSame(depth: nat, a: RowImage, b: RowImage, pending: bool)
    requires RowSame(depth, a, b)
    ensures SameRows(depth, ViewOf(a, pending), ViewOf(b, pending))
  {
  }

  lemma SameRowsAppend(depth: nat, a: seq<ViewRow>, b: seq<ViewRow>, x: seq<ViewRow>, y: seq<ViewRow>)
    requires SameRows(depth, a, b) && SameRows(depth, x, y)
    ensures SameRows(depth, a + x, b + y)
  {
    forall k | 0 <= k < |a + x| ensures SameRow(depth, (a + x)[k], (b + y)[k]) {
      if k < |a| {
        assert SameRow(depth, a[k], b[k]);
      } else {
        assert SameRow(depth, x[k - |a|], y[k - |a|]);
      }
    }
  }

  /** Reducing the updates of a tree to their changes keeps the default and pending views of the root
      and of every nested Recordset, at every depth. */
  lemma StoredKeepsViews(s: Schema, pools: Pools, depth: nat)
    requires SchemaValid(s) && PoolsShaped(s, pools)
    ensures SameViews(depth, Materialize(s, StoredPools(s, pools)), Materialize(s, pools))
  {
    assert KidsShaped(s, pools.children);
    RowsSame(s, pools.children, pools.rows, depth);
    assert StoredPools(s, pools).children == StoredKids(s, pools.children);
  }

  /** Flatten, deduplicate, store and re-join keeps all these views too. */
  lemma RejoinKeepsViews(s: Schema, pools: Pools, depth: nat)
    requires SchemaValid(s) && PoolsReady(s, pools)
    ensures SameViews(depth, Materialize(s, Reread(s, [Materialize(s, pools)])), Materialize(s, pools))
  {
    FlattenRejoin(s, pools);
    StoredKeepsViews(s, pools, depth);
  }
}
