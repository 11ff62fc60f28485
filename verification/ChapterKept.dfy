/** When exactly a shaped tree survives flattening and deduplication: the change keys of the rows
    that some parent joins must be distinct, pool by pool. Rows no parent joins do not matter. */
module ChapterKept {
  import opened Prelude
  import opened RecordsetModel
  import opened RowCodec
  import opened ChapterTree
  import opened ChapterJoin

  // ---------------------------------------------------------------- the rows a tree shows

  predicate WantedBy(relation: seq<RelationPair>, parents: seq<RowImage>, row: RowImage) {
    exists k :: 0 <= k < |parents| && Matches(relation, parents[k].Effective(), row.Effective())
  }

  /** The rows of a pool that some parent joins. */
  function Wanted(relation: seq<RelationPair>, parents: seq<RowImage>, rows: seq<RowImage>): seq<RowImage> {
    if rows == [] then []
    else (if WantedBy(relation, parents, rows[0]) then [rows[0]] else []) + Wanted(relation, parents, rows[1..])
  }

  lemma {:induction false} WantedMembers(relation: seq<RelationPair>, parents: seq<RowImage>, rows: seq<RowImage>)
    ensures forall x :: x in Wanted(relation, parents, rows) <==> x in rows && WantedBy(relation, parents, x)
  {
    if rows != [] {
      WantedMembers(relation, parents, rows[1..]);
    }
  }

  /** The child pools without the rows no parent joins, level by level. */
  function PrunedKids(s: Schema, kids: seq<Pools>, rows: seq<RowImage>): (r: seq<Pools>)
    ensures |r| == |s.children|
    decreases s
  {
    seq(|s.children|, i requires 0 <= i < |s.children| =>
      if i < |kids| then
        var wanted := Wanted(s.children[i].relation, rows, kids[i].rows);
        Pools(wanted, PrunedKids(s.children[i].schema, kids[i].children, wanted))
      else Pools([], []))
  }

  function Pruned(s: Schema, pools: Pools): Pools {
    Pools(pools.rows, PrunedKids(s, pools.children, pools.rows))
  }

  lemma {:induction false} WantedMatching(relation: seq<RelationPair>, parents: seq<RowImage>, parent: RowImage, rows: seq<RowImage>)
    requires parent in parents
    ensures Matching(relation, parent.Effective(), Wanted(relation, parents, rows)) == Matching(relation, parent.Effective(), rows)
  {
    if rows != [] {
      WantedMatching(relation, parents, parent, rows[1..]);
      var k :| 0 <= k < |parents| && parents[k] == parent;
      assert Matches(relation, parents[k].Effective(), rows[0].Effective()) ==> WantedBy(relation, parents, rows[0]);
      WantedStep(relation, parent.Effective(), rows[0], WantedBy(relation, parents, rows[0]), Wanted(relation, parents, rows[1..]), rows[1..]);
      assert rows == [rows[0]] + rows[1..];
    }
  }

  lemma WantedStep(relation: seq<RelationPair>, key: seq<Value>, row: RowImage, wanted: bool, some: seq<RowImage>, all: seq<RowImage>)
    requires Matching(relation, key, some) == Matching(relation, key, all)
    requires Matches(relation, key, row.Effective()) ==> wanted
    ensures Matching(relation, key, (if wanted then [row] else []) + some) == Matching(relation, key, [row] + all)
  {
    MatchingFirst(relation, key, row, all);
    if wanted {
      MatchingFirst(relation, key, row, some);
    } else {
      assert [] + some == some;
    }
  }

  lemma {:induction false} PrunedShaped(s: Schema, kids: seq<Pools>, rows: seq<RowImage>)
    requires KidsShaped(s, kids)
    ensures KidsShaped(s, PrunedKids(s, kids, rows))
    decreases s
  {
    forall i | 0 <= i < |s.children| ensures PoolsShaped(s.children[i].schema, PrunedKids(s, kids, rows)[i]) {
      var schema, wanted := s.children[i].schema, Wanted(s.children[i].relation, rows, kids[i].rows);
      assert PoolsShaped(schema, kids[i]);
      PrunedShaped(schema, kids[i].children, wanted);
      WantedMembers(s.children[i].relation, rows, kids[i].rows);
      forall k | 0 <= k < |wanted| ensures RawRow(schema.fields, wanted[k]) {
        assert wanted[k] in wanted && wanted[k] in kids[i].rows;
      }
    }
  }

  /** Only which rows there are counts, not their order or number. */
  lemma PrunedBySame(s: Schema, kids: seq<Pools>, a: seq<RowImage>, b: seq<RowImage>)
    requires forall x :: x in a <==> x in b
    ensures PrunedKids(s, kids, a) == PrunedKids(s, kids, b)
  {
    forall i | 0 <= i < |s.children| && i < |kids|
      ensures Wanted(s.children[i].relation, a, kids[i].rows) == Wanted(s.children[i].relation, b, kids[i].rows)
    {
      WantedBySame(s.children[i].relation, a, b, kids[i].rows);
    }
  }

  lemma {:induction false} WantedBySame(relation: seq<RelationPair>, a: seq<RowImage>, b: seq<RowImage>, rows: seq<RowImage>)
    requires forall x :: x in a <==> x in b
    ensures Wanted(relation, a, rows) == Wanted(relation, b, rows)
  {
    if rows != [] {
      WantedBySame(relation, a, b, rows[1..]);
      if k :| 0 <= k < |a| && Matches(relation, a[k].Effective(), rows[0].Effective()) {
        assert a[k] in b;
      }
      if k :| 0 <= k < |b| && Matches(relation, b[k].Effective(), rows[0].Effective()) {
        assert b[k] in a;
      }
    }
  }

  // ---------------------------------------------------------------- pruning changes no tree

  lemma {:induction false} PruningKeepsJoin(s: Schema, kids: seq<Pools>, rows: seq<RowImage>, row: RowImage, i: nat)
    requires SchemaValid(s) && KidsShaped(s, kids) && row in rows && i < |s.children|
    ensures Joined(s, PrunedKids(s, kids, rows), i, row.Effective()) == Joined(s, kids, i, row.Effective())
    decreases s, 0
  {
    var schema, relation := s.children[i].schema, s.children[i].relation;
    var wanted := Wanted(relation, rows, kids[i].rows);
    var block := Matching(relation, row.Effective(), kids[i].rows);
    WantedMatching(relation, rows, row, kids[i].rows);
    ChildShaped(s, kids, i);
    MatchingMembers(relation, row.Effective(), wanted);
    forall k | 0 <= k < |block|
      ensures MaterializeRow(schema, PrunedKids(schema, kids[i].children, wanted), block[k]) == MaterializeRow(schema, kids[i].children, block[k])
    {
      assert block[k] in block && block[k] in Matching(relation, row.Effective(), wanted);
      PruningKeepsRow(schema, kids[i].children, wanted, block[k]);
    }
    SameRows(schema, PrunedKids(schema, kids[i].children, wanted), kids[i].children, block);
  }

  lemma {:induction false} PruningKeepsRow(s: Schema, kids: seq<Pools>, rows: seq<RowImage>, row: RowImage)
    requires SchemaValid(s) && KidsShaped(s, kids) && row in rows
    ensures MaterializeRow(s, PrunedKids(s, kids, rows), row) == MaterializeRow(s, kids, row)
    decreases s, 1
  {
    var pruned := PrunedKids(s, kids, rows);
    forall i: nat ensures Joined(s, pruned, i, row.Effective()) == Joined(s, kids, i, row.Effective()) {
      if i < |s.children| {
        PruningKeepsJoin(s, kids, rows, row, i);
      }
    }
    SameJoinsSameRow(s, pruned, kids, row);
  }

  lemma PruningKeepsRows(s: Schema, kids: seq<Pools>, rows: seq<RowImage>)
    requires SchemaValid(s) && KidsShaped(s, kids)
    ensures MaterializeRows(s, PrunedKids(s, kids, rows), rows) == MaterializeRows(s, kids, rows)
  {
    forall k | 0 <= k < |rows|
      ensures MaterializeRow(s, PrunedKids(s, kids, rows), rows[k]) == MaterializeRow(s, kids, rows[k])
    {
      PruningKeepsRow(s, kids, rows, rows[k]);
    }
    SameRows(s, PrunedKids(s, kids, rows), kids, rows);
  }

  /** The block of a stored parent, in the pruned and in the whole stored pool. */
  lemma StoredBlocks(s: Schema, kids: seq<Pools>, rows: seq<RowImage>, row: RowImage, i: nat)
    requires SchemaValid(s) && KidsShaped(s, kids) && RawRows(s.fields, rows) && row in rows && i < |s.children|
    ensures var relation, fields := s.children[i].relation, s.children[i].schema.fields;
            var key, block := Stored(s.fields, row).Effective(), StoredRows(fields, Matching(relation, row.Effective(), kids[i].rows));
            && Matching(relation, key, StoredRows(fields, kids[i].rows)) == block
            && Matching(relation, key, StoredRows(fields, Wanted(relation, rows, kids[i].rows))) == block
  {
    var relation, fields := s.children[i].relation, s.children[i].schema.fields;
    OccurringRaw(s, kids, rows, i);
    PrunedShaped(s, kids, rows);
    OccurringRaw(s, PrunedKids(s, kids, rows), rows, i);
    WantedMatching(relation, rows, row, kids[i].rows);
    assert RelationValid(relation, s.fields, fields);
    StoredMatching(relation, s.fields, fields, row, kids[i].rows);
    StoredMatching(relation, s.fields, fields, row, Wanted(relation, rows, kids[i].rows));
  }

  lemma {:induction false} PruningKeepsStoredJoin(s: Schema, kids: seq<Pools>, rows: seq<RowImage>, row: RowImage, i: nat)
    requires SchemaValid(s) && KidsShaped(s, kids) && RawRows(s.fields, rows) && row in rows && i < |s.children|
    ensures var key := Stored(s.fields, row).Effective();
            Joined(s, StoredKids(s, PrunedKids(s, kids, rows)), i, key) == Joined(s, StoredKids(s, kids), i, key)
    decreases s, 0
  {
    var schema, relation := s.children[i].schema, s.children[i].relation;
    var wanted, block := Wanted(relation, rows, kids[i].rows), Matching(relation, row.Effective(), kids[i].rows);
    StoredBlocks(s, kids, rows, row, i);
    ChildShaped(s, kids, i);
    PrunedShaped(s, kids, rows);
    ChildShaped(s, PrunedKids(s, kids, rows), i);
    assert RawRows(schema.fields, wanted) by {
      assert PoolsShaped(schema, PrunedKids(s, kids, rows)[i]);
    }
    var a, b := StoredKids(schema, PrunedKids(schema, kids[i].children, wanted)), StoredKids(schema, kids[i].children);
    WantedMatching(relation, rows, row, kids[i].rows);
    MatchingMembers(relation, row.Effective(), wanted);
    forall k | 0 <= k < |block|
      ensures MaterializeRow(schema, a, Stored(schema.fields, block[k])) == MaterializeRow(schema, b, Stored(schema.fields, block[k]))
    {
      assert block[k] in block && block[k] in Matching(relation, row.Effective(), wanted);
      PruningKeepsStoredRow(schema, kids[i].children, wanted, block[k]);
    }
    SameRows(schema, a, b, StoredRows(schema.fields, block));
  }

  lemma {:induction false} PruningKeepsStoredRow(s: Schema, kids: seq<Pools>, rows: seq<RowImage>, row: RowImage)
    requires SchemaValid(s) && KidsShaped(s, kids) && RawRows(s.fields, rows) && row in rows
    ensures var stored := Stored(s.fields, row);
            MaterializeRow(s, StoredKids(s, PrunedKids(s, kids, rows)), stored) == MaterializeRow(s, StoredKids(s, kids), stored)
    decreases s, 1
  {
    var a, b, stored := StoredKids(s, PrunedKids(s, kids, rows)), StoredKids(s, kids), Stored(s.fields, row);
    forall i: nat ensures Joined(s, a, i, stored.Effective()) == Joined(s, b, i, stored.Effective()) {
      if i < |s.children| {
        PruningKeepsStoredJoin(s, kids, rows, row, i);
      }
    }
    SameJoinsSameRow(s, a, b, stored);
  }

  // ---------------------------------------------------------------- a tree that comes back

  /** Every row finds its children again after collecting and rereading. */
  ghost predicate Kept(s: Schema, kids: seq<Pools>, rows: seq<RowImage>) {
    forall row | row in rows ::
      MaterializeRow(s, RereadKids(s, MaterializeRows(s, kids, rows)), Stored(s.fields, row))
      == MaterializeRow(s, StoredKids(s, kids), Stored(s.fields, row))
  }

  lemma ApartIsKept(s: Schema, kids: seq<Pools>, rows: seq<RowImage>)
    requires SchemaValid(s) && KidsShaped(s, kids) && RawRows(s.fields, rows)
    requires KidsApart(s, PrunedKids(s, kids, rows))
    ensures Kept(s, kids, rows)
  {
    PrunedShaped(s, kids, rows);
    PruningKeepsRows(s, kids, rows);
    forall row | row in rows
      ensures MaterializeRow(s, RereadKids(s, MaterializeRows(s, kids, rows)), Stored(s.fields, row))
              == MaterializeRow(s, StoredKids(s, kids), Stored(s.fields, row))
    {
      Rejoin(s, PrunedKids(s, kids, rows), rows, row);
      PruningKeepsStoredRow(s, kids, rows, row);
    }
  }

  // ---------------------------------------------------------------- counting keys

  lemma SubsetCount<T>(a: set<T>, b: set<T>)
    requires a <= b
    ensures |a| <= |b|
    ensures |a| == |b| ==> a == b
  {
    assert b == a + (b - a);
    assert |b| == |a| + |b - a|;
  }

  lemma {:induction false} KeyCount(rows: seq<RowImage>, indices: seq<nat>)
    ensures |Keys(rows, indices)| <= |rows|
    ensures |Keys(rows, indices)| == |rows| <==> KeysDistinct(rows, indices)
  {
    if rows != [] {
      var key, rest := KeyOf(rows[0], indices), Keys(rows[1..], indices);
      KeyCount(rows[1..], indices);
      assert Keys(rows, indices) == {key} + rest by {
        assert rows == [rows[0]] + rows[1..];
      }
      if key !in rest {
        assert |{key} + rest| == 1 + |rest|;
      } else {
        assert {key} + rest == rest;
      }
    }
  }

  lemma DistinctFirst(row: RowImage, rest: seq<RowImage>, indices: seq<nat>)
    ensures KeysDistinct([row] + rest, indices) <==> KeyOf(row, indices) !in Keys(rest, indices) && KeysDistinct(rest, indices)
    ensures Keys([row] + rest, indices) == {KeyOf(row, indices)} + Keys(rest, indices)
  {
    assert ([row] + rest)[1..] == rest;
  }

  lemma {:induction false} UniqueKeys(rows: seq<RowImage>, indices: seq<nat>, seen: set<ChangeKey>)
    ensures KeysDistinct(Unique(rows, indices, seen), indices) && Keys(Unique(rows, indices, seen), indices) !! seen
  {
    if rows != [] {
      var key := KeyOf(rows[0], indices);
      UniqueStep(rows, indices, seen);
      UniqueKeys(rows[1..], indices, seen + {key});
      var rest := Unique(rows[1..], indices, seen + {key});
      assert key in seen + {key};
      if key !in seen {
        DistinctFirst(rows[0], rest, indices);
      } else {
        assert [] + rest == rest;
      }
    }
  }

  /** Two rows of one block with one key. */
  lemma ClashInBlock(relation: seq<RelationPair>, key: seq<Value>, rows: seq<RowImage>, indices: seq<nat>, p: nat, q: nat)
    requires p < q < |rows| && KeyOf(rows[p], indices) == KeyOf(rows[q], indices)
    requires Matches(relation, key, rows[p].Effective()) && Matches(relation, key, rows[q].Effective())
    ensures !KeysDistinct(Matching(relation, key, rows), indices)
  {
    var front, back := rows[..p + 1], rows[p + 1..];
    assert rows == front + back && front[p] == rows[p] && back[q - p - 1] == rows[q];
    MatchingAppend(relation, key, front, back);
    var a, b := Matching(relation, key, front), Matching(relation, key, back);
    MatchingMembers(relation, key, front);
    MatchingMembers(relation, key, back);
    assert rows[p] in a && rows[q] in b;
    assert KeyOf(rows[p], indices) in Keys(a, indices) && KeyOf(rows[q], indices) in Keys(b, indices);
    if KeysDistinct(a + b, indices) {
      DistinctAppend(a, b, indices);
    }
  }

  lemma {:induction false} DistinctAppend(a: seq<RowImage>, b: seq<RowImage>, indices: seq<nat>)
    requires KeysDistinct(a + b, indices)
    ensures Keys(a, indices) !! Keys(b, indices)
  {
    if a != [] {
      assert a + b == [a[0]] + (a[1..] + b);
      DistinctFirst(a[0], a[1..] + b, indices);
      DistinctAppend(a[1..], b, indices);
      assert a == [a[0]] + a[1..];
      DistinctFirst(a[0], a[1..], indices);
      KeysOfSome(b, a[1..] + b, indices);
    }
  }

  lemma KeySource(rows: seq<RowImage>, indices: seq<nat>, key: ChangeKey) returns (j: nat)
    requires key in Keys(rows, indices)
    ensures j < |rows| && KeyOf(rows[j], indices) == key
  {
    var row :| row in rows && KeyOf(row, indices) == key;
    j :| 0 <= j < |rows| && rows[j] == row;
  }

  lemma {:induction false} FindClash(rows: seq<RowImage>, indices: seq<nat>) returns (p: nat, q: nat)
    requires !KeysDistinct(rows, indices)
    ensures p < q < |rows| && KeyOf(rows[p], indices) == KeyOf(rows[q], indices)
  {
    if KeyOf(rows[0], indices) in Keys(rows[1..], indices) {
      var j := KeySource(rows[1..], indices, KeyOf(rows[0], indices));
      p, q := 0, j + 1;
    } else {
      p, q := FindClash(rows[1..], indices);
      p, q := p + 1, q + 1;
    }
  }

  /** A block that keeps its length keeps all its keys, and had no key twice. */
  lemma BlockKeepsKeys(relation: seq<RelationPair>, key: seq<Value>, unique: seq<RowImage>, pool: seq<RowImage>, indices: seq<nat>)
    requires KeysDistinct(unique, indices) && forall u | u in unique :: u in pool
    requires |Matching(relation, key, unique)| == |Matching(relation, key, pool)|
    ensures KeysDistinct(Matching(relation, key, pool), indices)
    ensures Keys(Matching(relation, key, unique), indices) == Keys(Matching(relation, key, pool), indices)
  {
    var some, all := Matching(relation, key, unique), Matching(relation, key, pool);
    MatchingMembers(relation, key, unique);
    MatchingMembers(relation, key, pool);
    MatchingDistinct(relation, key, unique, indices);
    KeyCount(some, indices);
    KeyCount(all, indices);
    KeysOfSome(some, all, indices);
    SubsetCount(Keys(some, indices), Keys(all, indices));
  }

  /** If no parent loses a child, the wanted rows have distinct keys. */
  lemma CountsKeepApart(relation: seq<RelationPair>, parents: seq<RowImage>, unique: seq<RowImage>, pool: seq<RowImage>, indices: seq<nat>)
    requires KeysDistinct(unique, indices) && forall u | u in unique :: u in pool
    requires forall k | 0 <= k < |parents| ::
               |Matching(relation, parents[k].Effective(), unique)| == |Matching(relation, parents[k].Effective(), pool)|
    ensures KeysDistinct(Wanted(relation, parents, pool), indices)
  {
    var wanted := Wanted(relation, parents, pool);
    WantedMembers(relation, parents, pool);
    if !KeysDistinct(wanted, indices) {
      var p, q := FindClash(wanted, indices);
      assert wanted[p] in wanted && wanted[q] in wanted;
      var a :| 0 <= a < |parents| && Matches(relation, parents[a].Effective(), wanted[p].Effective());
      var b :| 0 <= b < |parents| && Matches(relation, parents[b].Effective(), wanted[q].Effective());
      BlockKeepsKeys(relation, parents[a].Effective(), unique, pool, indices);
      BlockKeepsKeys(relation, parents[b].Effective(), unique, pool, indices);
      WantedMatching(relation, parents, parents[a], pool);
      var x := KeptKey(relation, parents[a].Effective(), unique, pool, wanted[p], indices);
      var y := KeptKey(relation, parents[b].Effective(), unique, pool, wanted[q], indices);
      KeyIdentifies(unique, indices, x, y);
      MatchingSame(relation, parents[a].Effective(), parents[b].Effective(), pool, x);
      MatchingMembers(relation, parents[a].Effective(), pool);
      MatchingMembers(relation, parents[b].Effective(), pool);
      assert wanted[q] in Matching(relation, parents[b].Effective(), pool);
      ClashInBlock(relation, parents[a].Effective(), wanted, indices, p, q);
    }
  }

  lemma KeptKey(relation: seq<RelationPair>, key: seq<Value>, unique: seq<RowImage>, pool: seq<RowImage>, row: RowImage, indices: seq<nat>)
    returns (x: RowImage)
    requires Keys(Matching(relation, key, unique), indices) == Keys(Matching(relation, key, pool), indices)
    requires row in pool && Matches(relation, key, row.Effective())
    ensures x in unique && KeyOf(x, indices) == KeyOf(row, indices) && Matches(relation, key, x.Effective())
  {
    MatchingMembers(relation, key, unique);
    MatchingMembers(relation, key, pool);
    assert row in Matching(relation, key, pool);
    assert KeyOf(row, indices) in Keys(Matching(relation, key, pool), indices);
    x :| x in Matching(relation, key, unique) && KeyOf(x, indices) == KeyOf(row, indices);
  }

  // ---------------------------------------------------------------- a kept tree has its keys apart

  lemma GraphsDiffer(a: seq<RowImage>, b: seq<RowImage>)
    requires ToGraph(a) == ToGraph(b)
    ensures a == b
  {
    GraphRoundTrip(a);
    GraphRoundTrip(b);
  }

  /** What a kept row says about its children in column i. */
  lemma KeptChildren(s: Schema, kids: seq<Pools>, rows: seq<RowImage>, row: RowImage, i: nat)
    requires SchemaValid(s) && KidsShaped(s, kids) && RawRows(s.fields, rows) && row in rows && i < |s.children|
    requires Kept(s, kids, rows)
    ensures var schema, relation := s.children[i].schema, s.children[i].relation;
            var occurring := Occurring(s, kids, rows, i);
            var unique := Unique(occurring, KeyIndices(schema.fields), {});
            MaterializeRows(schema, RereadKids(schema, MaterializeRows(schema, kids[i].children, occurring)),
                            StoredRows(schema.fields, Matching(relation, row.Effective(), unique)))
            == MaterializeRows(schema, StoredKids(schema, kids[i].children),
                               StoredRows(schema.fields, Matching(relation, row.Effective(), kids[i].rows)))
  {
    var schema, relation, stored := s.children[i].schema, s.children[i].relation, Stored(s.fields, row);
    var key := stored.Effective();
    var a, b := RereadKids(s, MaterializeRows(s, kids, rows)), StoredKids(s, kids);
    var unique := Unique(Occurring(s, kids, rows, i), KeyIndices(schema.fields), {});
    RereadPool(s, kids, rows, i);
    ChildShaped(s, kids, i);
    OccurringRaw(s, kids, rows, i);
    UniqueRaw(schema.fields, Occurring(s, kids, rows, i), KeyIndices(schema.fields));
    assert RelationValid(relation, s.fields, schema.fields);
    StoredMatching(relation, s.fields, schema.fields, row, unique);
    StoredMatching(relation, s.fields, schema.fields, row, kids[i].rows);
    SameCells(s, a, b, stored, i);
    GraphsDiffer(MaterializeRows(schema, a[i].children, Matching(relation, key, a[i].rows)),
                 MaterializeRows(schema, b[i].children, Matching(relation, key, b[i].rows)));
  }

  lemma SameCells(s: Schema, a: seq<Pools>, b: seq<Pools>, row: RowImage, i: nat)
    requires SchemaValid(s) && i < |s.children| && |row.values| == |s.fields|
    requires MaterializeRow(s, a, row) == MaterializeRow(s, b, row)
    ensures Joined(s, a, i, row.Effective()) == Joined(s, b, i, row.Effective())
  {
    MaterializedCells(s, a, row);
    MaterializedCells(s, b, row);
    FilledChapter(s, a, row.values, row.Effective(), i);
    FilledChapter(s, b, row.values, row.Effective(), i);
  }

  lemma WantedOccurrences(s: Schema, kids: seq<Pools>, rows: seq<RowImage>, i: nat)
    requires i < |s.children| && i < |kids|
    ensures var wanted := Wanted(s.children[i].relation, rows, kids[i].rows);
            && Occurrences(s.children[i].relation, ParentKeys(rows, s.children[i].fieldIndex), wanted) == Occurring(s, kids, rows, i)
            && forall x :: x in wanted <==> x in Occurring(s, kids, rows, i)
  {
    var relation, keys := s.children[i].relation, ParentKeys(rows, s.children[i].fieldIndex);
    var wanted := Wanted(relation, rows, kids[i].rows);
    WantedMembers(relation, rows, kids[i].rows);
    ParentKeySource(rows, s.children[i].fieldIndex);
    SameOccurrences(relation, keys, rows, kids[i].rows);
    OccurrenceMembers(relation, keys, kids[i].rows);
    OccurrenceMembers(relation, keys, wanted);
    forall x | x in wanted ensures x in Occurring(s, kids, rows, i) {
      var k :| 0 <= k < |rows| && Matches(relation, rows[k].Effective(), x.Effective());
      MatchingMembers(relation, rows[k].Effective(), kids[i].rows);
      assert rows[k].Effective() in keys && x in Matching(relation, rows[k].Effective(), kids[i].rows);
    }
  }

  predicate SomeRowHas(rows: seq<RowImage>, key: seq<Value>) {
    exists k :: 0 <= k < |rows| && rows[k].Effective() == key
  }

  lemma {:induction false} ParentKeySource(rows: seq<RowImage>, field: nat)
    ensures forall key | key in ParentKeys(rows, field) :: SomeRowHas(rows, key)
  {
    if rows != [] {
      ParentKeySource(rows[1..], field);
      forall key | key in ParentKeys(rows, field) ensures SomeRowHas(rows, key) {
        if key in ParentKeys(rows[1..], field) {
          var k :| 0 <= k < |rows[1..]| && rows[1..][k].Effective() == key;
          assert rows[k + 1].Effective() == key;
        } else {
          assert key in RowKeys(rows[0], field) && rows[0].Effective() == key;
        }
      }
    }
  }

  lemma {:induction false} SameOccurrences(relation: seq<RelationPair>, keys: seq<seq<Value>>, parents: seq<RowImage>, rows: seq<RowImage>)
    requires forall key | key in keys :: SomeRowHas(parents, key)
    ensures Occurrences(relation, keys, Wanted(relation, parents, rows)) == Occurrences(relation, keys, rows)
  {
    if keys != [] {
      SameOccurrences(relation, keys[1..], parents, rows);
      assert SomeRowHas(parents, keys[0]);
      var k :| 0 <= k < |parents| && parents[k].Effective() == keys[0];
      WantedMatching(relation, parents, parents[k], rows);
    }
  }

  /** With distinct wanted keys a parent's children are all among the unique ones. */
  lemma WantedRejoin(s: Schema, kids: seq<Pools>, rows: seq<RowImage>, row: RowImage, i: nat)
    requires i < |s.children| && i < |kids| && row in rows
    requires KeysDistinct(Wanted(s.children[i].relation, rows, kids[i].rows), KeyIndices(s.children[i].schema.fields))
    ensures Matching(s.children[i].relation, row.Effective(), Unique(Occurring(s, kids, rows, i), KeyIndices(s.children[i].schema.fields), {}))
            == Matching(s.children[i].relation, row.Effective(), kids[i].rows)
  {
    var relation := s.children[i].relation;
    WantedOccurrences(s, kids, rows, i);
    RejoinChildren(relation, ParentKeys(rows, s.children[i].fieldIndex), row.Effective(), Wanted(relation, rows, kids[i].rows),
                   KeyIndices(s.children[i].schema.fields));
    WantedMatching(relation, rows, row, kids[i].rows);
  }

  lemma KeptPoolIsApart(s: Schema, kids: seq<Pools>, rows: seq<RowImage>, i: nat)
    requires SchemaValid(s) && KidsShaped(s, kids) && RawRows(s.fields, rows) && i < |s.children|
    requires Kept(s, kids, rows)
    ensures KeysDistinct(Wanted(s.children[i].relation, rows, kids[i].rows), KeyIndices(s.children[i].schema.fields))
  {
    var relation, indices := s.children[i].relation, KeyIndices(s.children[i].schema.fields);
    var occurring := Occurring(s, kids, rows, i);
    var unique := Unique(occurring, indices, {});
    UniqueKeys(occurring, indices, {});
    UniqueMembers(occurring, indices, {});
    OccurrenceMembers(relation, ParentKeys(rows, s.children[i].fieldIndex), kids[i].rows);
    forall k | 0 <= k < |rows|
      ensures |Matching(relation, rows[k].Effective(), unique)| == |Matching(relation, rows[k].Effective(), kids[i].rows)|
    {
      KeptChildren(s, kids, rows, rows[k], i);
    }
    CountsKeepApart(relation, rows, unique, kids[i].rows, indices);
  }

  /** A child of a kept row is kept. */
  lemma KeptChild(s: Schema, kids: seq<Pools>, rows: seq<RowImage>, parent: RowImage, i: nat, x: RowImage)
    requires SchemaValid(s) && KidsShaped(s, kids) && RawRows(s.fields, rows) && parent in rows && i < |s.children|
    requires Kept(s, kids, rows)
    requires x in Matching(s.children[i].relation, parent.Effective(), kids[i].rows)
    ensures var schema := s.children[i].schema;
            MaterializeRow(schema, RereadKids(schema, MaterializeRows(schema, kids[i].children, Occurring(s, kids, rows, i))), Stored(schema.fields, x))
            == MaterializeRow(schema, StoredKids(schema, kids[i].children), Stored(schema.fields, x))
  {
    var schema, block := s.children[i].schema, Matching(s.children[i].relation, parent.Effective(), kids[i].rows);
    KeptPoolIsApart(s, kids, rows, i);
    KeptChildren(s, kids, rows, parent, i);
    WantedRejoin(s, kids, rows, parent, i);
    SameRowsAt(schema, RereadKids(schema, MaterializeRows(schema, kids[i].children, Occurring(s, kids, rows, i))),
               StoredKids(schema, kids[i].children), block, x);
  }

  lemma SameRowsAt(s: Schema, a: seq<Pools>, b: seq<Pools>, rows: seq<RowImage>, x: RowImage)
    requires MaterializeRows(s, a, StoredRows(s.fields, rows)) == MaterializeRows(s, b, StoredRows(s.fields, rows)) && x in rows
    ensures MaterializeRow(s, a, Stored(s.fields, x)) == MaterializeRow(s, b, Stored(s.fields, x))
  {
    var j :| 0 <= j < |rows| && rows[j] == x;
    assert MaterializeRows(s, a, StoredRows(s.fields, rows))[j] == MaterializeRows(s, b, StoredRows(s.fields, rows))[j];
  }

  /** Being kept is inherited by the children of kept rows. */
  lemma KeptBelow(s: Schema, kids: seq<Pools>, rows: seq<RowImage>, i: nat)
    requires SchemaValid(s) && KidsShaped(s, kids) && RawRows(s.fields, rows) && i < |s.children|
    requires Kept(s, kids, rows)
    ensures Kept(s.children[i].schema, kids[i].children, Occurring(s, kids, rows, i))
  {
    var schema, relation := s.children[i].schema, s.children[i].relation;
    var occurring := Occurring(s, kids, rows, i);
    WantedOccurrences(s, kids, rows, i);
    WantedMembers(relation, rows, kids[i].rows);
    forall x | x in occurring
      ensures MaterializeRow(schema, RereadKids(schema, MaterializeRows(schema, kids[i].children, occurring)), Stored(schema.fields, x))
              == MaterializeRow(schema, StoredKids(schema, kids[i].children), Stored(schema.fields, x))
    {
      var k :| 0 <= k < |rows| && Matches(relation, rows[k].Effective(), x.Effective());
      MatchingMembers(relation, rows[k].Effective(), kids[i].rows);
      KeptChild(s, kids, rows, rows[k], i, x);
    }
  }

  lemma {:induction false} KeptIsApart(s: Schema, kids: seq<Pools>, rows: seq<RowImage>)
    requires SchemaValid(s) && KidsShaped(s, kids) && RawRows(s.fields, rows)
    requires Kept(s, kids, rows)
    ensures KidsApart(s, PrunedKids(s, kids, rows))
    decreases s
  {
    forall i | 0 <= i < |s.children| ensures KeysApart(s.children[i].schema, PrunedKids(s, kids, rows)[i]) {
      var schema, occurring := s.children[i].schema, Occurring(s, kids, rows, i);
      KeptPoolIsApart(s, kids, rows, i);
      KeptBelow(s, kids, rows, i);
      ChildShaped(s, kids, i);
      OccurringRaw(s, kids, rows, i);
      KeptIsApart(schema, kids[i].children, occurring);
      WantedOccurrences(s, kids, rows, i);
      PrunedBySame(schema, kids[i].children, Wanted(s.children[i].relation, rows, kids[i].rows), occurring);
    }
  }

  /** The root level: its rows and the rows below it. */
  lemma RereadRoot(s: Schema, pools: Pools)
    requires SchemaValid(s) && PoolsShaped(s, pools)
    ensures Reread(s, [Materialize(s, pools)])
            == Pools(StoredRows(s.fields, Unique(pools.rows, KeyIndices(s.fields), {})), RereadKids(s, MaterializeRows(s, pools.children, pools.rows)))
    ensures StoredPools(s, pools) == Pools(StoredRows(s.fields, pools.rows), StoredKids(s, pools.children))
  {
    var built, indices := MaterializeRows(s, pools.children, pools.rows), KeyIndices(s.fields);
    var rss := [ToGraph(built)];
    GraphRoundTrip(built);
    GraphCandidates(built, indices);
    OneRecordset(rss[0], indices);
    RereadChildren(s, rss);
    UniqueOfMaterialized(s, pools.children, pools.rows, indices, {});
    UniqueRaw(s.fields, pools.rows, indices);
    StoredOfMaterialized(s, pools.children, Unique(pools.rows, indices, {}));
  }

  /** Flatten, deduplicate and re-join gives back the tree of the stored pools if and only if no two
      rows of one pool that the tree shows have the same change key. */
  lemma TreeKeptIffKeysApart(s: Schema, pools: Pools)
    requires SchemaValid(s) && PoolsShaped(s, pools)
    ensures Materialize(s, Reread(s, [Materialize(s, pools)])) == Materialize(s, StoredPools(s, pools))
            <==> KeysApart(s, Pruned(s, pools))
  {
    var indices := KeyIndices(s.fields);
    var unique := Unique(pools.rows, indices, {});
    var a, b := RereadKids(s, MaterializeRows(s, pools.children, pools.rows)), StoredKids(s, pools.children);
    RereadRoot(s, pools);
    assert KidsShaped(s, pools.children);
    if KeysApart(s, Pruned(s, pools)) {
      UniqueFresh(pools.rows, indices, {});
      assert KidsApart(s, PrunedKids(s, pools.children, pools.rows));
      ApartIsKept(s, pools.children, pools.rows);
      KeptRootRows(s, pools, a, b);
    }
    if Materialize(s, Reread(s, [Materialize(s, pools)])) == Materialize(s, StoredPools(s, pools)) {
      GraphsDiffer(MaterializeRows(s, a, StoredRows(s.fields, unique)), MaterializeRows(s, b, StoredRows(s.fields, pools.rows)));
      UniqueShorter(pools.rows, indices, {});
      UniqueFresh(pools.rows, indices, {});
      RootRowsKept(s, pools, a, b);
      KeptIsApart(s, pools.children, pools.rows);
    }
  }

  lemma KeptRootRows(s: Schema, pools: Pools, a: seq<Pools>, b: seq<Pools>)
    requires forall row | row in pools.rows :: MaterializeRow(s, a, Stored(s.fields, row)) == MaterializeRow(s, b, Stored(s.fields, row))
    ensures MaterializeRows(s, a, StoredRows(s.fields, pools.rows)) == MaterializeRows(s, b, StoredRows(s.fields, pools.rows))
  {
  }

  lemma RootRowsKept(s: Schema, pools: Pools, a: seq<Pools>, b: seq<Pools>)
    requires MaterializeRows(s, a, StoredRows(s.fields, pools.rows)) == MaterializeRows(s, b, StoredRows(s.fields, pools.rows))
    ensures forall row | row in pools.rows :: MaterializeRow(s, a, Stored(s.fields, row)) == MaterializeRow(s, b, Stored(s.fields, row))
  {
    forall row | row in pools.rows ensures MaterializeRow(s, a, Stored(s.fields, row)) == MaterializeRow(s, b, Stored(s.fields, row)) {
      SameRowsAt(s, a, b, pools.rows, row);
    }
  }

  // ---------------------------------------------------------------- two rows with one key

  /** Two current rows that differ in a plain column and agree in the key column: the second one is
      dropped, and the tree does not come back. */
  lemma {:induction false} SecondRowIsDropped()
    ensures var fields := [Field("id", 3, false, true, None), Field("name", 3, true, false, None)];
            var first, second := Keep([Integer(1), Integer(2)]), Keep([Integer(1), Integer(3)]);
            var s, pools := Schema(0, fields, []), Pools([first, second], []);
            && ShapeValid(fields, Materialize(s, pools))
            && ChapterRowChanges([Materialize(s, pools)], fields) == [first]
            && Materialize(s, Reread(s, [Materialize(s, pools)])) != Materialize(s, StoredPools(s, pools))
  {
    var fields := [Field("id", 3, false, true, None), Field("name", 3, true, false, None)];
    var first, second := Keep([Integer(1), Integer(2)]), Keep([Integer(1), Integer(3)]);
    OneKeyColumn(fields);
    assert KeyCells(first.values, [0]) == [Integer(1)] == KeyCells(second.values, [0]);
    OneKeyTwice(fields, first, second);
  }

  lemma {:induction false} OneKeyColumn(fields: seq<Field>)
    requires |fields| == 2 && !fields[0].IsChapter() && fields[0].keyColumn && !fields[1].keyColumn
    ensures KeyIndices(fields) == [0]
  {
    assert IndicesWhere(fields, 1, true) == [0];
    assert IndicesWhere(fields, 2, true) == [0];
  }

  lemma {:induction false} OneKeyTwice(fields: seq<Field>, first: RowImage, second: RowImage)
    requires |fields| == 2 && KeyIndices(fields) == [0] && first.Keep? && second.Keep?
    requires CellsValid(fields, RowState.Current, first.values) && CellsValid(fields, RowState.Current, second.values)
    requires forall i | 0 <= i < 2 :: !fields[i].IsChapter()
    requires first.values[0] == second.values[0] && KeyOf(first, [0]) == KeyOf(second, [0])
    ensures var s, pools := Schema(0, fields, []), Pools([first, second], []);
            && ShapeValid(fields, Materialize(s, pools))
            && ChapterRowChanges([Materialize(s, pools)], fields) == [first]
            && Materialize(s, Reread(s, [Materialize(s, pools)])) != Materialize(s, StoredPools(s, pools))
  {
    var s, pools := Schema(0, fields, []), Pools([first, second], []);
    var rows := [first, second];
    PlainRow(s, first);
    PlainRow(s, second);
    assert MaterializeRows(s, [], rows) == rows;
    TwoRowShape(fields, first, second);
    GraphRoundTrip(rows);
    GraphCandidates(rows, [0]);
    OneRecordset(ToGraph(rows), [0]);
    SecondIsKnown(first, second, [0]);
    ClashingPools(s, first, second);
    TreeKeptIffKeysApart(s, pools);
  }

  lemma {:induction false} ClashingPools(s: Schema, first: RowImage, second: RowImage)
    requires |s.fields| == 2 && !s.fields[0].IsChapter() && !s.fields[1].IsChapter() && s.children == []
    requires RawRow(s.fields, first) && RawRow(s.fields, second)
    requires KeyOf(first, KeyIndices(s.fields)) == KeyOf(second, KeyIndices(s.fields))
    ensures SchemaValid(s) && PoolsShaped(s, Pools([first, second], [])) && !KeysApart(s, Pruned(s, Pools([first, second], [])))
  {
    var rows, indices := [first, second], KeyIndices(s.fields);
    assert ChildIndex(s.fields, 1) == 0;
    assert ChildIndex(s.fields, 2) == 0;
    assert rows[1..] == [second];
    assert second in [second] && KeyOf(second, indices) in Keys([second], indices);
  }

  lemma {:induction false} TwoRowShape(fields: seq<Field>, first: RowImage, second: RowImage)
    requires first.Keep? && second.Keep?
    requires CellsValid(fields, RowState.Current, first.values) && CellsValid(fields, RowState.Current, second.values)
    ensures ShapeValid(fields, ToGraph([first, second]))
  {
    var rows := [first, second];
    assert rows[..1] == [first] && [first][..0] == [];
    assert ToGraph([first]) == Push(EmptyRecordset, first);
    assert ToGraph(rows) == Push(ToGraph([first]), second);
    GraphRoundTrip(rows);
  }

  lemma {:induction false} PlainRow(s: Schema, row: RowImage)
    requires row.Keep? && |row.values| == |s.fields| && forall i | 0 <= i < |s.fields| :: !s.fields[i].IsChapter()
    ensures MaterializeRow(s, [], row) == row
  {
    assert Fill(s, [], row.values, row.Effective()) == row.values;
  }

  lemma SecondIsKnown(first: RowImage, second: RowImage, indices: seq<nat>)
    requires KeyOf(first, indices) == KeyOf(second, indices)
    ensures Unique([first, second], indices, {}) == [first]
  {
    assert [first, second][1..] == [second] && [second][1..] == [];
    UniqueStep([first, second], indices, {});
    UniqueStep([second], indices, {} + {KeyOf(first, indices)});
  }
}
