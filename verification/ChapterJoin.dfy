/** Flattening a shaped Recordset into pools, dropping repeats, and joining the pools again
    gives back the same tree, at every depth. */
module ChapterJoin {
  import opened Prelude
  import opened RecordsetModel
  import opened RowCodec
  import opened ChapterTree

  // ---------------------------------------------------------------- well-formed pools

  /** A row as the chapter reader delivers it. */
  predicate RawRow(fields: seq<Field>, row: RowImage) {
    && CellsValid(fields, row.State(), row.values)
    && (row.Edit? ==>
          && |row.updated| == |fields|
          && forall i | 0 <= i < |fields| :: !fields[i].IsChapter() ==> !row.updated[i].Chapter?)
  }

  function Keys(rows: seq<RowImage>, indices: seq<nat>): set<ChangeKey> {
    set r | r in rows :: KeyOf(r, indices)
  }

  predicate KeysDistinct(rows: seq<RowImage>, indices: seq<nat>) {
    rows == [] || (KeyOf(rows[0], indices) !in Keys(rows[1..], indices) && KeysDistinct(rows[1..], indices))
  }

  predicate RawRows(fields: seq<Field>, rows: seq<RowImage>) {
    forall k | 0 <= k < |rows| :: RawRow(fields, rows[k])
  }

  /** Rows that fit the columns, and one pool per child schema, in the whole tree. */
  predicate PoolsShaped(s: Schema, pools: Pools)
    decreases s
  {
    && RawRows(s.fields, pools.rows)
    && |pools.children| == |s.children|
    && forall i | 0 <= i < |s.children| :: PoolsShaped(s.children[i].schema, pools.children[i])
  }

  predicate KidsShaped(s: Schema, kids: seq<Pools>) {
    |kids| == |s.children| && forall i | 0 <= i < |kids| :: PoolsShaped(s.children[i].schema, kids[i])
  }

  /** No two changes of one pool have the same key, in the whole tree. */
  predicate KeysApart(s: Schema, pools: Pools)
    decreases s
  {
    && KeysDistinct(pools.rows, KeyIndices(s.fields))
    && |pools.children| == |s.children|
    && forall i | 0 <= i < |s.children| :: KeysApart(s.children[i].schema, pools.children[i])
  }

  predicate KidsApart(s: Schema, kids: seq<Pools>) {
    |kids| == |s.children| && forall i | 0 <= i < |kids| :: KeysApart(s.children[i].schema, kids[i])
  }

  predicate PoolsReady(s: Schema, pools: Pools) {
    PoolsShaped(s, pools) && KeysApart(s, pools)
  }

  predicate KidsReady(s: Schema, kids: seq<Pools>) {
    KidsShaped(s, kids) && KidsApart(s, kids)
  }

  // ---------------------------------------------------------------- deduplication

  function Candidates(rows: seq<RowImage>, indices: seq<nat>): (r: seq<Candidate>)
    ensures |r| == |rows|
  {
    seq(|rows|, k requires 0 <= k < |rows| => Candidate(KeyOf(rows[k], indices), rows[k]))
  }

  /** Deduplication of single-row changes. */
  function Unique(rows: seq<RowImage>, indices: seq<nat>, seen: set<ChangeKey>): seq<RowImage> {
    Dedup(Candidates(rows, indices), seen)
  }

  lemma UniqueStep(rows: seq<RowImage>, indices: seq<nat>, seen: set<ChangeKey>)
    requires rows != []
    ensures Unique(rows, indices, seen)
            == (if KeyOf(rows[0], indices) in seen then [] else [rows[0]]) + Unique(rows[1..], indices, seen + {KeyOf(rows[0], indices)})
  {
    assert Candidates(rows, indices)[1..] == Candidates(rows[1..], indices);
  }

  lemma {:induction false} UniqueAppend(a: seq<RowImage>, b: seq<RowImage>, indices: seq<nat>, seen: set<ChangeKey>)
    ensures Unique(a + b, indices, seen) == Unique(a, indices, seen) + Unique(b, indices, seen + Keys(a, indices))
  {
    if a == [] {
      assert a + b == b;
      assert seen + Keys(a, indices) == seen;
    } else {
      var key := KeyOf(a[0], indices);
      assert (a + b)[1..] == a[1..] + b;
      UniqueStep(a + b, indices, seen);
      UniqueStep(a, indices, seen);
      UniqueAppend(a[1..], b, indices, seen + {key});
      SeenWithFirst(a, indices, seen);
      assert (a + b)[0] == a[0];
      Regrouped(if key in seen then [] else [a[0]], Unique(a[1..], indices, seen + {key}), Unique(b, indices, seen + Keys(a, indices)));
    }
  }

  lemma SeenWithFirst(rows: seq<RowImage>, indices: seq<nat>, seen: set<ChangeKey>)
    requires rows != []
    ensures seen + {KeyOf(rows[0], indices)} + Keys(rows[1..], indices) == seen + Keys(rows, indices)
  {
    assert rows == [rows[0]] + rows[1..];
  }

  lemma {:induction false} UniqueFresh(rows: seq<RowImage>, indices: seq<nat>, seen: set<ChangeKey>)
    requires KeysDistinct(rows, indices) && Keys(rows, indices) !! seen
    ensures Unique(rows, indices, seen) == rows
  {
    if rows != [] {
      UniqueStep(rows, indices, seen);
      assert KeyOf(rows[0], indices) in Keys(rows, indices);
      assert Keys(rows[1..], indices) <= Keys(rows, indices);
      UniqueFresh(rows[1..], indices, seen + {KeyOf(rows[0], indices)});
    }
  }

  lemma {:induction false} UniqueKnown(rows: seq<RowImage>, indices: seq<nat>, seen: set<ChangeKey>)
    requires Keys(rows, indices) <= seen
    ensures Unique(rows, indices, seen) == []
  {
    if rows != [] {
      UniqueStep(rows, indices, seen);
      assert KeyOf(rows[0], indices) in Keys(rows, indices);
      assert Keys(rows[1..], indices) <= Keys(rows, indices);
      UniqueKnown(rows[1..], indices, seen + {KeyOf(rows[0], indices)});
    }
  }

  lemma {:induction false} UniqueMembers(rows: seq<RowImage>, indices: seq<nat>, seen: set<ChangeKey>)
    ensures forall r | r in Unique(rows, indices, seen) :: r in rows
  {
    if rows != [] {
      UniqueStep(rows, indices, seen);
      UniqueMembers(rows[1..], indices, seen + {KeyOf(rows[0], indices)});
    }
  }

  lemma {:induction false} UniqueShorter(rows: seq<RowImage>, indices: seq<nat>, seen: set<ChangeKey>)
    ensures |Unique(rows, indices, seen)| <= |rows|
    ensures |Unique(rows, indices, seen)| == |rows| ==> KeysDistinct(rows, indices) && Keys(rows, indices) !! seen
  {
    if rows != [] {
      var key := KeyOf(rows[0], indices);
      UniqueStep(rows, indices, seen);
      UniqueShorter(rows[1..], indices, seen + {key});
      assert Keys(rows, indices) == {key} + Keys(rows[1..], indices) by {
        assert rows == [rows[0]] + rows[1..];
      }
    }
  }

  /** The writer keeps a pool whole exactly when its change keys are distinct. */
  lemma PoolKeptIffKeysDistinct(rows: seq<RowImage>, indices: seq<nat>)
    ensures Unique(rows, indices, {}) == rows <==> KeysDistinct(rows, indices)
  {
    UniqueShorter(rows, indices, {});
    if KeysDistinct(rows, indices) {
      UniqueFresh(rows, indices, {});
    }
  }

  // ---------------------------------------------------------------- the join

  lemma MatchingFirst(relation: seq<RelationPair>, key: seq<Value>, row: RowImage, rest: seq<RowImage>)
    ensures Matching(relation, key, [row] + rest)
            == if Matches(relation, key, row.Effective()) then [row] + Matching(relation, key, rest) else Matching(relation, key, rest)
  {
    assert ([row] + rest)[1..] == rest;
  }

  lemma {:induction false} MatchingAppend(relation: seq<RelationPair>, key: seq<Value>, a: seq<RowImage>, b: seq<RowImage>)
    ensures Matching(relation, key, a + b) == Matching(relation, key, a) + Matching(relation, key, b)
  {
    if a == [] {
      assert a + b == b;
    } else {
      assert a == [a[0]] + a[1..] && a + b == [a[0]] + (a[1..] + b);
      MatchingFirst(relation, key, a[0], a[1..]);
      MatchingFirst(relation, key, a[0], a[1..] + b);
      MatchingAppend(relation, key, a[1..], b);
      Regrouped([a[0]], Matching(relation, key, a[1..]), Matching(relation, key, b));
    }
  }

  lemma {:induction false} MatchingAll(relation: seq<RelationPair>, key: seq<Value>, rows: seq<RowImage>)
    requires forall r | r in rows :: Matches(relation, key, r.Effective())
    ensures Matching(relation, key, rows) == rows
  {
    if rows != [] {
      MatchingAll(relation, key, rows[1..]);
    }
  }

  lemma {:induction false} MatchingNone(relation: seq<RelationPair>, key: seq<Value>, rows: seq<RowImage>)
    requires forall r | r in rows :: !Matches(relation, key, r.Effective())
    ensures Matching(relation, key, rows) == []
  {
    if rows != [] {
      MatchingNone(relation, key, rows[1..]);
    }
  }

  lemma KeysOfSome(some: seq<RowImage>, all: seq<RowImage>, indices: seq<nat>)
    requires forall r | r in some :: r in all
    ensures Keys(some, indices) <= Keys(all, indices)
  {
  }

  lemma {:induction false} MatchingDistinct(relation: seq<RelationPair>, key: seq<Value>, rows: seq<RowImage>, indices: seq<nat>)
    requires KeysDistinct(rows, indices)
    ensures KeysDistinct(Matching(relation, key, rows), indices)
  {
    if rows != [] {
      MatchingDistinct(relation, key, rows[1..], indices);
      var rest := Matching(relation, key, rows[1..]);
      MatchingMembers(relation, key, rows[1..]);
      KeysOfSome(rest, rows[1..], indices);
      if Matches(relation, key, rows[0].Effective()) {
        assert Matching(relation, key, rows) == [rows[0]] + rest;
        assert ([rows[0]] + rest)[1..] == rest;
      } else {
        assert Matching(relation, key, rows) == rest;
      }
    }
  }

  /** Two parents with a common child have the same children. */
  lemma MatchingSame(relation: seq<RelationPair>, a: seq<Value>, b: seq<Value>, rows: seq<RowImage>, shared: RowImage)
    requires Matches(relation, a, shared.Effective()) && Matches(relation, b, shared.Effective())
    ensures Matching(relation, a, rows) == Matching(relation, b, rows)
  {
    forall child: seq<Value> ensures Matches(relation, a, child) <==> Matches(relation, b, child) {
      forall i | 0 <= i < |relation| ensures PairMatches(relation[i], a, child) <==> PairMatches(relation[i], b, child) {
        assert PairMatches(relation[i], a, shared.Effective()) && PairMatches(relation[i], b, shared.Effective());
      }
    }
    MatchingExtensional(relation, a, b, rows);
  }

  lemma {:induction false} MatchingExtensional(relation: seq<RelationPair>, a: seq<Value>, b: seq<Value>, rows: seq<RowImage>)
    requires forall child: seq<Value> :: Matches(relation, a, child) <==> Matches(relation, b, child)
    ensures Matching(relation, a, rows) == Matching(relation, b, rows)
  {
    if rows != [] {
      MatchingExtensional(relation, a, b, rows[1..]);
    }
  }

  /** The children of all parents one after the other. */
  function Occurrences(relation: seq<RelationPair>, keys: seq<seq<Value>>, rows: seq<RowImage>): seq<RowImage> {
    if keys == [] then [] else Matching(relation, keys[0], rows) + Occurrences(relation, keys[1..], rows)
  }

  lemma {:induction false} KeyIdentifies(rows: seq<RowImage>, indices: seq<nat>, a: RowImage, b: RowImage)
    requires KeysDistinct(rows, indices) && a in rows && b in rows && KeyOf(a, indices) == KeyOf(b, indices)
    ensures a == b
  {
    if a != rows[0] && b != rows[0] {
      KeyIdentifies(rows[1..], indices, a, b);
    }
  }

  /** Collecting the children of all parents and dropping repeats loses none of one parent's
      children and keeps their order. */
  lemma {:induction false} RejoinBlock(relation: seq<RelationPair>, keys: seq<seq<Value>>, key: seq<Value>,
                                       rows: seq<RowImage>, indices: seq<nat>, seen: set<ChangeKey>)
    requires KeysDistinct(rows, indices)
    requires var block := Keys(Matching(relation, key, rows), indices); block <= seen || (block !! seen && key in keys)
    ensures Matching(relation, key, Unique(Occurrences(relation, keys, rows), indices, seen))
            == if Keys(Matching(relation, key, rows), indices) <= seen then [] else Matching(relation, key, rows)
    decreases |keys|
  {
    var block := Matching(relation, key, rows);
    if keys == [] {
    } else {
      var first, rest := Matching(relation, keys[0], rows), Occurrences(relation, keys[1..], rows);
      MatchingMembers(relation, keys[0], rows);
      MatchingMembers(relation, key, rows);
      UniqueAppend(first, rest, indices, seen);
      MatchingAppend(relation, key, Unique(first, indices, seen), Unique(rest, indices, seen + Keys(first, indices)));
      if shared :| shared in first && Matches(relation, key, shared.Effective()) {
        MatchingSame(relation, keys[0], key, rows, shared);
        MatchingDistinct(relation, key, rows, indices);
        if Keys(block, indices) <= seen {
          UniqueKnown(first, indices, seen);
        } else {
          UniqueFresh(first, indices, seen);
          MatchingAll(relation, key, block);
        }
        RejoinBlock(relation, keys[1..], key, rows, indices, seen + Keys(first, indices));
      } else {
        NoneOfOthers(relation, keys[0], key, rows, indices, seen);
        RejoinBlock(relation, keys[1..], key, rows, indices, seen + Keys(first, indices));
      }
    }
  }

  /** The children of a parent that shares none with this one leave this one's alone. */
  lemma NoneOfOthers(relation: seq<RelationPair>, other: seq<Value>, key: seq<Value>, rows: seq<RowImage>, indices: seq<nat>, seen: set<ChangeKey>)
    requires KeysDistinct(rows, indices)
    requires forall r | r in Matching(relation, other, rows) :: !Matches(relation, key, r.Effective())
    ensures Matching(relation, key, Unique(Matching(relation, other, rows), indices, seen)) == []
    ensures Keys(Matching(relation, other, rows), indices) !! Keys(Matching(relation, key, rows), indices)
    ensures other == key ==> Matching(relation, key, rows) == []
  {
    var first := Matching(relation, other, rows);
    MatchingMembers(relation, other, rows);
    if other == key {
      MatchingNoneAmong(relation, key, rows);
    }
    UniqueMembers(first, indices, seen);
    MatchingNone(relation, key, Unique(first, indices, seen));
    ForeignKeys(relation, other, key, rows, indices);
  }

  lemma MatchingNoneAmong(relation: seq<RelationPair>, key: seq<Value>, rows: seq<RowImage>)
    requires forall r | r in Matching(relation, key, rows) :: !Matches(relation, key, r.Effective())
    ensures Matching(relation, key, rows) == []
  {
    MatchingMembers(relation, key, rows);
    MatchingNone(relation, key, rows);
  }

  lemma ForeignKeys(relation: seq<RelationPair>, a: seq<Value>, b: seq<Value>, rows: seq<RowImage>, indices: seq<nat>)
    requires KeysDistinct(rows, indices)
    requires forall r | r in Matching(relation, a, rows) :: !Matches(relation, b, r.Effective())
    ensures Keys(Matching(relation, a, rows), indices) !! Keys(Matching(relation, b, rows), indices)
  {
    MatchingMembers(relation, a, rows);
    MatchingMembers(relation, b, rows);
    forall x, y | x in Matching(relation, a, rows) && y in Matching(relation, b, rows) ensures KeyOf(x, indices) != KeyOf(y, indices) {
      if KeyOf(x, indices) == KeyOf(y, indices) {
        KeyIdentifies(rows, indices, x, y);
      }
    }
  }

  lemma RejoinChildren(relation: seq<RelationPair>, keys: seq<seq<Value>>, key: seq<Value>, rows: seq<RowImage>, indices: seq<nat>)
    requires KeysDistinct(rows, indices) && key in keys
    ensures Matching(relation, key, Unique(Occurrences(relation, keys, rows), indices, {})) == Matching(relation, key, rows)
  {
    RejoinBlock(relation, keys, key, rows, indices, {});
    var block := Matching(relation, key, rows);
    if block != [] {
      assert KeyOf(block[0], indices) in Keys(block, indices);
    }
  }

  // ---------------------------------------------------------------- graphs of single rows

  predicate SingleGroups(rs: Recordset) {
    forall c | 0 <= c < |rs.changes| :: |rs.changes[c].rowIndices| == if rs.changes[c].kind == Update then 2 else 1
  }

  lemma {:induction false} GraphIsSingle(images: seq<RowImage>)
    ensures SingleGroups(ToGraph(images))
  {
    if images != [] {
      GraphIsSingle(images[..|images| - 1]);
    }
  }

  lemma SingleCandidate(rs: Recordset, change: RowChange, indices: seq<nat>)
    requires |change.rowIndices| == if change.kind == Update then 2 else 1
    ensures |ChangeImages(rs, change)| == 1
    ensures var image := ChangeImages(rs, change)[0]; GroupCandidate(rs, change, indices) == [Candidate(KeyOf(image, indices), image)]
  {
    var rows, image := change.rowIndices, ChangeImages(rs, change)[0];
    var first := KeyCells(ValuesAt(rs, rows[0]), indices);
    assert first + [] == first;
    if |rows| == 2 {
      var second := KeyCells(ValuesAt(rs, rows[1]), indices);
      assert rows[1..][1..] == [] && second + [] == second;
      assert GroupCells(rs, rows[1..], indices) == second;
    } else {
      assert rows[1..] == [];
      assert image.Kind() == change.kind && image.values == ValuesAt(rs, rows[0]);
      assert GroupCells(rs, rows, indices) == first;
    }
  }

  lemma {:induction false} SingleCandidates(rs: Recordset, from: nat, indices: seq<nat>)
    requires SingleGroups(rs) && from <= |rs.changes|
    ensures CandidatesFrom(rs, rs.changes[from..], indices) == Candidates(ImagesFrom(rs, rs.changes[from..]), indices)
    decreases |rs.changes| - from
  {
    if from < |rs.changes| {
      var change := rs.changes[from];
      SingleCandidates(rs, from + 1, indices);
      assert rs.changes[from..][1..] == rs.changes[from + 1..];
      SingleCandidate(rs, change, indices);
      assert ImagesFrom(rs, rs.changes[from..]) == [ChangeImages(rs, change)[0]] + ImagesFrom(rs, rs.changes[from + 1..]);
    }
  }

  lemma GraphCandidates(images: seq<RowImage>, indices: seq<nat>)
    ensures CandidatesFrom(ToGraph(images), ToGraph(images).changes, indices) == Candidates(images, indices)
  {
    GraphIsSingle(images);
    GraphRoundTrip(images);
    SingleCandidates(ToGraph(images), 0, indices);
    assert ToGraph(images).changes[0..] == ToGraph(images).changes;
  }

  function CandidateImages(candidates: seq<Candidate>): (r: seq<RowImage>)
    ensures |r| == |candidates|
  {
    seq(|candidates|, k requires 0 <= k < |candidates| => candidates[k].image)
  }

  lemma {:induction false} WrittenCount(rs: Recordset, from: nat, indices: seq<nat>)
    requires GraphValid(rs) && from <= |rs.changes|
    ensures |CandidatesFrom(rs, rs.changes[from..], indices)| == |rs.changes| - from
    ensures |ImagesFrom(rs, rs.changes[from..])| >= |rs.changes| - from
    ensures |ImagesFrom(rs, rs.changes[from..])| == |rs.changes| - from
            <==> forall c | from <= c < |rs.changes| :: |rs.changes[c].rowIndices| == if rs.changes[c].kind == Update then 2 else 1
    decreases |rs.changes| - from
  {
    if from < |rs.changes| {
      assert ChangeLinked(rs, from);
      assert |StatesOf(rs, rs.changes[from].rowIndices)| == |rs.changes[from].rowIndices|;
      WrittenCount(rs, from + 1, indices);
      assert rs.changes[from..][1..] == rs.changes[from + 1..];
    }
  }

  /** The chapter writer emits one row per change group, so it keeps every row of a validated
      Recordset if and only if no group holds several rows. */
  lemma GroupsKeptIffSingle(rs: Recordset, indices: seq<nat>)
    requires GraphValid(rs)
    ensures CandidateImages(CandidatesFrom(rs, rs.changes, indices)) == Images(rs) <==> SingleGroups(rs)
  {
    assert rs.changes[0..] == rs.changes;
    WrittenCount(rs, 0, indices);
    if SingleGroups(rs) {
      SingleCandidates(rs, 0, indices);
      assert CandidateImages(Candidates(Images(rs), indices)) == Images(rs);
    }
  }

  /** An insert group of two rows, which the XML parser produces, loses its second row. */
  lemma GroupedInsertLosesRow(a: seq<Value>, b: seq<Value>, indices: seq<nat>)
    ensures var rs := Recordset([Row(0, Inserted, [New], Some(0), a), Row(1, Inserted, [New], Some(0), b)], [RowChange(Insert, [0, 1])]);
            && GraphValid(rs)
            && Images(rs) == [Add(a), Add(b)]
            && CandidateImages(CandidatesFrom(rs, rs.changes, indices)) == [Add(a)]
  {
    var rs := Recordset([Row(0, Inserted, [New], Some(0), a), Row(1, Inserted, [New], Some(0), b)], [RowChange(Insert, [0, 1])]);
    assert RowLinked(rs, 0) && RowLinked(rs, 1) && ChangeLinked(rs, 0);
    assert rs.changes[1..] == [];
    assert ChangeImages(rs, rs.changes[0]) == [Add(a), Add(b)];
    assert ImagesFrom(rs, rs.changes) == [Add(a), Add(b)] + ImagesFrom(rs, []);
  }

  // ---------------------------------------------------------------- collecting a materialized level

  lemma MaterializedCells(s: Schema, kids: seq<Pools>, row: RowImage)
    ensures var built := MaterializeRow(s, kids, row);
            && built.Kind() == row.Kind()
            && built.values == Fill(s, kids, row.values, row.Effective())
            && (row.Edit? ==> built.updated == FillPending(s, kids, row.updated, row.Effective()))
  {
  }

  lemma FilledChapter(s: Schema, kids: seq<Pools>, values: seq<Value>, key: seq<Value>, i: nat)
    requires SchemaValid(s) && i < |s.children| && |values| == |s.fields|
    ensures var f := s.children[i].fieldIndex;
            && Fill(s, kids, values, key)[f] == Chapter(Joined(s, kids, i, key))
            && (values[f] != Unavailable ==> FillPending(s, kids, values, key)[f] == Chapter(Joined(s, kids, i, key)))
            && (values[f] == Unavailable ==> FillPending(s, kids, values, key)[f] == Unavailable)
  {
  }

  /** The nested Recordsets built for a list of parent keys. */
  function Joins(s: Schema, kids: seq<Pools>, i: nat, keys: seq<seq<Value>>): seq<Recordset> {
    if keys == [] then [] else [Joined(s, kids, i, keys[0])] + Joins(s, kids, i, keys[1..])
  }

  function RowKeys(row: RowImage, field: nat): seq<seq<Value>> {
    [row.Effective()] + if row.Edit? && field < |row.updated| && row.updated[field] != Unavailable then [row.Effective()] else []
  }

  function ParentKeys(rows: seq<RowImage>, field: nat): (r: seq<seq<Value>>)
    ensures forall x | x in rows :: x.Effective() in r
  {
    if rows == [] then [] else RowKeys(rows[0], field) + ParentKeys(rows[1..], field)
  }

  lemma {:induction false} JoinsAppend(s: Schema, kids: seq<Pools>, i: nat, a: seq<seq<Value>>, b: seq<seq<Value>>)
    ensures Joins(s, kids, i, a + b) == Joins(s, kids, i, a) + Joins(s, kids, i, b)
  {
    if a == [] {
      assert a + b == b;
    } else {
      assert (a + b)[1..] == a[1..] + b;
      JoinsAppend(s, kids, i, a[1..], b);
    }
  }

  lemma RowChaptersOfMaterialized(s: Schema, kids: seq<Pools>, row: RowImage, i: nat)
    requires SchemaValid(s) && i < |s.children| && RawRow(s.fields, row)
    ensures RowChapters(MaterializeRow(s, kids, row), s.children[i].fieldIndex) == Joins(s, kids, i, RowKeys(row, s.children[i].fieldIndex))
  {
    var f, key := s.children[i].fieldIndex, row.Effective();
    MaterializedCells(s, kids, row);
    FilledChapter(s, kids, row.values, key, i);
    var one := [key];
    assert Joins(s, kids, i, one) == [Joined(s, kids, i, key)] + Joins(s, kids, i, one[1..]);
    if row.Edit? {
      FilledChapter(s, kids, row.updated, key, i);
      JoinsAppend(s, kids, i, one, one);
    }
  }

  lemma {:induction false} NestedOfMaterialized(s: Schema, kids: seq<Pools>, rows: seq<RowImage>, i: nat)
    requires SchemaValid(s) && i < |s.children| && RawRows(s.fields, rows)
    ensures Nested(MaterializeRows(s, kids, rows), s.children[i].fieldIndex)
            == Joins(s, kids, i, ParentKeys(rows, s.children[i].fieldIndex))
  {
    var f := s.children[i].fieldIndex;
    if rows != [] {
      assert RawRow(s.fields, rows[0]);
      NestedOfMaterialized(s, kids, rows[1..], i);
      assert MaterializeRows(s, kids, rows)[1..] == MaterializeRows(s, kids, rows[1..]);
      RowChaptersOfMaterialized(s, kids, rows[0], i);
      JoinsAppend(s, kids, i, RowKeys(rows[0], f), ParentKeys(rows[1..], f));
    }
  }

  lemma MaterializeAppend(s: Schema, kids: seq<Pools>, a: seq<RowImage>, b: seq<RowImage>)
    ensures MaterializeRows(s, kids, a + b) == MaterializeRows(s, kids, a) + MaterializeRows(s, kids, b)
  {
  }

  /** The materialized rows of one parent. */
  function Block(s: Schema, kids: seq<Pools>, i: nat, key: seq<Value>): seq<RowImage>
    requires i < |s.children| && i < |kids|
  {
    MaterializeRows(s.children[i].schema, kids[i].children, Matching(s.children[i].relation, key, kids[i].rows))
  }

  lemma ImagesOfJoined(s: Schema, kids: seq<Pools>, i: nat, key: seq<Value>, indices: seq<nat>)
    requires i < |s.children| && i < |kids|
    ensures var joined := Joined(s, kids, i, key);
            && Images(joined) == Block(s, kids, i, key)
            && CandidatesFrom(joined, joined.changes, indices) == Candidates(Block(s, kids, i, key), indices)
  {
    GraphRoundTrip(Block(s, kids, i, key));
    GraphCandidates(Block(s, kids, i, key), indices);
  }

  lemma CandidatesAppend(a: seq<RowImage>, b: seq<RowImage>, indices: seq<nat>)
    ensures Candidates(a + b, indices) == Candidates(a, indices) + Candidates(b, indices)
  {
  }

  lemma JoinsFirst(s: Schema, kids: seq<Pools>, i: nat, keys: seq<seq<Value>>, indices: seq<nat>)
    requires i < |s.children| && i < |kids| && keys != []
    ensures var joins, later := Joins(s, kids, i, keys), Joins(s, kids, i, keys[1..]);
            && AllImages(joins) == Block(s, kids, i, keys[0]) + AllImages(later)
            && AllCandidates(joins, indices) == Candidates(Block(s, kids, i, keys[0]), indices) + AllCandidates(later, indices)
  {
    ImagesOfJoined(s, kids, i, keys[0], indices);
    assert Joins(s, kids, i, keys)[1..] == Joins(s, kids, i, keys[1..]);
  }

  lemma {:induction false} ImagesOfJoins(s: Schema, kids: seq<Pools>, i: nat, keys: seq<seq<Value>>, indices: seq<nat>)
    requires i < |s.children| && i < |kids|
    ensures var built := MaterializeRows(s.children[i].schema, kids[i].children, Occurrences(s.children[i].relation, keys, kids[i].rows));
            && AllImages(Joins(s, kids, i, keys)) == built
            && AllCandidates(Joins(s, kids, i, keys), indices) == Candidates(built, indices)
  {
    if keys != [] {
      var child := s.children[i];
      var rest := Occurrences(child.relation, keys[1..], kids[i].rows);
      ImagesOfJoins(s, kids, i, keys[1..], indices);
      JoinsFirst(s, kids, i, keys, indices);
      MaterializeAppend(child.schema, kids[i].children, Matching(child.relation, keys[0], kids[i].rows), rest);
      CandidatesAppend(Block(s, kids, i, keys[0]), MaterializeRows(child.schema, kids[i].children, rest), indices);
    }
  }

  lemma KeyOfMaterialized(s: Schema, kids: seq<Pools>, row: RowImage, indices: seq<nat>)
    requires forall k | 0 <= k < |indices| :: indices[k] < |s.fields| && !s.fields[indices[k]].IsChapter()
    ensures KeyOf(MaterializeRow(s, kids, row), indices) == KeyOf(row, indices)
  {
    var built := MaterializeRow(s, kids, row);
    MaterializedCells(s, kids, row);
    assert KeyCells(built.values, indices) == KeyCells(row.values, indices);
    if row.Edit? {
      assert KeyCells(built.updated, indices) == KeyCells(row.updated, indices);
    }
  }

  lemma {:induction false} UniqueOfMaterialized(s: Schema, kids: seq<Pools>, rows: seq<RowImage>, indices: seq<nat>, seen: set<ChangeKey>)
    requires forall k | 0 <= k < |indices| :: indices[k] < |s.fields| && !s.fields[indices[k]].IsChapter()
    ensures Unique(MaterializeRows(s, kids, rows), indices, seen) == MaterializeRows(s, kids, Unique(rows, indices, seen))
  {
    if rows != [] {
      var built := MaterializeRows(s, kids, rows);
      KeyOfMaterialized(s, kids, rows[0], indices);
      UniqueStep(rows, indices, seen);
      UniqueStep(built, indices, seen);
      assert built[1..] == MaterializeRows(s, kids, rows[1..]);
      var seen' := seen + {KeyOf(rows[0], indices)};
      UniqueOfMaterialized(s, kids, rows[1..], indices, seen');
      var head := if KeyOf(rows[0], indices) in seen then [] else [rows[0]];
      MaterializeAppend(s, kids, head, Unique(rows[1..], indices, seen'));
    }
  }

  // ---------------------------------------------------------------- stored rows join alike

  lemma StoredOfMaterialized(s: Schema, kids: seq<Pools>, rows: seq<RowImage>)
    requires RawRows(s.fields, rows)
    ensures StoredRows(s.fields, MaterializeRows(s, kids, rows)) == StoredRows(s.fields, rows)
  {
    forall k | 0 <= k < |rows| ensures Stored(s.fields, MaterializeRow(s, kids, rows[k])) == Stored(s.fields, rows[k]) {
      assert RawRow(s.fields, rows[k]);
      var built, row := MaterializeRow(s, kids, rows[k]), rows[k];
      MaterializedCells(s, kids, row);
      assert Settled(s.fields, built.values) == Settled(s.fields, row.values);
      if row.Edit? {
        assert Delta(s.fields, built.values, built.updated) == Delta(s.fields, row.values, row.updated);
      }
    }
  }

  /** Storing a row changes none of its effective plain cells. */
  lemma StoredEffective(fields: seq<Field>, row: RowImage)
    requires RawRow(fields, row)
    ensures |Stored(fields, row).Effective()| == |row.Effective()| == |fields|
    ensures forall j | 0 <= j < |fields| && !fields[j].IsChapter() :: Stored(fields, row).Effective()[j] == row.Effective()[j]
  {
    var stored := Stored(fields, row);
    forall j | 0 <= j < |fields| && !fields[j].IsChapter() ensures stored.Effective()[j] == row.Effective()[j] {
      assert stored.values[j] == row.values[j];
    }
  }

  lemma StoredMatches(relation: seq<RelationPair>, parentFields: seq<Field>, childFields: seq<Field>, parent: RowImage, child: RowImage)
    requires RelationValid(relation, parentFields, childFields)
    requires RawRow(parentFields, parent) && RawRow(childFields, child)
    ensures Matches(relation, Stored(parentFields, parent).Effective(), Stored(childFields, child).Effective())
            <==> Matches(relation, parent.Effective(), child.Effective())
  {
    StoredEffective(parentFields, parent);
    StoredEffective(childFields, child);
    forall i | 0 <= i < |relation|
      ensures PairMatches(relation[i], Stored(parentFields, parent).Effective(), Stored(childFields, child).Effective())
              <==> PairMatches(relation[i], parent.Effective(), child.Effective())
    {
    }
  }

  lemma StoredAppend(fields: seq<Field>, a: seq<RowImage>, b: seq<RowImage>)
    ensures StoredRows(fields, a + b) == StoredRows(fields, a) + StoredRows(fields, b)
  {
  }

  function Select(rows: seq<RowImage>, chosen: seq<bool>): seq<RowImage>
    requires |rows| == |chosen|
  {
    if rows == [] then [] else (if chosen[0] then [rows[0]] else []) + Select(rows[1..], chosen[1..])
  }

  lemma {:induction false} MatchingSelects(relation: seq<RelationPair>, key: seq<Value>, rows: seq<RowImage>, chosen: seq<bool>)
    requires |rows| == |chosen| && forall k | 0 <= k < |rows| :: chosen[k] <==> Matches(relation, key, rows[k].Effective())
    ensures Matching(relation, key, rows) == Select(rows, chosen)
  {
    if rows != [] {
      assert chosen[0] <==> Matches(relation, key, rows[0].Effective());
      MatchingSelects(relation, key, rows[1..], chosen[1..]);
    }
  }

  lemma {:induction false} SelectStored(fields: seq<Field>, rows: seq<RowImage>, chosen: seq<bool>)
    requires |rows| == |chosen|
    ensures Select(StoredRows(fields, rows), chosen) == StoredRows(fields, Select(rows, chosen))
  {
    if rows != [] {
      SelectStored(fields, rows[1..], chosen[1..]);
      assert StoredRows(fields, rows)[1..] == StoredRows(fields, rows[1..]);
      StoredAppend(fields, if chosen[0] then [rows[0]] else [], Select(rows[1..], chosen[1..]));
    }
  }

  lemma StoredMatching(relation: seq<RelationPair>, parentFields: seq<Field>, childFields: seq<Field>, parent: RowImage, rows: seq<RowImage>)
    requires RelationValid(relation, parentFields, childFields)
    requires RawRow(parentFields, parent) && RawRows(childFields, rows)
    ensures Matching(relation, Stored(parentFields, parent).Effective(), StoredRows(childFields, rows))
            == StoredRows(childFields, Matching(relation, parent.Effective(), rows))
  {
    var chosen := seq(|rows|, k requires 0 <= k < |rows| => Matches(relation, parent.Effective(), rows[k].Effective()));
    forall k | 0 <= k < |rows|
      ensures chosen[k] <==> Matches(relation, Stored(parentFields, parent).Effective(), StoredRows(childFields, rows)[k].Effective())
    {
      assert RawRow(childFields, rows[k]);
      StoredMatches(relation, parentFields, childFields, parent, rows[k]);
    }
    MatchingSelects(relation, parent.Effective(), rows, chosen);
    MatchingSelects(relation, Stored(parentFields, parent).Effective(), StoredRows(childFields, rows), chosen);
    SelectStored(childFields, rows, chosen);
  }

  // ---------------------------------------------------------------- the theorem

  /** The pools as they come back from the bytes of a written tree. */
  function Reread(s: Schema, rss: seq<Recordset>): Pools {
    StoredPools(s, CollectPools(s, rss))
  }

  function RereadKids(s: Schema, images: seq<RowImage>): seq<Pools> {
    seq(|s.children|, i requires 0 <= i < |s.children| => Reread(s.children[i].schema, Nested(images, s.children[i].fieldIndex)))
  }

  function StoredKids(s: Schema, kids: seq<Pools>): seq<Pools> {
    seq(|s.children|, i requires 0 <= i < |s.children| =>
      if i < |kids| then StoredPools(s.children[i].schema, kids[i]) else Pools([], []))
  }

  lemma RereadChildren(s: Schema, rss: seq<Recordset>)
    ensures Reread(s, rss).children == RereadKids(s, AllImages(rss))
    ensures Reread(s, rss).rows == StoredRows(s.fields, ChapterRowChanges(rss, s.fields))
  {
  }

  lemma {:induction false} OccurrenceMembers(relation: seq<RelationPair>, keys: seq<seq<Value>>, rows: seq<RowImage>)
    ensures forall x | x in Occurrences(relation, keys, rows) :: x in rows
    ensures forall key, x | key in keys && x in Matching(relation, key, rows) :: x in Occurrences(relation, keys, rows)
  {
    if keys != [] {
      MatchingMembers(relation, keys[0], rows);
      OccurrenceMembers(relation, keys[1..], rows);
    }
  }

  /** All children of all rows, in the order the parents are visited. */
  function Occurring(s: Schema, kids: seq<Pools>, rows: seq<RowImage>, i: nat): seq<RowImage>
    requires i < |s.children| && i < |kids|
  {
    Occurrences(s.children[i].relation, ParentKeys(rows, s.children[i].fieldIndex), kids[i].rows)
  }

  lemma OccurringRaw(s: Schema, kids: seq<Pools>, rows: seq<RowImage>, i: nat)
    requires KidsShaped(s, kids) && i < |s.children|
    ensures RawRows(s.children[i].schema.fields, Occurring(s, kids, rows, i))
    ensures RawRows(s.children[i].schema.fields, kids[i].rows)
  {
    var fields := s.children[i].schema.fields;
    assert PoolsShaped(s.children[i].schema, kids[i]);
    OccurrenceMembers(s.children[i].relation, ParentKeys(rows, s.children[i].fieldIndex), kids[i].rows);
    forall x | x in Occurring(s, kids, rows, i) ensures RawRow(fields, x) {
      assert x in kids[i].rows;
    }
  }

  lemma UniqueRaw(fields: seq<Field>, rows: seq<RowImage>, indices: seq<nat>)
    requires RawRows(fields, rows)
    ensures RawRows(fields, Unique(rows, indices, {}))
  {
    UniqueMembers(rows, indices, {});
    forall x | x in Unique(rows, indices, {}) ensures RawRow(fields, x) {
      assert x in rows;
    }
  }

  /** What one child pool looks like after collecting and rereading it. */
  lemma RereadPool(s: Schema, kids: seq<Pools>, rows: seq<RowImage>, i: nat)
    requires SchemaValid(s) && KidsShaped(s, kids) && RawRows(s.fields, rows) && i < |s.children|
    ensures var schema, occurring := s.children[i].schema, Occurring(s, kids, rows, i);
            RereadKids(s, MaterializeRows(s, kids, rows))[i]
            == Pools(StoredRows(schema.fields, Unique(occurring, KeyIndices(schema.fields), {})),
                     RereadKids(schema, MaterializeRows(schema, kids[i].children, occurring)))
  {
    var schema, occurring := s.children[i].schema, Occurring(s, kids, rows, i);
    var indices, keys := KeyIndices(schema.fields), ParentKeys(rows, s.children[i].fieldIndex);
    var joins := Joins(s, kids, i, keys);
    NestedOfMaterialized(s, kids, rows, i);
    ImagesOfJoins(s, kids, i, keys, indices);
    RereadChildren(schema, joins);
    OccurringRaw(s, kids, rows, i);
    var built := MaterializeRows(schema, kids[i].children, occurring);
    assert ChapterRowChanges(joins, schema.fields) == Unique(built, indices, {});
    UniqueOfMaterialized(schema, kids[i].children, occurring, indices, {});
    UniqueRaw(schema.fields, occurring, indices);
    StoredOfMaterialized(schema, kids[i].children, Unique(occurring, indices, {}));
  }

  /** After rereading, a parent still finds exactly its own children, in pool order. */
  lemma RereadMatching(s: Schema, kids: seq<Pools>, rows: seq<RowImage>, row: RowImage, i: nat)
    requires SchemaValid(s) && KidsReady(s, kids) && RawRows(s.fields, rows) && row in rows && i < |s.children|
    ensures var relation, fields := s.children[i].relation, s.children[i].schema.fields;
            var key, block := Stored(s.fields, row).Effective(), Matching(relation, row.Effective(), kids[i].rows);
            && Matching(relation, key, StoredRows(fields, Unique(Occurring(s, kids, rows, i), KeyIndices(fields), {}))) == StoredRows(fields, block)
            && Matching(relation, key, StoredRows(fields, kids[i].rows)) == StoredRows(fields, block)
            && forall x | x in block :: x in Occurring(s, kids, rows, i)
  {
    var child, fields := s.children[i], s.children[i].schema.fields;
    var keys, indices := ParentKeys(rows, child.fieldIndex), KeyIndices(fields);
    var occurring := Occurring(s, kids, rows, i);
    OccurringRaw(s, kids, rows, i);
    UniqueRaw(fields, occurring, indices);
    assert RelationValid(child.relation, s.fields, fields);
    StoredMatching(child.relation, s.fields, fields, row, Unique(occurring, indices, {}));
    StoredMatching(child.relation, s.fields, fields, row, kids[i].rows);
    ChildReady(s, kids, i);
    RejoinChildren(child.relation, keys, row.Effective(), kids[i].rows, indices);
    OccurrenceMembers(child.relation, keys, kids[i].rows);
  }

  lemma {:induction false} RejoinChild(s: Schema, kids: seq<Pools>, rows: seq<RowImage>, row: RowImage, i: nat)
    requires SchemaValid(s) && KidsReady(s, kids) && RawRows(s.fields, rows) && row in rows && i < |s.children|
    ensures var key := Stored(s.fields, row).Effective();
            Joined(s, RereadKids(s, MaterializeRows(s, kids, rows)), i, key) == Joined(s, StoredKids(s, kids), i, key)
    decreases s, 0
  {
    var schema, relation := s.children[i].schema, s.children[i].relation;
    var fields := schema.fields;
    var occurring := Occurring(s, kids, rows, i);
    RereadPool(s, kids, rows, i);
    RereadMatching(s, kids, rows, row, i);
    OccurringRaw(s, kids, rows, i);
    var block := Matching(relation, row.Effective(), kids[i].rows);
    var reread, stored := RereadKids(schema, MaterializeRows(schema, kids[i].children, occurring)), StoredKids(schema, kids[i].children);
    ChildReady(s, kids, i);
    forall k | 0 <= k < |block|
      ensures MaterializeRow(schema, reread, Stored(fields, block[k])) == MaterializeRow(schema, stored, Stored(fields, block[k]))
    {
      assert block[k] in block;
      Rejoin(schema, kids[i].children, occurring, block[k]);
    }
    SameRows(schema, reread, stored, StoredRows(fields, block));
  }

  lemma ChildShaped(s: Schema, kids: seq<Pools>, i: nat)
    requires SchemaValid(s) && KidsShaped(s, kids) && i < |s.children|
    ensures SchemaValid(s.children[i].schema) && KidsShaped(s.children[i].schema, kids[i].children)
    ensures StoredKids(s, kids)[i] == Pools(StoredRows(s.children[i].schema.fields, kids[i].rows), StoredKids(s.children[i].schema, kids[i].children))
  {
    assert PoolsShaped(s.children[i].schema, kids[i]);
  }

  lemma ChildReady(s: Schema, kids: seq<Pools>, i: nat)
    requires SchemaValid(s) && KidsReady(s, kids) && i < |s.children|
    ensures SchemaValid(s.children[i].schema) && KidsReady(s.children[i].schema, kids[i].children)
    ensures KeysDistinct(kids[i].rows, KeyIndices(s.children[i].schema.fields))
    ensures StoredKids(s, kids)[i] == Pools(StoredRows(s.children[i].schema.fields, kids[i].rows), StoredKids(s.children[i].schema, kids[i].children))
  {
    ChildShaped(s, kids, i);
    assert KeysApart(s.children[i].schema, kids[i]);
  }

  lemma SameRows(s: Schema, a: seq<Pools>, b: seq<Pools>, rows: seq<RowImage>)
    requires forall k | 0 <= k < |rows| :: MaterializeRow(s, a, rows[k]) == MaterializeRow(s, b, rows[k])
    ensures MaterializeRows(s, a, rows) == MaterializeRows(s, b, rows)
  {
  }

  lemma SameJoinsSameRow(s: Schema, a: seq<Pools>, b: seq<Pools>, row: RowImage)
    requires forall i: nat :: Joined(s, a, i, row.Effective()) == Joined(s, b, i, row.Effective())
    ensures MaterializeRow(s, a, row) == MaterializeRow(s, b, row)
  {
    MaterializedCells(s, a, row);
    MaterializedCells(s, b, row);
    assert Fill(s, a, row.values, row.Effective()) == Fill(s, b, row.values, row.Effective());
    if row.Edit? {
      assert FillPending(s, a, row.updated, row.Effective()) == FillPending(s, b, row.updated, row.Effective());
    }
  }

  /** Every row that occurs anywhere in the tree gets back the same nested Recordsets. */
  lemma {:induction false} Rejoin(s: Schema, kids: seq<Pools>, rows: seq<RowImage>, row: RowImage)
    requires SchemaValid(s) && KidsReady(s, kids) && RawRows(s.fields, rows) && row in rows
    ensures var stored := Stored(s.fields, row);
            MaterializeRow(s, RereadKids(s, MaterializeRows(s, kids, rows)), stored) == MaterializeRow(s, StoredKids(s, kids), stored)
    decreases s, 1
  {
    var a, b := RereadKids(s, MaterializeRows(s, kids, rows)), StoredKids(s, kids);
    var stored := Stored(s.fields, row);
    var key := stored.Effective();
    forall i: nat ensures Joined(s, a, i, key) == Joined(s, b, i, key) {
      if i < |s.children| {
        RejoinChild(s, kids, rows, row, i);
      }
    }
    SameJoinsSameRow(s, a, b, stored);
  }

  lemma OneRecordset(rs: Recordset, indices: seq<nat>)
    ensures AllImages([rs]) == Images(rs)
    ensures AllCandidates([rs], indices) == CandidatesFrom(rs, rs.changes, indices)
  {
    assert [rs][1..] == [];
  }

  /** Flatten, deduplicate and re-join is the identity on trees built from stored pools, and
      on any other tree it yields the tree of the stored pools. */
  lemma FlattenRejoin(s: Schema, pools: Pools)
    requires SchemaValid(s) && PoolsReady(s, pools)
    ensures Materialize(s, Reread(s, [Materialize(s, pools)])) == Materialize(s, StoredPools(s, pools))
  {
    var built := MaterializeRows(s, pools.children, pools.rows);
    var indices := KeyIndices(s.fields);
    var rss := [ToGraph(built)];
    GraphRoundTrip(built);
    GraphCandidates(built, indices);
    OneRecordset(rss[0], indices);
    RereadChildren(s, rss);
    UniqueOfMaterialized(s, pools.children, pools.rows, indices, {});
    UniqueFresh(pools.rows, indices, {});
    StoredOfMaterialized(s, pools.children, pools.rows);
    var reread := RereadKids(s, built);
    assert Reread(s, rss) == Pools(StoredRows(s.fields, pools.rows), reread);
    forall k | 0 <= k < |pools.rows|
      ensures MaterializeRow(s, reread, Stored(s.fields, pools.rows[k])) == MaterializeRow(s, StoredKids(s, pools.children), Stored(s.fields, pools.rows[k]))
    {
      Rejoin(s, pools.children, pools.rows, pools.rows[k]);
    }
    assert StoredPools(s, pools).children == StoredKids(s, pools.children);
    assert MaterializeRows(s, reread, StoredRows(s.fields, pools.rows))
        == MaterializeRows(s, StoredKids(s, pools.children), StoredRows(s.fields, pools.rows));
  }
}
