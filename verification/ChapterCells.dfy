/** What the join and the deduplication of shaped Recordsets mean, in the cells and columns of the
    rows alone. */
module ChapterCells {
  import opened Prelude
  import opened RecordsetModel
  import opened ChapterTree
  import opened ChapterJoin

  /** Positions in a list of the given length, in order and without repeats. */
  predicate Ascending(at: seq<nat>, length: nat) {
    && (forall k | 0 <= k < |at| :: at[k] < length)
    && forall j, k | 0 <= j < k < |at| :: at[j] < at[k]
  }

  /** The elements of the list at these positions, in order. */
  predicate Picked<T(==)>(picked: seq<T>, rows: seq<T>, at: seq<nat>) {
    && Ascending(at, |rows|) && |picked| == |at|
    && forall k | 0 <= k < |at| :: picked[k] == rows[at[k]]
  }

  /** The same positions behind one more element. */
  function Shifted(at: seq<nat>): (r: seq<nat>)
    ensures |r| == |at|
    ensures forall k | 0 <= k < |r| :: r[k] == at[k] + 1
  {
    seq(|at|, k requires 0 <= k < |at| => at[k] + 1)
  }

  /** One more position in front, all others moved up by one. */
  function Behind(first: bool, at: seq<nat>): seq<nat> {
    if first then [0] + Shifted(at) else Shifted(at)
  }

  lemma BehindAscends(first: bool, at: seq<nat>, length: nat)
    requires Ascending(at, length)
    ensures Ascending(Behind(first, at), length + 1)
  {
    var moved := Shifted(at);
    assert Ascending(moved, length + 1);
    if first {
      ZeroInFront(moved, length + 1);
    }
  }

  lemma ZeroInFront(moved: seq<nat>, length: nat)
    requires length > 0 && Ascending(moved, length) && forall k | 0 <= k < |moved| :: moved[k] > 0
    ensures Ascending([0] + moved, length)
  {
  }

  lemma BehindHas(first: bool, at: seq<nat>, i: nat)
    ensures i in Behind(first, at) <==> if i == 0 then first else i - 1 in at
  {
    var moved := Shifted(at);
    if i > 0 && i - 1 in at {
      var k :| 0 <= k < |at| && at[k] == i - 1;
      assert moved[k] == i;
    }
  }

  /** Picking from a list, given what was picked behind its head. */
  lemma PickedBehind<T>(rows: seq<T>, first: bool, rest: seq<nat>, picked: seq<T>)
    requires rows != [] && Picked(picked, rows[1..], rest)
    ensures Picked((if first then [rows[0]] else []) + picked, rows, Behind(first, rest))
  {
    var all, at, moved := (if first then [rows[0]] else []) + picked, Behind(first, rest), Shifted(rest);
    BehindAscends(first, rest, |rows| - 1);
    forall k | 0 <= k < |rest| ensures picked[k] == rows[moved[k]] {
      assert picked[k] == rows[1..][rest[k]];
    }
    if first {
      forall k | 0 < k < |at| ensures at[k] == moved[k - 1] && all[k] == picked[k - 1] {
      }
    } else {
      assert all == picked;
    }
  }

  // ---------------------------------------------------------------- the join

  /** The cell a row of either side is joined by: its pending value if it has one. */
  function PendingCell(row: RowImage, j: nat): Value
    requires j < |row.values| && (row.Edit? ==> j < |row.updated|)
  {
    if row.Edit? && row.updated[j] != Unavailable then row.updated[j] else row.values[j]
  }

  /** Both cells hold something, and the same. */
  predicate Linked(pair: RelationPair, parent: RowImage, child: RowImage)
    requires 1 <= pair.parentOrdinal <= |parent.values| && (parent.Edit? ==> |parent.updated| == |parent.values|)
    requires 1 <= pair.childOrdinal <= |child.values| && (child.Edit? ==> |child.updated| == |child.values|)
  {
    var p, c := PendingCell(parent, pair.parentOrdinal - 1), PendingCell(child, pair.childOrdinal - 1);
    p != Null && p != Unavailable && c != Null && c != Unavailable && p == c
  }

  predicate AllLinked(relation: seq<RelationPair>, parentFields: seq<Field>, childFields: seq<Field>, parent: RowImage, child: RowImage)
    requires RelationValid(relation, parentFields, childFields)
    requires Arity(parentFields, parent) && Arity(childFields, child)
  {
    forall r | 0 <= r < |relation| :: Linked(relation[r], parent, child)
  }

  predicate AllArity(fields: seq<Field>, rows: seq<RowImage>) {
    forall k | 0 <= k < |rows| :: Arity(fields, rows[k])
  }

  lemma LinkedIsMatch(relation: seq<RelationPair>, parentFields: seq<Field>, childFields: seq<Field>, parent: RowImage, child: RowImage)
    requires RelationValid(relation, parentFields, childFields)
    requires Arity(parentFields, parent) && Arity(childFields, child)
    ensures Matches(relation, parent.Effective(), child.Effective()) <==> AllLinked(relation, parentFields, childFields, parent, child)
  {
    EffectiveCells(parentFields, parent);
    EffectiveCells(childFields, child);
    forall r | 0 <= r < |relation|
      ensures PairMatches(relation[r], parent.Effective(), child.Effective()) <==> Linked(relation[r], parent, child)
    {
    }
  }

  lemma EffectiveCells(fields: seq<Field>, row: RowImage)
    requires Arity(fields, row)
    ensures |row.Effective()| == |fields|
    ensures forall j | 0 <= j < |fields| :: row.Effective()[j] == PendingCell(row, j)
  {
  }

  /** A row of the pool is joined to a parent if and only if the cells of every pair of the relation
      hold the same present value; joined rows keep the order of the pool. */
  lemma {:induction false} JoinedRows(relation: seq<RelationPair>, parentFields: seq<Field>, childFields: seq<Field>,
                                      parent: RowImage, rows: seq<RowImage>) returns (at: seq<nat>)
    requires RelationValid(relation, parentFields, childFields)
    requires Arity(parentFields, parent) && AllArity(childFields, rows)
    ensures Picked(Matching(relation, parent.Effective(), rows), rows, at)
    ensures forall i | 0 <= i < |rows| :: i in at <==> AllLinked(relation, parentFields, childFields, parent, rows[i])
  {
    if rows == [] {
      at := [];
    } else {
      var rest := JoinedRows(relation, parentFields, childFields, parent, rows[1..]);
      var first := Matches(relation, parent.Effective(), rows[0].Effective());
      LinkedIsMatch(relation, parentFields, childFields, parent, rows[0]);
      at := Behind(first, rest);
      PickedBehind(rows, first, rest, Matching(relation, parent.Effective(), rows[1..]));
      forall i | 0 <= i < |rows|
        ensures i in at <==> AllLinked(relation, parentFields, childFields, parent, rows[i])
      {
        BehindHas(first, rest, i);
        if i > 0 {
          assert rows[1..][i - 1] == rows[i];
        }
      }
    }
  }

  /** The nested Recordset built for a row: its rows are exactly the pool's rows linked to it, each
      with its own nested Recordsets; the row's kind and plain cells stay as they were, and a pending
      chapter cell is either omitted still or holds the same Recordset. */
  lemma NestedRows(s: Schema, kids: seq<Pools>, parent: RowImage, i: nat) returns (nested: Recordset, at: seq<nat>)
    requires SchemaValid(s) && i < |s.children| && |kids| == |s.children|
    requires Arity(s.fields, parent) && AllArity(s.children[i].schema.fields, kids[i].rows)
    ensures var built, f := MaterializeRow(s, kids, parent), s.children[i].fieldIndex;
            && built.Kind() == parent.Kind() && Arity(s.fields, built)
            && built.values[f] == Chapter(nested)
            && (parent.Edit? ==> built.updated[f] == if parent.updated[f] == Unavailable then Unavailable else Chapter(nested))
            && forall j | 0 <= j < |s.fields| && s.fields[j].typeCode != 136 ::
                 built.values[j] == parent.values[j] && (parent.Edit? ==> built.updated[j] == parent.updated[j])
    ensures GraphValid(nested) && Ascending(at, |kids[i].rows|) && |Images(nested)| == |at|
    ensures forall k | 0 <= k < |at| ::
              Images(nested)[k] == MaterializeRow(s.children[i].schema, kids[i].children, kids[i].rows[at[k]])
    ensures forall m | 0 <= m < |kids[i].rows| ::
              m in at <==> AllLinked(s.children[i].relation, s.fields, s.children[i].schema.fields, parent, kids[i].rows[m])
  {
    var child, key := s.children[i], parent.Effective();
    nested := Joined(s, kids, i, key);
    MaterializedCells(s, kids, parent);
    FilledChapter(s, kids, parent.values, key, i);
    if parent.Edit? {
      FilledChapter(s, kids, parent.updated, key, i);
    }
    at := JoinedRows(child.relation, s.fields, child.schema.fields, parent, kids[i].rows);
    GraphRoundTrip(MaterializeRows(child.schema, kids[i].children, Matching(child.relation, key, kids[i].rows)));
  }

  // ---------------------------------------------------------------- the key columns

  lemma {:induction false} IndicesAscend(fields: seq<Field>, to: nat, keysOnly: bool)
    requires to <= |fields|
    ensures Ascending(IndicesWhere(fields, to, keysOnly), to)
  {
    if to > 0 {
      IndicesAscend(fields, to - 1, keysOnly);
      OneMoreIndex(IndicesWhere(fields, to - 1, keysOnly), to - 1);
    }
  }

  lemma OneMoreIndex(at: seq<nat>, i: nat)
    requires Ascending(at, i)
    ensures Ascending(at, i + 1) && Ascending(at + [i], i + 1)
  {
  }

  lemma {:induction false} IndexFound(fields: seq<Field>, to: nat, keysOnly: bool, i: nat)
    requires to <= |fields|
    ensures i in IndicesWhere(fields, to, keysOnly) <==> i < to && fields[i].typeCode != 136 && (keysOnly ==> fields[i].keyColumn)
  {
    if to > 0 {
      IndexFound(fields, to - 1, keysOnly, i);
    }
  }

  /** A plain column that marks its table's key. */
  predicate PlainKey(fields: seq<Field>, i: nat)
    requires i < |fields|
  {
    fields[i].typeCode != 136 && fields[i].keyColumn
  }

  /** What tells two rows apart: the plain key columns, or all plain columns where there is none. */
  predicate TellsApart(fields: seq<Field>, i: nat)
    requires i < |fields|
  {
    fields[i].typeCode != 136 && (fields[i].keyColumn || forall j | 0 <= j < |fields| :: !PlainKey(fields, j))
  }

  lemma KeyColumns(fields: seq<Field>)
    ensures Ascending(KeyIndices(fields), |fields|)
    ensures forall i | 0 <= i < |fields| :: i in KeyIndices(fields) <==> TellsApart(fields, i)
  {
    IndicesAscend(fields, |fields|, true);
    IndicesAscend(fields, |fields|, false);
    var keys := IndicesWhere(fields, |fields|, true);
    forall i | 0 <= i < |fields| ensures i in keys <==> PlainKey(fields, i) {
      IndexFound(fields, |fields|, true, i);
    }
    forall i | 0 <= i < |fields| ensures i in IndicesWhere(fields, |fields|, false) <==> fields[i].typeCode != 136 {
      IndexFound(fields, |fields|, false, i);
    }
    if keys != [] {
      assert keys[0] in keys;
      assert PlainKey(fields, keys[0]);
    }
  }

  // ---------------------------------------------------------------- which changes are written

  /** A change with the Recordset whose rows it lists. */
  datatype Group = Group(rs: Recordset, change: RowChange)

  function GroupsIn(rs: Recordset, changes: seq<RowChange>): (r: seq<Group>)
    ensures |r| == |changes|
  {
    seq(|changes|, c requires 0 <= c < |changes| => Group(rs, changes[c]))
  }

  /** All changes of all Recordsets, in order. */
  function GroupsOf(rss: seq<Recordset>): seq<Group> {
    if rss == [] then [] else GroupsIn(rss[0], rss[0].changes) + GroupsOf(rss[1..])
  }

  /** A change of a validated Recordset with these columns. */
  predicate GroupValid(fields: seq<Field>, group: Group) {
    var rows := group.change.rowIndices;
    && rows != [] && (group.change.kind == Update ==> |rows| == 2)
    && forall k | 0 <= k < |rows| :: rows[k] < |group.rs.rows| && |group.rs.rows[rows[k]].values| == |fields|
  }

  /** Row k of both changes agrees in every column that tells rows apart. */
  predicate SameRow(fields: seq<Field>, a: Group, b: Group, k: nat)
    requires GroupValid(fields, a) && GroupValid(fields, b)
    requires k < |a.change.rowIndices| && k < |b.change.rowIndices|
  {
    forall j | 0 <= j < |fields| && TellsApart(fields, j) ::
      a.rs.rows[a.change.rowIndices[k]].values[j] == b.rs.rows[b.change.rowIndices[k]].values[j]
  }

  /** Changes of one kind that agree row by row; without plain columns nothing tells changes of one
      kind apart, not even their number of rows. */
  predicate SameGroup(fields: seq<Field>, a: Group, b: Group)
    requires GroupValid(fields, a) && GroupValid(fields, b)
  {
    && a.change.kind == b.change.kind
    && ((forall j | 0 <= j < |fields| :: fields[j].typeCode == 136)
        || (|a.change.rowIndices| == |b.change.rowIndices|
            && forall k | 0 <= k < |a.change.rowIndices| :: SameRow(fields, a, b, k)))
  }

  function KeyOfGroup(fields: seq<Field>, group: Group): ChangeKey {
    ChangeKey(group.change.kind, GroupCells(group.rs, group.change.rowIndices, KeyIndices(fields)))
  }

  lemma KeyCellsAgree(a: seq<Value>, b: seq<Value>, indices: seq<nat>, length: nat)
    requires |a| == |b| == length && Ascending(indices, length)
    ensures KeyCells(a, indices) == KeyCells(b, indices) <==> forall j | 0 <= j < length && j in indices :: a[j] == b[j]
  {
    var x, y := KeyCells(a, indices), KeyCells(b, indices);
    if x == y {
      forall j | 0 <= j < length && j in indices ensures a[j] == b[j] {
        var k :| 0 <= k < |indices| && indices[k] == j;
        assert x[k] == y[k];
      }
    }
    if forall j | 0 <= j < length && j in indices :: a[j] == b[j] {
      forall k | 0 <= k < |indices| ensures x[k] == y[k] {
        assert indices[k] in indices;
      }
    }
  }

  lemma {:induction false} GroupCellsLength(rs: Recordset, rows: seq<nat>, indices: seq<nat>)
    ensures |GroupCells(rs, rows, indices)| == |rows| * |indices|
  {
    if rows != [] {
      GroupCellsLength(rs, rows[1..], indices);
    }
  }

  lemma EqualHalves<T>(a: seq<T>, b: seq<T>, c: seq<T>, d: seq<T>)
    requires |a| == |c|
    ensures a + b == c + d <==> a == c && b == d
  {
    if a + b == c + d {
      assert (a + b)[..|a|] == a && (c + d)[..|a|] == c;
      assert (a + b)[|a|..] == b && (c + d)[|a|..] == d;
    }
  }

  lemma {:induction false} GroupCellsAgree(a: Recordset, x: seq<nat>, b: Recordset, y: seq<nat>, indices: seq<nat>)
    requires indices != []
    ensures GroupCells(a, x, indices) == GroupCells(b, y, indices)
            <==> |x| == |y| && forall k | 0 <= k < |x| :: KeyCells(ValuesAt(a, x[k]), indices) == KeyCells(ValuesAt(b, y[k]), indices)
  {
    GroupCellsLength(a, x, indices);
    GroupCellsLength(b, y, indices);
    if x != [] && y != [] {
      GroupCellsAgree(a, x[1..], b, y[1..], indices);
      EqualHalves(KeyCells(ValuesAt(a, x[0]), indices), GroupCells(a, x[1..], indices),
                  KeyCells(ValuesAt(b, y[0]), indices), GroupCells(b, y[1..], indices));
      assert forall k | 0 < k < |x| :: x[k] == x[1..][k - 1];
      assert forall k | 0 < k < |y| :: y[k] == y[1..][k - 1];
      assert forall k | 0 <= k < |x[1..]| :: x[1..][k] == x[k + 1];
      assert forall k | 0 <= k < |y[1..]| :: y[1..][k] == y[k + 1];
    }
  }

  lemma RowKeysAgree(fields: seq<Field>, a: Group, b: Group, k: nat)
    requires GroupValid(fields, a) && GroupValid(fields, b)
    requires k < |a.change.rowIndices| && k < |b.change.rowIndices|
    ensures var indices := KeyIndices(fields);
            KeyCells(ValuesAt(a.rs, a.change.rowIndices[k]), indices) == KeyCells(ValuesAt(b.rs, b.change.rowIndices[k]), indices)
            <==> SameRow(fields, a, b, k)
  {
    var indices := KeyIndices(fields);
    KeyColumns(fields);
    KeyCellsAgree(ValuesAt(a.rs, a.change.rowIndices[k]), ValuesAt(b.rs, b.change.rowIndices[k]), indices, |fields|);
  }

  /** Without key indices there is no plain column, and the other way round. */
  lemma NoKeyNoPlain(fields: seq<Field>)
    ensures KeyIndices(fields) == [] <==> forall j | 0 <= j < |fields| :: fields[j].typeCode == 136
  {
    KeyColumns(fields);
    var indices := KeyIndices(fields);
    if j :| 0 <= j < |fields| && fields[j].typeCode != 136 {
      if !TellsApart(fields, j) {
        var k :| 0 <= k < |fields| && PlainKey(fields, k);
        assert TellsApart(fields, k);
      }
    }
    if indices != [] {
      assert indices[0] in indices;
      assert TellsApart(fields, indices[0]);
    }
  }

  lemma KeysAgree(fields: seq<Field>, a: Group, b: Group)
    requires GroupValid(fields, a) && GroupValid(fields, b)
    ensures KeyOfGroup(fields, a) == KeyOfGroup(fields, b) <==> SameGroup(fields, a, b)
  {
    var indices := KeyIndices(fields);
    NoKeyNoPlain(fields);
    if indices == [] {
      GroupCellsLength(a.rs, a.change.rowIndices, indices);
      GroupCellsLength(b.rs, b.change.rowIndices, indices);
    } else {
      GroupCellsAgree(a.rs, a.change.rowIndices, b.rs, b.change.rowIndices, indices);
      forall k | 0 <= k < |a.change.rowIndices| && k < |b.change.rowIndices|
        ensures KeyCells(ValuesAt(a.rs, a.change.rowIndices[k]), indices) == KeyCells(ValuesAt(b.rs, b.change.rowIndices[k]), indices)
                <==> SameRow(fields, a, b, k)
      {
        RowKeysAgree(fields, a, b, k);
      }
    }
  }

  /** The image that is written for a change: its kind, the values of its first row, and for an update
      those of its second. */
  predicate WritesFirstRow(fields: seq<Field>, image: RowImage, group: Group)
    requires GroupValid(fields, group)
  {
    && image.Kind() == group.change.kind
    && image.values == group.rs.rows[group.change.rowIndices[0]].values
    && (group.change.kind == Update ==> image.Edit? && image.updated == group.rs.rows[group.change.rowIndices[1]].values)
  }

  /** The candidates, change by change. */
  predicate CandidatesFit(fields: seq<Field>, groups: seq<Group>, candidates: seq<Candidate>) {
    && |candidates| == |groups|
    && forall g | 0 <= g < |groups| ::
         && GroupValid(fields, groups[g])
         && candidates[g].key == KeyOfGroup(fields, groups[g])
         && WritesFirstRow(fields, candidates[g].image, groups[g])
  }

  lemma ChangeIsValidGroup(fields: seq<Field>, rs: Recordset, c: nat)
    requires ShapeValid(fields, rs) && c < |rs.changes|
    ensures GroupValid(fields, Group(rs, rs.changes[c]))
  {
    assert ChangeLinked(rs, c);
    var change := rs.changes[c];
    assert |StatesOf(rs, change.rowIndices)| == |change.rowIndices|;
    forall k | 0 <= k < |change.rowIndices| ensures |rs.rows[change.rowIndices[k]].values| == |fields| {
      assert CellsValid(fields, rs.rows[change.rowIndices[k]].state, rs.rows[change.rowIndices[k]].values);
    }
  }

  lemma CandidateOfChange(fields: seq<Field>, rs: Recordset, c: nat)
    requires ShapeValid(fields, rs) && c < |rs.changes|
    ensures CandidatesFit(fields, [Group(rs, rs.changes[c])], GroupCandidate(rs, rs.changes[c], KeyIndices(fields)))
  {
    ChangeIsValidGroup(fields, rs, c);
  }

  lemma {:induction false} CandidatesOfRecordset(fields: seq<Field>, rs: Recordset, from: nat)
    requires ShapeValid(fields, rs) && from <= |rs.changes|
    ensures CandidatesFit(fields, GroupsIn(rs, rs.changes[from..]), CandidatesFrom(rs, rs.changes[from..], KeyIndices(fields)))
    decreases |rs.changes| - from
  {
    if from < |rs.changes| {
      CandidatesOfRecordset(fields, rs, from + 1);
      CandidateOfChange(fields, rs, from);
      var changes, indices := rs.changes[from..], KeyIndices(fields);
      assert changes[0] == rs.changes[from] && changes[1..] == rs.changes[from + 1..];
      assert GroupsIn(rs, changes) == [Group(rs, changes[0])] + GroupsIn(rs, changes[1..]);
      FitAppend(fields, [Group(rs, changes[0])], GroupCandidate(rs, changes[0], indices),
                GroupsIn(rs, changes[1..]), CandidatesFrom(rs, changes[1..], indices));
    }
  }

  lemma FitAppend(fields: seq<Field>, a: seq<Group>, x: seq<Candidate>, b: seq<Group>, y: seq<Candidate>)
    requires CandidatesFit(fields, a, x) && CandidatesFit(fields, b, y)
    ensures CandidatesFit(fields, a + b, x + y)
  {
  }

  lemma {:induction false} CandidatesOfAll(fields: seq<Field>, rss: seq<Recordset>)
    requires forall i | 0 <= i < |rss| :: ShapeValid(fields, rss[i])
    ensures CandidatesFit(fields, GroupsOf(rss), AllCandidates(rss, KeyIndices(fields)))
  {
    if rss != [] {
      CandidatesOfAll(fields, rss[1..]);
      CandidatesOfRecordset(fields, rss[0], 0);
      assert rss[0].changes[0..] == rss[0].changes;
      FitAppend(fields, GroupsIn(rss[0], rss[0].changes), CandidatesFrom(rss[0], rss[0].changes, KeyIndices(fields)),
                GroupsOf(rss[1..]), AllCandidates(rss[1..], KeyIndices(fields)));
    }
  }

  predicate FirstOfItsKey(candidates: seq<Candidate>, seen: set<ChangeKey>, i: nat)
    requires i < |candidates|
  {
    candidates[i].key !in seen && forall j | 0 <= j < i :: candidates[j].key != candidates[i].key
  }

  lemma {:induction false} DedupPicks(candidates: seq<Candidate>, seen: set<ChangeKey>) returns (at: seq<nat>)
    ensures Picked(Dedup(candidates, seen), CandidateImages(candidates), at)
    ensures forall i | 0 <= i < |candidates| :: i in at <==> FirstOfItsKey(candidates, seen, i)
  {
    if candidates == [] {
      at := [];
    } else {
      var key, first := candidates[0].key, candidates[0].key !in seen;
      var rest := DedupPicks(candidates[1..], seen + {key});
      at := Behind(first, rest);
      assert CandidateImages(candidates)[1..] == CandidateImages(candidates[1..]);
      PickedBehind(CandidateImages(candidates), first, rest, Dedup(candidates[1..], seen + {key}));
      forall i | 0 <= i < |candidates| ensures i in at <==> FirstOfItsKey(candidates, seen, i) {
        BehindHas(first, rest, i);
        IsFirst(candidates, seen, i);
      }
    }
  }

  lemma IsFirst(candidates: seq<Candidate>, seen: set<ChangeKey>, i: nat)
    requires i < |candidates|
    ensures FirstOfItsKey(candidates, seen, i)
            <==> if i == 0 then candidates[0].key !in seen else FirstOfItsKey(candidates[1..], seen + {candidates[0].key}, i - 1)
  {
    assert forall j | 0 < j < |candidates| :: candidates[j] == candidates[1..][j - 1];
    assert forall j | 0 <= j < |candidates| - 1 :: candidates[1..][j] == candidates[j + 1];
  }

  /** A change of any of the Recordsets is written if and only if no earlier one is the same; what is
      written of it is its first row. */
  lemma WrittenChanges(rss: seq<Recordset>, fields: seq<Field>) returns (at: seq<nat>)
    requires forall i | 0 <= i < |rss| :: ShapeValid(fields, rss[i])
    ensures Ascending(at, |GroupsOf(rss)|) && |ChapterRowChanges(rss, fields)| == |at|
    ensures forall g | 0 <= g < |GroupsOf(rss)| :: GroupValid(fields, GroupsOf(rss)[g])
    ensures forall k | 0 <= k < |at| :: WritesFirstRow(fields, ChapterRowChanges(rss, fields)[k], GroupsOf(rss)[at[k]])
    ensures forall g | 0 <= g < |GroupsOf(rss)| ::
              g in at <==> forall h | 0 <= h < g :: !SameGroup(fields, GroupsOf(rss)[h], GroupsOf(rss)[g])
  {
    var groups, candidates := GroupsOf(rss), AllCandidates(rss, KeyIndices(fields));
    CandidatesOfAll(fields, rss);
    at := DedupPicks(candidates, {});
    forall g | 0 <= g < |groups|
      ensures FirstOfItsKey(candidates, {}, g) <==> forall h | 0 <= h < g :: !SameGroup(fields, groups[h], groups[g])
    {
      forall h | 0 <= h < g ensures candidates[h].key == candidates[g].key <==> SameGroup(fields, groups[h], groups[g]) {
        KeysAgree(fields, groups[h], groups[g]);
      }
    }
  }

  // ---------------------------------------------------------------- which nested Recordsets are collected

  /** The nested Recordsets in one column of the listed rows. */
  function ChaptersAt(rs: Recordset, rows: seq<nat>, f: nat): seq<Recordset>
    requires forall k | 0 <= k < |rows| :: rows[k] < |rs.rows| && f < |rs.rows[rows[k]].values|
  {
    if rows == [] then []
    else
      var cell := rs.rows[rows[0]].values[f];
      (if cell.Chapter? then [cell.recordset] else []) + ChaptersAt(rs, rows[1..], f)
  }

  function ChaptersOf(fields: seq<Field>, groups: seq<Group>, f: nat): seq<Recordset>
    requires f < |fields| && forall g | 0 <= g < |groups| :: GroupValid(fields, groups[g])
  {
    if groups == [] then []
    else
      assert GroupValid(fields, groups[0]);
      ChaptersAt(groups[0].rs, groups[0].change.rowIndices, f) + ChaptersOf(fields, groups[1..], f)
  }

  lemma {:induction false} NestedOfSplit(rs: Recordset, kind: ChangeKind, rows: seq<nat>, f: nat)
    requires kind != Update && forall k | 0 <= k < |rows| :: rows[k] < |rs.rows| && f < |rs.rows[rows[k]].values|
    ensures Nested(SplitGroup(rs, kind, rows), f) == ChaptersAt(rs, rows, f)
  {
    if rows != [] {
      NestedOfSplit(rs, kind, rows[1..], f);
      assert SplitGroup(rs, kind, rows)[1..] == SplitGroup(rs, kind, rows[1..]);
    }
  }

  lemma NestedOfGroup(fields: seq<Field>, group: Group, f: nat)
    requires f < |fields| && GroupValid(fields, group)
    ensures Nested(ChangeImages(group.rs, group.change), f) == ChaptersAt(group.rs, group.change.rowIndices, f)
  {
    var rs, rows := group.rs, group.change.rowIndices;
    if group.change.kind == Update {
      assert rows[1..][1..] == [];
      assert ChaptersAt(rs, rows[1..], f) == Cell(ValuesAt(rs, rows[1]), f) + [];
    } else {
      NestedOfSplit(rs, group.change.kind, rows, f);
    }
  }

  lemma {:induction false} ChaptersOfAppend(fields: seq<Field>, a: seq<Group>, b: seq<Group>, f: nat)
    requires f < |fields| && forall g | 0 <= g < |a| :: GroupValid(fields, a[g])
    requires forall g | 0 <= g < |b| :: GroupValid(fields, b[g])
    ensures ChaptersOf(fields, a + b, f) == ChaptersOf(fields, a, f) + ChaptersOf(fields, b, f)
  {
    if a == [] {
      assert a + b == b;
    } else {
      assert (a + b)[1..] == a[1..] + b;
      ChaptersOfAppend(fields, a[1..], b, f);
    }
  }

  lemma {:induction false} NestedOfRecordset(fields: seq<Field>, rs: Recordset, from: nat, f: nat)
    requires ShapeValid(fields, rs) && from <= |rs.changes| && f < |fields|
    ensures forall c | from <= c < |rs.changes| :: GroupValid(fields, Group(rs, rs.changes[c]))
    ensures Nested(ImagesFrom(rs, rs.changes[from..]), f) == ChaptersOf(fields, GroupsIn(rs, rs.changes[from..]), f)
    decreases |rs.changes| - from
  {
    if from < |rs.changes| {
      var changes := rs.changes[from..];
      ChangeIsValidGroup(fields, rs, from);
      NestedOfRecordset(fields, rs, from + 1, f);
      assert changes[1..] == rs.changes[from + 1..];
      assert GroupsIn(rs, changes)[1..] == GroupsIn(rs, changes[1..]);
      NestedAppend(ChangeImages(rs, changes[0]), ImagesFrom(rs, changes[1..]), f);
      NestedOfGroup(fields, Group(rs, changes[0]), f);
    }
  }

  /** Of a column, the nested Recordset of every row of every change is collected, row by row; the
      pending row of an update counts besides the original one. */
  lemma {:induction false} CollectedChapters(fields: seq<Field>, rss: seq<Recordset>, f: nat)
    requires f < |fields| && forall i | 0 <= i < |rss| :: ShapeValid(fields, rss[i])
    ensures forall g | 0 <= g < |GroupsOf(rss)| :: GroupValid(fields, GroupsOf(rss)[g])
    ensures NestedAll(rss, f) == ChaptersOf(fields, GroupsOf(rss), f)
  {
    CandidatesOfAll(fields, rss);
    if rss != [] {
      CollectedChapters(fields, rss[1..], f);
      NestedOfRecordset(fields, rss[0], 0, f);
      assert rss[0].changes[0..] == rss[0].changes;
      NestedAppend(Images(rss[0]), AllImages(rss[1..]), f);
      ChaptersOfAppend(fields, GroupsIn(rss[0], rss[0].changes), GroupsOf(rss[1..]), f);
    }
  }

  // ---------------------------------------------------------------- relations and stored updates

  function ParentOrdinals(relation: seq<RelationPair>): (r: seq<nat>)
    ensures |r| == |relation|
  {
    seq(|relation|, k requires 0 <= k < |relation| => relation[k].parentOrdinal)
  }

  function ChildOrdinals(relation: seq<RelationPair>): (r: seq<nat>)
    ensures |r| == |relation|
  {
    seq(|relation|, k requires 0 <= k < |relation| => relation[k].childOrdinal)
  }

  function SetOf(xs: seq<nat>): set<nat> {
    set x | x in xs
  }

  /** A relation is accepted exactly when it has pairs, all between plain columns, and as many different
      ordinals on either side as it has pairs. */
  lemma RelationChecked(relation: seq<RelationPair>, parent: seq<Field>, child: seq<Field>)
    ensures RelationValid(relation, parent, child)
            <==> && |relation| > 0
                 && (forall k | 0 <= k < |relation| ::
                       && relation[k].parentOrdinal > 0 && relation[k].childOrdinal > 0
                       && relation[k].parentOrdinal <= |parent| && parent[relation[k].parentOrdinal - 1].typeCode != 136
                       && relation[k].childOrdinal <= |child| && child[relation[k].childOrdinal - 1].typeCode != 136)
                 && |SetOf(ParentOrdinals(relation))| == |relation| == |SetOf(ChildOrdinals(relation))|
  {
    DistinctCounts(ParentOrdinals(relation));
    DistinctCounts(ChildOrdinals(relation));
    OrdinalsDistinct(relation);
  }

  lemma OrdinalsDistinct(relation: seq<RelationPair>)
    ensures (forall i, j | 0 <= i < j < |relation| ::
               relation[i].parentOrdinal != relation[j].parentOrdinal && relation[i].childOrdinal != relation[j].childOrdinal)
            <==> Distinct(ParentOrdinals(relation)) && Distinct(ChildOrdinals(relation))
  {
    var parents, children := ParentOrdinals(relation), ChildOrdinals(relation);
    forall i, j | 0 <= i < j < |relation|
      ensures parents[i] != parents[j] <==> relation[i].parentOrdinal != relation[j].parentOrdinal
      ensures children[i] != children[j] <==> relation[i].childOrdinal != relation[j].childOrdinal
    {
    }
  }

  lemma DistinctSnoc(init: seq<nat>, last: nat)
    ensures Distinct(init + [last]) <==> Distinct(init) && last !in init
  {
    var xs := init + [last];
    if Distinct(xs) {
      assert forall i | 0 <= i < |init| :: xs[i] == init[i] != xs[|init|];
    }
  }

  /** A list has no repeats exactly when it has as many members as elements. */
  lemma {:induction false} DistinctCounts(xs: seq<nat>)
    ensures |SetOf(xs)| <= |xs|
    ensures Distinct(xs) <==> |SetOf(xs)| == |xs|
  {
    if xs == [] {
      assert SetOf(xs) == {};
    } else {
      var init, last := xs[..|xs| - 1], xs[|xs| - 1];
      assert xs == init + [last];
      DistinctCounts(init);
      DistinctSnoc(init, last);
      assert SetOf(xs) == SetOf(init) + {last};
      assert last in SetOf(init) <==> last in init;
    }
  }

  /** What is left of a row once it has been stored: its kind, its plain cells with what counts as null
      made null, and of an update the changed plain cells only. */
  lemma StoredCells(fields: seq<Field>, row: RowImage, j: nat)
    requires Arity(fields, row) && j < |fields|
    ensures var stored := Stored(fields, row);
            && stored.Kind() == row.Kind() && Arity(fields, stored)
            && (fields[j].typeCode == 136 ==> stored.values[j] == Chapter(Recordset([], [])))
            && (fields[j].typeCode != 136 ==> stored.values[j] == if row.values[j] == Unavailable then Null else row.values[j])
            && (row.Edit? ==>
                  stored.updated[j] == if fields[j].typeCode == 136 || row.updated[j] == row.values[j] then Unavailable else row.updated[j])
  {
  }
}
