/** The loops of the chapter writer and reader: building the schema, collecting and deduplicating
    rows, emitting the marked groups, reading them with an advancing offset, and filling in nested
    Recordsets. */
module ChapterMachine {
  import opened Prelude
  import Masks
  import opened RecordsetModel
  import opened RowCodec
  import opened FlatMachine
  import opened ChapterTree
  import opened ChapterJoin
  import opened ChapterBytes
  import opened ChapterPipeline

  // ---------------------------------------------------------------- the schema

  /** `adtg_schema`: one loop over the fields; `next` is the source's `&mut u32` counter. */
  method BuildAdtgSchema(fields: seq<Field>, groupId: nat, next0: nat) returns (r: Result<(Schema, nat)>)
    ensures r == AdtgSchema(fields, groupId, next0)
    decreases fields
  {
    var next: nat := next0;
    var children: seq<ChildSchema> := [];
    WithNone(AdtgChildren(fields, 0, next));
    for i := 0 to |fields|
      invariant AdtgChildren(fields, 0, next0) == WithChildren(children, AdtgChildren(fields, i, next))
    {
      if fields[i].IsChapter() {
        if fields[i].chapter.None? || next >= MAX_GROUP_ID {
          return Err;
        }
        var child := BuildAdtgSchema(fields[i].chapter.value.fields, next, next + 1);
        if child.Err? {
          return Err;
        }
        WithOneChild(children, ChildSchema(i, [], child.value.0), AdtgChildren(fields, i + 1, child.value.1));
        children := children + [ChildSchema(i, [], child.value.0)];
        next := child.value.1;
      }
    }
    assert children + [] == children;
    return Ok((Schema(groupId, fields, children), next));
  }

  function WithChildren(children: seq<ChildSchema>, rest: Result<(seq<ChildSchema>, nat)>): Result<(seq<ChildSchema>, nat)> {
    if rest.Ok? then Ok((children + rest.value.0, rest.value.1)) else Err
  }

  lemma WithNone(r: Result<(seq<ChildSchema>, nat)>)
    ensures WithChildren([], r) == r
  {
    if r.Ok? {
      assert [] + r.value.0 == r.value.0;
    }
  }

  lemma WithOneChild(children: seq<ChildSchema>, child: ChildSchema, rest: Result<(seq<ChildSchema>, nat)>)
    ensures WithChildren(children, WithChildren([child], rest)) == WithChildren(children + [child], rest)
  {
    if rest.Ok? {
      assert children + ([child] + rest.value.0) == children + [child] + rest.value.0;
    }
  }

  /** `parse_chapter_schema`: a pass that collects the chapter columns and a loop over them. */
  method BuildParsedSchema(fields: seq<Field>, groupId: nat, next0: nat) returns (r: Result<(Schema, nat)>)
    ensures r == ParseSchema(fields, groupId, next0)
    decreases fields
  {
    var columns := ChapterColumns(fields, 0);
    if columns.Err? {
      return Err;
    }
    var next: nat := next0;
    var children: seq<ChildSchema> := [];
    WithNone(ParseChildren(fields, columns.value, next));
    assert columns.value[0..] == columns.value;
    for k := 0 to |columns.value|
      invariant ParseChildren(fields, columns.value, next0) == WithChildren(children, ParseChildren(fields, columns.value[k..], next))
    {
      var column := columns.value[k];
      assert ColumnOf(fields, column) && columns.value[k..][1..] == columns.value[k + 1..];
      if next >= MAX_GROUP_ID {
        return Err;
      }
      var childFields := fields[column.parentIndex].chapter.value.fields;
      var child := BuildParsedSchema(childFields, next, next + 1);
      if child.Err? || !RelationValid(column.relation, fields, childFields) {
        return Err;
      }
      var one := ChildSchema(column.parentIndex, column.relation, child.value.0);
      WithOneChild(children, one, ParseChildren(fields, columns.value[k + 1..], child.value.1));
      children := children + [one];
      next := child.value.1;
    }
    assert columns.value[|columns.value|..] == [] && children + [] == children;
    return Ok((Schema(groupId, fields, children), next));
  }

  // ---------------------------------------------------------------- collecting

  lemma {:induction false} DedupSnoc(candidates: seq<Candidate>, last: Candidate, seen: set<ChangeKey>)
    ensures Dedup(candidates + [last], seen)
            == Dedup(candidates, seen) + if last.key in seen + CandidateKeys(candidates) then [] else [last.image]
  {
    if candidates == [] {
      assert candidates + [last] == [last] && [last][1..] == [];
      assert seen + CandidateKeys(candidates) == seen;
    } else {
      assert (candidates + [last])[1..] == candidates[1..] + [last];
      DedupSnoc(candidates[1..], last, seen + {candidates[0].key});
      assert seen + {candidates[0].key} + CandidateKeys(candidates[1..]) == seen + CandidateKeys(candidates) by {
        assert candidates == [candidates[0]] + candidates[1..];
      }
    }
  }

  function CandidateKeys(candidates: seq<Candidate>): set<ChangeKey> {
    set c | c in candidates :: c.key
  }

  lemma {:induction false} CandidatesFromSnoc(rs: Recordset, changes: seq<RowChange>, change: RowChange, indices: seq<nat>)
    ensures CandidatesFrom(rs, changes + [change], indices) == CandidatesFrom(rs, changes, indices) + GroupCandidate(rs, change, indices)
  {
    if changes == [] {
      assert changes + [change] == [change] && [change][1..] == [];
    } else {
      assert (changes + [change])[1..] == changes[1..] + [change];
      CandidatesFromSnoc(rs, changes[1..], change, indices);
    }
  }

  lemma {:induction false} AllCandidatesSnoc(rss: seq<Recordset>, rs: Recordset, indices: seq<nat>)
    ensures AllCandidates(rss + [rs], indices) == AllCandidates(rss, indices) + CandidatesFrom(rs, rs.changes, indices)
  {
    if rss == [] {
      assert rss + [rs] == [rs] && [rs][1..] == [];
    } else {
      assert (rss + [rs])[1..] == rss[1..] + [rs];
      AllCandidatesSnoc(rss[1..], rs, indices);
    }
  }

  /** What one more change adds to the keys and to the kept rows. */
  lemma NextCandidate(done: seq<Candidate>, rs: Recordset, c: nat, indices: seq<nat>)
    requires c < |rs.changes|
    ensures var found := GroupCandidate(rs, rs.changes[c], indices);
            var before, after := done + CandidatesFrom(rs, rs.changes[..c], indices), done + CandidatesFrom(rs, rs.changes[..c + 1], indices);
            if found == [] then after == before
            else
              && CandidateKeys(after) == CandidateKeys(before) + {found[0].key}
              && Dedup(after, {}) == Dedup(before, {}) + if found[0].key in CandidateKeys(before) then [] else [found[0].image]
  {
    var found := GroupCandidate(rs, rs.changes[c], indices);
    var before, after := done + CandidatesFrom(rs, rs.changes[..c], indices), done + CandidatesFrom(rs, rs.changes[..c + 1], indices);
    assert rs.changes[..c + 1] == rs.changes[..c] + [rs.changes[c]];
    CandidatesFromSnoc(rs, rs.changes[..c], rs.changes[c], indices);
    assert after == before + found;
    if found != [] {
      assert found == [found[0]] && {} + CandidateKeys(before) == CandidateKeys(before);
      DedupSnoc(before, found[0], {});
    }
  }

  /** One Recordset's changes, with the set of keys seen so far. */
  method CollectChanges(rs: Recordset, indices: seq<nat>, seen0: set<ChangeKey>, images0: seq<RowImage>, ghost done: seq<Candidate>)
    returns (seen: set<ChangeKey>, images: seq<RowImage>)
    requires seen0 == CandidateKeys(done) && images0 == Dedup(done, {})
    ensures seen == CandidateKeys(done + CandidatesFrom(rs, rs.changes, indices))
    ensures images == Dedup(done + CandidatesFrom(rs, rs.changes, indices), {})
  {
    seen, images := seen0, images0;
    assert done + [] == done;
    for c := 0 to |rs.changes|
      invariant seen == CandidateKeys(done + CandidatesFrom(rs, rs.changes[..c], indices))
      invariant images == Dedup(done + CandidatesFrom(rs, rs.changes[..c], indices), {})
    {
      var found := GroupCandidate(rs, rs.changes[c], indices);
      NextCandidate(done, rs, c, indices);
      if found != [] {
        if found[0].key !in seen {
          images := images + [found[0].image];
        }
        seen := seen + {found[0].key};
      }
    }
    assert rs.changes[..|rs.changes|] == rs.changes;
  }

  lemma NextCandidates(rss: seq<Recordset>, i: nat, indices: seq<nat>)
    requires i < |rss|
    ensures AllCandidates(rss[..i + 1], indices) == AllCandidates(rss[..i], indices) + CandidatesFrom(rss[i], rss[i].changes, indices)
  {
    assert rss[..i + 1] == rss[..i] + [rss[i]];
    AllCandidatesSnoc(rss[..i], rss[i], indices);
  }

  /** `chapter_row_changes`: walk all changes, growing the set of keys already seen. */
  method CollectRowChanges(rss: seq<Recordset>, fields: seq<Field>) returns (images: seq<RowImage>)
    ensures images == ChapterRowChanges(rss, fields)
  {
    var indices := KeyIndices(fields);
    var seen: set<ChangeKey> := {};
    images := [];
    for i := 0 to |rss|
      invariant seen == CandidateKeys(AllCandidates(rss[..i], indices))
      invariant images == Dedup(AllCandidates(rss[..i], indices), {})
    {
      seen, images := CollectChanges(rss[i], indices, seen, images, AllCandidates(rss[..i], indices));
      NextCandidates(rss, i, indices);
    }
    assert rss[..|rss|] == rss;
  }

  function IndexChapters(rs: Recordset, indices: seq<nat>, field: nat): seq<Recordset> {
    if indices == [] then [] else Cell(ValuesAt(rs, indices[0]), field) + IndexChapters(rs, indices[1..], field)
  }

  lemma {:induction false} IndexChaptersSnoc(rs: Recordset, indices: seq<nat>, index: nat, field: nat)
    ensures IndexChapters(rs, indices + [index], field) == IndexChapters(rs, indices, field) + Cell(ValuesAt(rs, index), field)
  {
    if indices == [] {
      assert indices + [index] == [index] && [index][1..] == [];
    } else {
      assert (indices + [index])[1..] == indices[1..] + [index];
      IndexChaptersSnoc(rs, indices[1..], index, field);
    }
  }

  lemma {:induction false} GroupChapters(rs: Recordset, kind: ChangeKind, indices: seq<nat>, field: nat)
    requires kind != Update
    ensures Nested(SplitGroup(rs, kind, indices), field) == IndexChapters(rs, indices, field)
  {
    if indices != [] {
      assert SplitGroup(rs, kind, indices)[1..] == SplitGroup(rs, kind, indices[1..]);
      GroupChapters(rs, kind, indices[1..], field);
    }
  }

  lemma ChangeChapters(rs: Recordset, c: nat, field: nat)
    requires GraphValid(rs) && c < |rs.changes|
    ensures Nested(ChangeImages(rs, rs.changes[c]), field) == IndexChapters(rs, rs.changes[c].rowIndices, field)
  {
    var change := rs.changes[c];
    assert ChangeLinked(rs, c);
    if change.kind == Update {
      assert |StatesOf(rs, change.rowIndices)| == 2;
      var images := ChangeImages(rs, change);
      assert images[1..] == [] && change.rowIndices[1..][1..] == [];
      assert IndexChapters(rs, change.rowIndices[1..], field) == Cell(ValuesAt(rs, change.rowIndices[1]), field) + IndexChapters(rs, [], field);
    } else {
      GroupChapters(rs, change.kind, change.rowIndices, field);
    }
  }

  lemma {:induction false} AllImagesSnoc(rss: seq<Recordset>, rs: Recordset)
    ensures AllImages(rss + [rs]) == AllImages(rss) + Images(rs)
  {
    if rss == [] {
      assert rss + [rs] == [rs] && [rs][1..] == [];
    } else {
      assert (rss + [rs])[1..] == rss[1..] + [rs];
      AllImagesSnoc(rss[1..], rs);
    }
  }

  method RowsChapters(rs: Recordset, indices: seq<nat>, field: nat, before: seq<Recordset>) returns (children: seq<Recordset>)
    ensures children == before + IndexChapters(rs, indices, field)
  {
    children := before;
    for k := 0 to |indices|
      invariant children == before + IndexChapters(rs, indices[..k], field)
    {
      assert indices[..k + 1] == indices[..k] + [indices[k]];
      IndexChaptersSnoc(rs, indices[..k], indices[k], field);
      var values := ValuesAt(rs, indices[k]);
      if field < |values| && values[field].Chapter? {
        children := children + [values[field].recordset];
      }
    }
    assert indices[..|indices|] == indices;
  }

  method RecordsetChapters(rs: Recordset, field: nat, before: seq<Recordset>) returns (children: seq<Recordset>)
    requires GraphValid(rs)
    ensures children == before + Nested(Images(rs), field)
  {
    children := before;
    for c := 0 to |rs.changes|
      invariant children == before + Nested(ImagesFrom(rs, rs.changes[..c]), field)
    {
      children := RowsChapters(rs, rs.changes[c].rowIndices, field, children);
      NextChapters(rs, c, field);
      Regrouped(before, Nested(ImagesFrom(rs, rs.changes[..c]), field), IndexChapters(rs, rs.changes[c].rowIndices, field));
    }
    assert rs.changes[..|rs.changes|] == rs.changes;
  }

  lemma NextChapters(rs: Recordset, c: nat, field: nat)
    requires GraphValid(rs) && c < |rs.changes|
    ensures Nested(ImagesFrom(rs, rs.changes[..c + 1]), field)
            == Nested(ImagesFrom(rs, rs.changes[..c]), field) + IndexChapters(rs, rs.changes[c].rowIndices, field)
  {
    NextImages(rs, c);
    ChangeChapters(rs, c, field);
    NestedAppend(ImagesFrom(rs, rs.changes[..c]), ChangeImages(rs, rs.changes[c]), field);
  }

  lemma NextImages(rs: Recordset, c: nat)
    requires c < |rs.changes|
    ensures ImagesFrom(rs, rs.changes[..c + 1]) == ImagesFrom(rs, rs.changes[..c]) + ChangeImages(rs, rs.changes[c])
  {
    var one := [rs.changes[c]];
    assert rs.changes[..c + 1] == rs.changes[..c] + one;
    ImagesFromAppend(rs, rs.changes[..c], one);
    assert ImagesFrom(rs, one) == ChangeImages(rs, rs.changes[c]) + ImagesFrom(rs, []);
  }

  lemma NextNested(rss: seq<Recordset>, i: nat, field: nat)
    requires i < |rss|
    ensures NestedAll(rss[..i + 1], field) == NestedAll(rss[..i], field) + Nested(Images(rss[i]), field)
  {
    assert rss[..i + 1] == rss[..i] + [rss[i]];
    AllImagesSnoc(rss[..i], rss[i]);
    NestedAppend(AllImages(rss[..i]), Images(rss[i]), field);
  }

  /** `chapter_recordsets_for_child`: every chapter cell of one column, over all Recordsets. */
  method CollectChildRecordsets(rss: seq<Recordset>, field: nat) returns (children: seq<Recordset>)
    requires forall i | 0 <= i < |rss| :: GraphValid(rss[i])
    ensures children == NestedAll(rss, field)
  {
    children := [];
    for i := 0 to |rss|
      invariant children == NestedAll(rss[..i], field)
    {
      children := RecordsetChapters(rss[i], field, children);
      NextNested(rss, i, field);
    }
    assert rss[..|rss|] == rss;
  }

  // ---------------------------------------------------------------- emitting

  lemma {:induction false} EncodeChapterRowsSplit(codec: ValueCodec, fields: seq<Field>, marker: Marker, a: seq<RowImage>, b: seq<RowImage>)
    ensures EncodeChapterRows(codec, fields, marker, a + b) == Then(EncodeChapterRows(codec, fields, marker, a), EncodeChapterRows(codec, fields, marker, b))
  {
    if a == [] {
      assert a + b == b;
      ThenUnit(EncodeChapterRows(codec, fields, marker, b));
    } else {
      assert (a + b)[1..] == a[1..] + b;
      EncodeChapterRowsSplit(codec, fields, marker, a[1..], b);
      ThenAssociative(EncodeChapterRow(codec, fields, marker, a[0]), EncodeChapterRows(codec, fields, marker, a[1..]), EncodeChapterRows(codec, fields, marker, b));
    }
  }

  /** All Recordsets nested below satisfy the validator, so row and cell lookups cannot fail. */
  ghost predicate GroupsValid(s: Schema, rss: seq<Recordset>)
    decreases s
  {
    && (forall i | 0 <= i < |rss| :: ShapeValid(s.fields, rss[i]))
    && forall i | 0 <= i < |s.children| :: GroupsValid(s.children[i].schema, NestedAll(rss, s.children[i].fieldIndex))
  }

  lemma {:induction false} CandidatesFit(fields: seq<Field>, rs: Recordset, from: nat, indices: seq<nat>)
    requires ShapeValid(fields, rs) && from <= |rs.changes|
    ensures forall c | c in CandidatesFrom(rs, rs.changes[from..], indices) :: Arity(fields, c.image)
    decreases |rs.changes| - from
  {
    if from < |rs.changes| {
      CandidatesFit(fields, rs, from + 1, indices);
      assert rs.changes[from..][1..] == rs.changes[from + 1..];
      OneChangeValid(fields, rs, from);
      var images := ChangeImages(rs, rs.changes[from]);
      assert images != [] ==> images[0] in images;
    }
  }

  lemma {:induction false} AllCandidatesFit(fields: seq<Field>, rss: seq<Recordset>, indices: seq<nat>)
    requires forall i | 0 <= i < |rss| :: ShapeValid(fields, rss[i])
    ensures forall c | c in AllCandidates(rss, indices) :: Arity(fields, c.image)
  {
    if rss != [] {
      AllCandidatesFit(fields, rss[1..], indices);
      assert rss[0].changes[0..] == rss[0].changes;
      CandidatesFit(fields, rss[0], 0, indices);
    }
  }

  lemma {:induction false} DedupFits(fields: seq<Field>, candidates: seq<Candidate>, seen: set<ChangeKey>)
    requires forall c | c in candidates :: Arity(fields, c.image)
    ensures forall x | x in Dedup(candidates, seen) :: Arity(fields, x)
  {
    if candidates != [] {
      DedupFits(fields, candidates[1..], seen + {candidates[0].key});
    }
  }

  lemma ChangesFit(fields: seq<Field>, rss: seq<Recordset>)
    requires forall i | 0 <= i < |rss| :: ShapeValid(fields, rss[i])
    ensures forall x | x in ChapterRowChanges(rss, fields) :: Arity(fields, x)
  {
    AllCandidatesFit(fields, rss, KeyIndices(fields));
    DedupFits(fields, AllCandidates(rss, KeyIndices(fields)), {});
  }

  /** The output buffer of the chapter writer. */
  class GroupWriter {
    const codec: ValueCodec
    var out: seq<byte>

    constructor (codec: ValueCodec)
      ensures this.codec == codec && out == []
    {
      this.codec, out := codec, [];
    }

    /** `write_chapter_marker` */
    method WriteMarker(marker: Marker, code: byte)
      requires code < 0x80
      modifies this
      ensures out == old(out) + MarkerBytes(marker, code)
    {
      match marker {
        case Root => out := out + [code];
        case Child(groupId) =>
          out := out + [code + 0x80];
          out := out + LittleEndian(groupId, 4);
      }
    }

    /** The presence mask in front of a current row: a bit for every maskable column, none of the
        chapter columns set. */
    method WritePresence(fields: seq<Field>, values: seq<Value>)
      requires |values| == |fields|
      modifies this
      ensures var bits := MaskedOnly(fields, PresentBits(fields, values));
              out == old(out) + if MaskedCount(fields) == 0 then [] else Masks.Mask(bits, true)
    {
      ghost var present := PresentBits(fields, values);
      var bits := [];
      for i := 0 to |fields|
        invariant out == old(out)
        invariant bits == MaskedOnly(fields[..i], present[..i])
      {
        MaskedOnlySnoc(fields, present, i);
        if fields[i].Masked() {
          bits := bits + [!fields[i].IsChapter() && values[i].Present()];
        }
      }
      assert fields[..|fields|] == fields && present[..|fields|] == present;
      assert |bits| == MaskedCount(fields);
      if bits != [] {
        var mask := Masks.MaskBytes(bits, true);
        out := out + mask;
      }
    }

    /** The two masks in front of insert and update values. */
    method WriteMasks(fields: seq<Field>, values: seq<Value>)
      requires |values| == |fields|
      modifies this
      ensures out == old(out) + (Masks.Mask(PresentBits(fields, values), false) + Masks.Mask(NullBits(fields, values), false))
    {
      var nonNull := Masks.MaskBytes(PresentBits(fields, values), false);
      var nulls := Masks.MaskBytes(NullBits(fields, values), false);
      out := out + nonNull;
      out := out + nulls;
    }

    /** The value loop of current and inserted rows (`pending` false) and of updates: it skips chapter
        columns, and refuses a missing value where none may be missing. */
    method WriteValues(fields: seq<Field>, values: seq<Value>, pending: bool) returns (ok: bool)
      requires |values| == |fields|
      modifies this
      ensures ok <==> (EncodePresent(codec, fields, PresentBits(fields, values), values).Ok?
                       && if pending then UpdateNullsAllowed(fields, values) else NullsAllowed(fields, values))
      ensures ok ==> out == old(out) + EncodePresent(codec, fields, PresentBits(fields, values), values).value
    {
      NothingEmitted(codec, fields, values, out);
      var i := 0;
      while i < |fields|
        invariant 0 <= i <= |fields| && AllowedSoFar(fields, values, pending, i)
        invariant Ok(out) == Then(Ok(old(out)), Emitted(codec, fields, values, i))
      {
        NextEmitted(codec, fields, values, i, old(out));
        if !fields[i].IsChapter() && values[i].Present() {
          var text := codec.encode(fields[i], values[i]);
          if text.Err? {
            return false;
          }
          out := out + text.value;
        } else {
          ThenUnit(Ok(out));
          if !fields[i].IsChapter() && (values[i] == Null || !pending) && !fields[i].nullable {
            AllEmitted(codec, fields, values, pending);
            return false;
          }
        }
        i := i + 1;
      }
      AllEmitted(codec, fields, values, pending);
      return true;
    }

    /** `write_chapter_current_row` */
    method WriteCurrentRow(fields: seq<Field>, values: seq<Value>, marker: Marker) returns (ok: bool)
      requires |values| == |fields|
      modifies this
      ensures ok <==> CurrentBody(codec, fields, values).Ok?
      ensures ok ==> out == old(out) + (MarkerBytes(marker, CURRENT) + CurrentBody(codec, fields, values).value)
    {
      ghost var before := out;
      WriteMarker(marker, CURRENT);
      ghost var marked := out;
      WritePresence(fields, values);
      ok := WriteValues(fields, values, false);
      if ok {
        ghost var present := PresentBits(fields, values);
        ghost var mask := if MaskedCount(fields) == 0 then [] else Masks.Mask(MaskedOnly(fields, present), true);
        Regrouped(marked, mask, EncodePresent(codec, fields, present, values).value);
        Regrouped(before, MarkerBytes(marker, CURRENT), CurrentBody(codec, fields, values).value);
      }
    }

    /** `write_chapter_insert_row` */
    method WriteInsertRow(fields: seq<Field>, values: seq<Value>, marker: Marker) returns (ok: bool)
      requires |values| == |fields|
      modifies this
      ensures ok <==> InsertBody(codec, fields, values).Ok?
      ensures ok ==> out == old(out) + (MarkerBytes(marker, INSERT) + InsertBody(codec, fields, values).value)
    {
      ghost var before := out;
      WriteMarker(marker, INSERT);
      ghost var marked := out;
      WriteMasks(fields, values);
      ok := WriteValues(fields, values, false);
      if ok {
        ghost var present := PresentBits(fields, values);
        Regrouped(marked, Masks.Mask(present, false) + Masks.Mask(NullBits(fields, values), false), EncodePresent(codec, fields, present, values).value);
        Regrouped(before, MarkerBytes(marker, INSERT), InsertBody(codec, fields, values).value);
      }
    }

    /** `write_chapter_update_values`: the changed cells are collected first, then written. */
    method WriteUpdateValues(fields: seq<Field>, values: seq<Value>, updated: seq<Value>) returns (ok: bool)
      requires |values| == |updated| == |fields|
      modifies this
      ensures ok <==> UpdateBody(codec, fields, Delta(fields, values, updated)).Ok?
      ensures ok ==> out == old(out) + UpdateBody(codec, fields, Delta(fields, values, updated)).value
    {
      var changed: seq<Value> := [];
      for i := 0 to |fields|
        invariant out == old(out) && |changed| == i
        invariant forall k | 0 <= k < i :: changed[k] == Delta(fields, values, updated)[k]
      {
        changed := changed + [if fields[i].IsChapter() || values[i] == updated[i] then Unavailable else updated[i]];
      }
      assert changed == Delta(fields, values, updated);
      ghost var before := out;
      WriteMasks(fields, changed);
      ok := WriteValues(fields, changed, true);
      if ok {
        ghost var present := PresentBits(fields, changed);
        Regrouped(before, Masks.Mask(present, false) + Masks.Mask(NullBits(fields, changed), false), EncodePresent(codec, fields, present, changed).value);
      }
    }

    /** `write_chapter_row_change` of a current, inserted or deleted row. */
    method WriteSingleRow(fields: seq<Field>, marker: Marker, image: RowImage) returns (ok: bool)
      requires Arity(fields, image) && !image.Edit?
      modifies this
      ensures ok <==> EncodeChapterRow(codec, fields, marker, image).Ok?
      ensures ok ==> out == old(out) + EncodeChapterRow(codec, fields, marker, image).value
    {
      ghost var before := out;
      if image.Add? {
        ok := WriteInsertRow(fields, image.values, marker);
      } else {
        ok := WriteCurrentRow(fields, image.values, marker);
        if ok && image.Drop? {
          WriteMarker(marker, DELETE);
          Regrouped(before, MarkerBytes(marker, CURRENT) + CurrentBody(codec, fields, image.values).value, MarkerBytes(marker, DELETE));
        }
      }
    }

    /** `write_chapter_row_change` of an original and updated row. */
    method WritePair(fields: seq<Field>, marker: Marker, image: RowImage) returns (ok: bool)
      requires Arity(fields, image) && image.Edit?
      modifies this
      ensures ok <==> EncodeChapterRow(codec, fields, marker, image).Ok?
      ensures ok ==> out == old(out) + EncodeChapterRow(codec, fields, marker, image).value
    {
      ghost var before := out;
      ok := WriteCurrentRow(fields, image.values, marker);
      if ok {
        WriteMarker(marker, UPDATE);
        ok := WriteUpdateValues(fields, image.values, image.updated);
        if ok {
          FourParts(before, MarkerBytes(marker, CURRENT) + CurrentBody(codec, fields, image.values).value, MarkerBytes(marker, UPDATE),
                    UpdateBody(codec, fields, Delta(fields, image.values, image.updated)).value);
        }
      }
    }

    method WriteRow(fields: seq<Field>, marker: Marker, image: RowImage) returns (ok: bool)
      requires Arity(fields, image)
      modifies this
      ensures ok <==> EncodeChapterRow(codec, fields, marker, image).Ok?
      ensures ok ==> out == old(out) + EncodeChapterRow(codec, fields, marker, image).value
    {
      if image.Edit? {
        ok := WritePair(fields, marker, image);
      } else {
        ok := WriteSingleRow(fields, marker, image);
      }
    }

    method WriteRows(fields: seq<Field>, marker: Marker, images: seq<RowImage>) returns (ok: bool)
      requires forall x | x in images :: Arity(fields, x)
      modifies this
      ensures ok <==> EncodeChapterRows(codec, fields, marker, images).Ok?
      ensures ok ==> out == old(out) + EncodeChapterRows(codec, fields, marker, images).value
    {
      ThenUnit(Ok(out));
      for k := 0 to |images|
        invariant Ok(out) == Then(Ok(old(out)), EncodeChapterRows(codec, fields, marker, images[..k]))
      {
        NextChapterRow(codec, fields, marker, images, k, old(out));
        assert images[k] in images;
        var written := WriteRow(fields, marker, images[k]);
        if !written {
          return false;
        }
      }
      assert images[..|images|] == images;
      return true;
    }

    method WriteChildren(s: Schema, rss: seq<Recordset>) returns (ok: bool)
      requires GroupsValid(s, rss)
      modifies this
      ensures ok <==> WriteChildGroups(codec, s, rss, 0).Ok?
      ensures ok ==> out == old(out) + WriteChildGroups(codec, s, rss, 0).value
      decreases s, 0, 2
    {
      ghost var goals := seq(|s.children| + 1, i requires 0 <= i <= |s.children| => WriteChildGroups(codec, s, rss, i));
      forall i | 0 <= i < |s.children| ensures goals[i] == Then(ChildGroup(codec, s, rss, i), goals[i + 1]) {
        NextChildGroup(codec, s, rss, i);
      }
      ok := WriteEachChild(s, rss, goals);
    }

    /** The loop over the child schemas; `goals[i]` is what the groups from i on amount to. */
    method WriteEachChild(s: Schema, rss: seq<Recordset>, ghost goals: seq<Result<seq<byte>>>) returns (ok: bool)
      requires GroupsValid(s, rss)
      requires |goals| == |s.children| + 1 && goals[|s.children|] == Ok([])
      requires forall i | 0 <= i < |s.children| :: goals[i] == Then(ChildGroup(codec, s, rss, i), goals[i + 1])
      modifies this
      ensures ok <==> goals[0].Ok?
      ensures ok ==> out == old(out) + goals[0].value
      decreases s, 0, 1
    {
      for i := 0 to |s.children|
        invariant Then(Ok(old(out)), goals[0]) == Then(Ok(out), goals[i])
      {
        ThenAssociative(Ok(out), ChildGroup(codec, s, rss, i), goals[i + 1]);
        var written := WriteChild(s, rss, i);
        if !written {
          return false;
        }
      }
      ThenUnit(Ok(out));
      return true;
    }

    method WriteChild(s: Schema, rss: seq<Recordset>, i: nat) returns (ok: bool)
      requires GroupsValid(s, rss) && i < |s.children|
      modifies this
      ensures ok <==> ChildGroup(codec, s, rss, i).Ok?
      ensures ok ==> out == old(out) + ChildGroup(codec, s, rss, i).value
      decreases s, 0, 0
    {
      var nested := CollectChildRecordsets(rss, s.children[i].fieldIndex);
      ok := WriteGroup(s.children[i].schema, nested, Child(s.children[i].schema.groupId));
    }

    /** `write_chapter_row_groups` */
    method WriteGroup(s: Schema, rss: seq<Recordset>, marker: Marker) returns (ok: bool)
      requires GroupsValid(s, rss)
      modifies this
      ensures ok <==> WriteGroups(codec, s, rss, marker).Ok?
      ensures ok ==> out == old(out) + WriteGroups(codec, s, rss, marker).value
      decreases s, 1
    {
      var images := CollectRowChanges(rss, s.fields);
      ChangesFit(s.fields, rss);
      GroupUnfold(codec, s, rss, marker, out);
      ok := WriteRows(s.fields, marker, images);
      if ok {
        ok := WriteChildren(s, rss);
      }
    }
  }

  lemma FourParts(before: seq<byte>, current: seq<byte>, marker: seq<byte>, pending: seq<byte>)
    ensures before + current + marker + pending == before + (current + marker + pending)
  {
  }

  lemma GroupUnfold(codec: ValueCodec, s: Schema, rss: seq<Recordset>, marker: Marker, before: seq<byte>)
    ensures var rows, children := EncodeChapterRows(codec, s.fields, marker, ChapterRowChanges(rss, s.fields)), WriteChildGroups(codec, s, rss, 0);
            && (WriteGroups(codec, s, rss, marker).Ok? <==> rows.Ok? && children.Ok?)
            && (rows.Ok? && children.Ok? ==> before + WriteGroups(codec, s, rss, marker).value == before + rows.value + children.value)
  {
    var rows, children := EncodeChapterRows(codec, s.fields, marker, ChapterRowChanges(rss, s.fields)), WriteChildGroups(codec, s, rss, 0);
    if rows.Ok? && children.Ok? {
      assert before + (rows.value + children.value) == before + rows.value + children.value;
    }
  }

  function ChildGroup(codec: ValueCodec, s: Schema, rss: seq<Recordset>, i: nat): Result<seq<byte>>
    requires i < |s.children|
  {
    var child := s.children[i];
    WriteGroups(codec, child.schema, NestedAll(rss, child.fieldIndex), Child(child.schema.groupId))
  }

  lemma NextChildGroup(codec: ValueCodec, s: Schema, rss: seq<Recordset>, i: nat)
    requires i < |s.children|
    ensures WriteChildGroups(codec, s, rss, i) == Then(ChildGroup(codec, s, rss, i), WriteChildGroups(codec, s, rss, i + 1))
  {
  }

  lemma NextChapterRow(codec: ValueCodec, fields: seq<Field>, marker: Marker, images: seq<RowImage>, k: nat, before: seq<byte>)
    requires k < |images|
    ensures Then(Ok(before), EncodeChapterRows(codec, fields, marker, images[..k + 1]))
            == Then(Then(Ok(before), EncodeChapterRows(codec, fields, marker, images[..k])), EncodeChapterRow(codec, fields, marker, images[k]))
    ensures EncodeChapterRow(codec, fields, marker, images[k]).Err? ==> EncodeChapterRows(codec, fields, marker, images).Err?
  {
    var one := [images[k]];
    assert images[..k + 1] == images[..k] + one && images == images[..k] + (one + images[k + 1..]);
    EncodeChapterRowsSplit(codec, fields, marker, images[..k], one);
    EncodeChapterRowsSplit(codec, fields, marker, images[..k], one + images[k + 1..]);
    EncodeChapterRowsSplit(codec, fields, marker, one, images[k + 1..]);
    assert one[1..] == [];
    ThenUnit(EncodeChapterRow(codec, fields, marker, images[k]));
    ThenAssociative(Ok(before), EncodeChapterRows(codec, fields, marker, images[..k]), EncodeChapterRow(codec, fields, marker, images[k]));
  }

  // ---------------------------------------------------------------- the whole writer

  /** Each child schema has the fields its column declares. */
  predicate ChildFieldsMatch(s: Schema)
    decreases s
  {
    forall i | 0 <= i < |s.children| ::
      && s.children[i].fieldIndex < |s.fields|
      && s.fields[s.children[i].fieldIndex].chapter.Some?
      && s.fields[s.children[i].fieldIndex].chapter.value.fields == s.children[i].schema.fields
      && ChildFieldsMatch(s.children[i].schema)
  }

  predicate ChildrenMatch(fields: seq<Field>, children: seq<ChildSchema>) {
    forall i | 0 <= i < |children| ::
      && children[i].fieldIndex < |fields|
      && fields[children[i].fieldIndex].chapter.Some?
      && fields[children[i].fieldIndex].chapter.value.fields == children[i].schema.fields
      && ChildFieldsMatch(children[i].schema)
  }

  lemma {:induction false} AdtgSchemaMatches(fields: seq<Field>, groupId: nat, next: nat)
    requires AdtgSchema(fields, groupId, next).Ok?
    ensures AdtgSchema(fields, groupId, next).value.0.fields == fields && ChildFieldsMatch(AdtgSchema(fields, groupId, next).value.0)
    decreases fields, |fields| + 1
  {
    AdtgChildrenMatch(fields, 0, next);
  }

  lemma {:induction false} AdtgChildrenMatch(fields: seq<Field>, from: nat, next: nat)
    requires from <= |fields| && AdtgChildren(fields, from, next).Ok?
    ensures ChildrenMatch(fields, AdtgChildren(fields, from, next).value.0)
    decreases fields, |fields| - from
  {
    if from < |fields| {
      if !fields[from].IsChapter() {
        AdtgChildrenMatch(fields, from + 1, next);
      } else {
        var inner := fields[from].chapter.value.fields;
        AdtgSchemaMatches(inner, next, next + 1);
        var child := AdtgSchema(inner, next, next + 1).value;
        AdtgChildrenMatch(fields, from + 1, child.1);
        var rest := AdtgChildren(fields, from + 1, child.1).value.0;
        assert AdtgChildren(fields, from, next).value.0 == [ChildSchema(from, [], child.0)] + rest;
      }
    }
  }

  lemma {:induction false} ImagesTree(fields: seq<Field>, rs: Recordset, from: nat)
    requires TreeValid(fields, rs) && from <= |rs.changes|
    ensures forall x | x in ImagesFrom(rs, rs.changes[from..]) :: ImageTreeValid(fields, x)
    decreases |rs.changes| - from
  {
    if from < |rs.changes| {
      var change := rs.changes[from];
      ImagesTree(fields, rs, from + 1);
      assert rs.changes[from..][1..] == rs.changes[from + 1..];
      assert ChangeLinked(rs, from) && |StatesOf(rs, change.rowIndices)| == |change.rowIndices|;
      forall k | 0 <= k < |change.rowIndices| ensures RowTreeValid(fields, rs.rows[change.rowIndices[k]]) {
      }
      assert forall x | x in ChangeImages(rs, change) :: ImageTreeValid(fields, x);
    }
  }

  lemma {:induction false} AllImagesTree(fields: seq<Field>, rss: seq<Recordset>)
    requires forall i | 0 <= i < |rss| :: TreeValid(fields, rss[i])
    ensures forall x | x in AllImages(rss) :: ImageTreeValid(fields, x)
  {
    if rss != [] {
      AllImagesTree(fields, rss[1..]);
      assert rss[0].changes[0..] == rss[0].changes;
      ImagesTree(fields, rss[0], 0);
    }
  }

  lemma {:induction false} NestedTree(fields: seq<Field>, images: seq<RowImage>, field: nat)
    requires field < |fields| && fields[field].chapter.Some?
    requires forall x | x in images :: ImageTreeValid(fields, x)
    ensures forall rs | rs in Nested(images, field) :: TreeValid(fields[field].chapter.value.fields, rs)
  {
    if images != [] {
      NestedTree(fields, images[1..], field);
      var first := images[0];
      assert ImageTreeValid(fields, first);
      forall rs | rs in RowChapters(first, field) ensures TreeValid(fields[field].chapter.value.fields, rs) {
        if rs in Cell(first.values, field) {
          assert CellTreeValid(fields[field], first.values[field]);
        } else {
          assert CellTreeValid(fields[field], first.updated[field]);
        }
      }
    }
  }

  /** On a valid tree no lookup of the writer fails, at any depth. */
  lemma {:induction false} ValidTreeFits(s: Schema, rss: seq<Recordset>)
    requires ChildFieldsMatch(s) && forall i | 0 <= i < |rss| :: TreeValid(s.fields, rss[i])
    ensures GroupsValid(s, rss)
    decreases s
  {
    forall i | 0 <= i < |s.children| ensures GroupsValid(s.children[i].schema, NestedAll(rss, s.children[i].fieldIndex)) {
      AllImagesTree(s.fields, rss);
      NestedTree(s.fields, AllImages(rss), s.children[i].fieldIndex);
      ValidTreeFits(s.children[i].schema, NestedAll(rss, s.children[i].fieldIndex));
    }
  }

  /** `write_adtg_with_options` for a shaped Recordset, from the first row byte to the terminator. */
  method WriteShaped(codec: ValueCodec, fields: seq<Field>, rs: Recordset) returns (r: Result<seq<byte>>)
    ensures r == WriteChaptered(codec, fields, rs)
  {
    if !SchemasValid(fields) || !TreeValid(fields, rs) {
      return Err;
    }
    var schema := BuildAdtgSchema(fields, 0, 2);
    if schema.Err? {
      return Err;
    }
    AdtgSchemaMatches(fields, 0, 2);
    ValidTreeFits(schema.value.0, [rs]);
    var writer := new GroupWriter(codec);
    var ok := writer.WriteGroup(schema.value.0, [rs], Root);
    if !ok {
      return Err;
    }
    assert [] + WriteGroups(codec, schema.value.0, [rs], Root).value == WriteGroups(codec, schema.value.0, [rs], Root).value;
    writer.out := writer.out + [END];
    return Ok(writer.out);
  }

  // ---------------------------------------------------------------- reading and filling in

  /** `read_chapter_row_marker_prefix` at the cursor: it moves only if the marker is this group's. */
  method TakeMarker(reader: RowReader, marker: Marker, code: byte) returns (found: bool)
    requires reader.Valid() && code < 0x80
    modifies reader
    ensures reader.Valid()
    ensures found <==> ReadMarker(old(reader.Rest()), marker, code).Some?
    ensures reader.Rest() == if found then ReadMarker(old(reader.Rest()), marker, code).value else old(reader.Rest())
  {
    var rest := reader.bytes[reader.offset..];
    if rest == [] {
      return false;
    }
    match marker {
      case Root =>
        if rest[0] != code {
          return false;
        }
        reader.Advance();
      case Child(groupId) =>
        if rest[0] != code + 0x80 || |rest| < 5 || FromLittleEndian(rest[1..5]) != groupId {
          return false;
        }
        reader.offset := reader.offset + 5;
        assert reader.bytes[reader.offset..] == rest[5..];
    }
    return true;
  }

  /** Whether the next byte is this marker code of the group's kind. */
  predicate AtCode(reader: RowReader, marker: Marker, code: byte)
    requires reader.Valid() && code < 0x80
    reads reader
  {
    reader.At(if marker.Root? then code else code + 0x80)
  }

  lemma AtCodeIsHasCode(reader: RowReader, marker: Marker, code: byte)
    requires reader.Valid() && code < 0x80
    ensures AtCode(reader, marker, code) == HasCode(reader.Rest(), marker, code)
  {
  }

  /** What follows the values of a row that began with the group's current marker. */
  method TakeFinish(reader: RowReader, marker: Marker, values: seq<Value>) returns (r: Result<RowImage>)
    requires reader.Valid()
    modifies reader
    ensures reader.Valid()
    ensures var goal := FinishChapterRow(reader.codec, reader.fields, marker, values, old(reader.Rest()));
            (r.Ok? <==> goal.Ok?) && (r.Ok? ==> goal.value == (r.value, reader.Rest()))
  {
    AtCodeIsHasCode(reader, marker, UPDATE);
    AtCodeIsHasCode(reader, marker, DELETE);
    if AtCode(reader, marker, UPDATE) {
      var found := TakeMarker(reader, marker, UPDATE);
      if !found {
        return Err;
      }
      var updated := reader.TakeUpdateValues();
      if updated.Err? {
        return Err;
      }
      r := Ok(Edit(values, updated.value));
    } else if AtCode(reader, marker, DELETE) {
      var found := TakeMarker(reader, marker, DELETE);
      if !found {
        return Err;
      }
      r := Ok(Drop(values));
    } else {
      r := Ok(Keep(values));
    }
  }

  /** The branch of a row behind the group's current marker. */
  method TakeCurrentRow(reader: RowReader, marker: Marker) returns (r: Result<RowImage>)
    requires reader.Valid()
    modifies reader
    ensures reader.Valid()
    ensures var row := ReadCurrent(reader.codec, reader.fields, old(reader.Rest()));
            if row.Err? then r.Err?
            else
              var goal := FinishChapterRow(reader.codec, reader.fields, marker, row.value.0, row.value.1);
              (r.Ok? <==> goal.Ok?) && (r.Ok? ==> goal.value == (r.value, reader.Rest()))
  {
    var present := reader.TakePresence();
    if present.Err? {
      return Err;
    }
    var values := reader.TakeValues(present.value);
    if values.Err? {
      return Err;
    }
    r := TakeFinish(reader, marker, values.value);
  }

  method TakeInsertedRow(reader: RowReader) returns (r: Result<RowImage>)
    requires reader.Valid()
    modifies reader
    ensures reader.Valid()
    ensures var row := ReadInsert(reader.codec, reader.fields, old(reader.Rest()));
            (r.Ok? <==> row.Ok?) && (r.Ok? ==> (Add(row.value.0), row.value.1) == (r.value, reader.Rest()))
  {
    var masks := reader.TakeValueMasks(true);
    if masks.Err? {
      return Err;
    }
    var values := reader.TakeValues(masks.value.0);
    if values.Err? {
      return Err;
    }
    r := Ok(Add(values.value));
  }

  /** `read_chapter_row` at the cursor. */
  method TakeChapterRow(reader: RowReader, marker: Marker) returns (r: Result<Option<RowImage>>)
    requires reader.Valid()
    modifies reader
    ensures reader.Valid()
    ensures var goal := ReadChapterRow(reader.codec, reader.fields, marker, old(reader.Rest()));
            && (r.Ok? <==> goal.Ok?)
            && (r.Ok? ==> (r.value.Some? <==> goal.value.Some?))
            && (r.Ok? && r.value.Some? ==> goal.value.value == (r.value.value, reader.Rest()))
            && (r.Ok? && r.value.None? ==> reader.Rest() == old(reader.Rest()))
  {
    var current := TakeMarker(reader, marker, CURRENT);
    if current {
      var row := TakeCurrentRow(reader, marker);
      return if row.Ok? then Ok(Some(row.value)) else Err;
    }
    var insert := TakeMarker(reader, marker, INSERT);
    if !insert {
      return Ok(None);
    }
    var row := TakeInsertedRow(reader);
    return if row.Ok? then Ok(Some(row.value)) else Err;
  }

  /** `read_current_chapter_rows`: read rows while the next bytes start one. */
  method ReadRowsOfGroup(codec: ValueCodec, fields: seq<Field>, marker: Marker, bytes: seq<byte>, offset: nat)
    returns (r: Result<(seq<RowImage>, nat)>)
    requires offset <= |bytes|
    ensures r.Ok? <==> ReadChapterRows(codec, fields, marker, bytes[offset..]).Ok?
    ensures r.Ok? ==> r.value.1 <= |bytes|
                      && ReadChapterRows(codec, fields, marker, bytes[offset..]) == Ok((r.value.0, bytes[r.value.1..]))
  {
    var reader := new RowReader(codec, fields, bytes);
    reader.offset := offset;
    var rows := [];
    ghost var goal := ReadChapterRows(codec, fields, marker, bytes[offset..]);
    PrependNothing([], goal);
    while true
      invariant reader.Valid() && reader.codec == codec && reader.fields == fields && reader.bytes == bytes
      invariant goal == Prepend(rows, ReadChapterRows(codec, fields, marker, reader.Rest()))
      decreases |reader.Rest()|
    {
      ghost var ahead := reader.Rest();
      var row := TakeChapterRow(reader, marker);
      RowsUnfold(codec, fields, marker, ahead, ReadChapterRow(codec, fields, marker, ahead));
      if row.Err? {
        return Err;
      }
      if row.value.None? {
        PrependNothing(rows, Ok(([], ahead)));
        return Ok((rows, reader.offset));
      }
      PrependOne(rows, row.value.value, ReadChapterRows(codec, fields, marker, reader.Rest()));
      rows := rows + [row.value.value];
    }
  }

  /** `read_chapter_row_group`: the rows of this schema, then one group per child. */
  method ReadGroupAt(codec: ValueCodec, s: Schema, marker: Marker, bytes: seq<byte>, offset: nat)
    returns (r: Result<(Pools, nat)>)
    requires offset <= |bytes|
    ensures r.Ok? <==> ReadGroup(codec, s, marker, bytes[offset..]).Ok?
    ensures r.Ok? ==> r.value.1 <= |bytes| && ReadGroup(codec, s, marker, bytes[offset..]) == Ok((r.value.0, bytes[r.value.1..]))
    decreases s, 1
  {
    var rows := ReadRowsOfGroup(codec, s.fields, marker, bytes, offset);
    if rows.Err? {
      return Err;
    }
    var children := ReadChildrenAt(codec, s, bytes, rows.value.1);
    if children.Err? {
      return Err;
    }
    return Ok((Pools(rows.value.0, children.value.0), children.value.1));
  }

  function PoolsThen(pools: seq<Pools>, rest: Result<(seq<Pools>, seq<byte>)>): Result<(seq<Pools>, seq<byte>)> {
    if rest.Ok? then Ok((pools + rest.value.0, rest.value.1)) else Err
  }

  lemma PoolsThenOne(pools: seq<Pools>, one: Pools, rest: Result<(seq<Pools>, seq<byte>)>)
    ensures PoolsThen(pools, PoolsThen([one], rest)) == PoolsThen(pools + [one], rest)
  {
    if rest.Ok? {
      assert pools + ([one] + rest.value.0) == pools + [one] + rest.value.0;
    }
  }

  lemma PoolsThenNone(rest: Result<(seq<Pools>, seq<byte>)>)
    ensures PoolsThen([], rest) == rest
  {
    if rest.Ok? {
      assert [] + rest.value.0 == rest.value.0;
    }
  }

  method ReadChildrenAt(codec: ValueCodec, s: Schema, bytes: seq<byte>, offset: nat) returns (r: Result<(seq<Pools>, nat)>)
    requires offset <= |bytes|
    ensures r.Ok? <==> ReadChildGroups(codec, s, 0, bytes[offset..]).Ok?
    ensures r.Ok? ==> r.value.1 <= |bytes| && ReadChildGroups(codec, s, 0, bytes[offset..]) == Ok((r.value.0, bytes[r.value.1..]))
    decreases s, 0
  {
    var next: nat := offset;
    var pools: seq<Pools> := [];
    PoolsThenNone(ReadChildGroups(codec, s, 0, bytes[offset..]));
    for i := 0 to |s.children|
      invariant next <= |bytes|
      invariant ReadChildGroups(codec, s, 0, bytes[offset..]) == PoolsThen(pools, ReadChildGroups(codec, s, i, bytes[next..]))
    {
      var child := s.children[i].schema;
      var head := ReadGroupAt(codec, child, Child(child.groupId), bytes, next);
      if head.Err? {
        return Err;
      }
      PoolsThenOne(pools, head.value.0, ReadChildGroups(codec, s, i + 1, bytes[head.value.1..]));
      pools := pools + [head.value.0];
      next := head.value.1;
    }
    assert pools + [] == pools;
    return Ok((pools, next));
  }

  /** `read_chapter_row_tree`: the terminator, if there, must be the last byte. */
  method ReadWholeTree(codec: ValueCodec, s: Schema, bytes: seq<byte>) returns (r: Result<Pools>)
    ensures r == ReadTree(codec, s, bytes)
  {
    assert bytes[0..] == bytes;
    var root := ReadGroupAt(codec, s, Root, bytes, 0);
    if root.Err? {
      return Err;
    }
    var next := root.value.1;
    ghost var left := bytes[next..];
    if next < |bytes| && bytes[next] == END {
      next := next + 1;
      assert left[1..] == bytes[next..];
    }
    return if next == |bytes| then Ok(root.value.0) else Err;
  }

  lemma RowsUnfold(codec: ValueCodec, fields: seq<Field>, marker: Marker, bytes: seq<byte>, row: Result<Option<(RowImage, seq<byte>)>>)
    requires row == ReadChapterRow(codec, fields, marker, bytes)
    ensures row.Err? ==> ReadChapterRows(codec, fields, marker, bytes).Err?
    ensures row.Ok? && row.value.None? ==> ReadChapterRows(codec, fields, marker, bytes) == Ok(([], bytes))
    ensures row.Ok? && row.value.Some? ==>
              ReadChapterRows(codec, fields, marker, bytes)
              == Prepend([row.value.value.0], ReadChapterRows(codec, fields, marker, row.value.value.1))
  {
  }

  /** `materialize_chapter_row_values`: overwrite each chapter cell with its joined rows. */
  method FillChapters(s: Schema, kids: seq<Pools>, values: seq<Value>, key: seq<Value>) returns (filled: seq<Value>)
    requires SchemaValid(s) && |kids| == |s.children| && |values| == |s.fields|
    ensures filled == Fill(s, kids, values, key)
  {
    filled := values;
    for i := 0 to |s.children|
      invariant |filled| == |values|
      invariant forall j | 0 <= j < |values| ::
                  filled[j] == if s.fields[j].IsChapter() && ChildIndex(s.fields, j) < i
                               then Chapter(Joined(s, kids, ChildIndex(s.fields, j), key)) else values[j]
    {
      var child := s.children[i];
      var rows := JoinRows(s, kids, i, key);
      forall j | 0 <= j < |values| && s.fields[j].IsChapter() && ChildIndex(s.fields, j) == i ensures j == child.fieldIndex {
        if j < child.fieldIndex {
          ChildIndexMonotone(s.fields, j, child.fieldIndex);
        } else if child.fieldIndex < j {
          ChildIndexMonotone(s.fields, child.fieldIndex, j);
        }
      }
      filled := filled[child.fieldIndex := Chapter(rows)];
    }
    forall j | 0 <= j < |values| && s.fields[j].IsChapter() ensures ChildIndex(s.fields, j) < |s.children| {
      ChildIndexMonotone(s.fields, j, |s.fields|);
    }
  }

  lemma NextMatching(relation: seq<RelationPair>, key: seq<Value>, rows: seq<RowImage>, k: nat)
    requires k < |rows|
    ensures Matching(relation, key, rows[..k + 1])
            == Matching(relation, key, rows[..k]) + if Matches(relation, key, rows[k].Effective()) then [rows[k]] else []
  {
    assert rows[..k + 1] == rows[..k] + [rows[k]];
    MatchingAppend(relation, key, rows[..k], [rows[k]]);
    MatchingFirst(relation, key, rows[k], []);
    assert [rows[k]] + [] == [rows[k]];
  }

  lemma NextJoined(s: Schema, kids: seq<Pools>, taken: seq<RowImage>, row: RowImage)
    ensures ToGraph(MaterializeRows(s, kids, taken + [row])) == Push(ToGraph(MaterializeRows(s, kids, taken)), MaterializeRow(s, kids, row))
  {
    assert MaterializeRows(s, kids, taken + [row]) == MaterializeRows(s, kids, taken) + [MaterializeRow(s, kids, row)];
    ToGraphSnoc(MaterializeRows(s, kids, taken), MaterializeRow(s, kids, row));
  }

  /** `child_recordset_for_relation`: push the materialized rows that match the parent. */
  method JoinRows(s: Schema, kids: seq<Pools>, i: nat, key: seq<Value>) returns (rs: Recordset)
    requires i < |s.children| && i < |kids|
    ensures rs == Joined(s, kids, i, key)
  {
    var child, pool := s.children[i], kids[i];
    rs := EmptyRecordset;
    ghost var taken: seq<RowImage> := [];
    for k := 0 to |pool.rows|
      invariant taken == Matching(child.relation, key, pool.rows[..k])
      invariant rs == ToGraph(MaterializeRows(child.schema, pool.children, taken))
    {
      var row := pool.rows[k];
      NextMatching(child.relation, key, pool.rows, k);
      if Matches(child.relation, key, row.Effective()) {
        var image := MaterializeRow(child.schema, pool.children, row);
        NextJoined(child.schema, pool.children, taken, row);
        rs := Push(rs, image);
        taken := taken + [row];
      }
    }
    assert pool.rows[..|pool.rows|] == pool.rows;
  }
}
