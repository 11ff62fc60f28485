/** One row as an XML attribute list, and the row read back from it. */
module UpdategramRows {
  import opened Prelude
  import opened Text
  import opened AttributeText
  import opened RecordsetModel
  import opened Updategram

  /** `value_to_xml_text` and `parse_value`; what they do to one value stays abstract. */
  datatype XmlCodec = XmlCodec(render: (Value, Field) -> Result<string>, parse: (string, Field) -> Result<Value>)

  const FORCE_NULL := "rs:forcenull"

  // ---------------------------------------------------------------- writing

  /** Cells that leave no attribute: nulls, and empty values of nullable variant columns. */
  predicate WritesNull(field: Field, value: Value) {
    value == Null || (value == Empty && field.typeCode == 12 && field.nullable)
  }

  datatype CellText = Shown(text: string) | Forced | Absent

  function WriteCell(codec: XmlCodec, field: Field, value: Value, state: RowState): Result<CellText> {
    if field.IsChapter() then Err // nested chapter elements are not part of this model
    else if value == Unavailable then Ok(Absent)
    else if WritesNull(field, value) then
      if !field.nullable then Err else Ok(if state == Updated then Forced else Absent)
    else
      var text :- codec.render(value, field);
      if IsXmlText(text) then Ok(Shown(text)) else Err
  }

  /** The attributes of the first cells. */
  function CellAttributes(fields: seq<Field>, cells: seq<CellText>): seq<Attribute>
    requires |cells| <= |fields|
  {
    if cells == [] then []
    else
      var last := |cells| - 1;
      CellAttributes(fields, cells[..last])
      + (if cells[last].Shown? then [Attribute(fields[last].xmlName, cells[last].text)] else [])
  }

  function ForcedNames(fields: seq<Field>, cells: seq<CellText>): seq<string>
    requires |cells| <= |fields|
  {
    if cells == [] then []
    else
      var last := |cells| - 1;
      ForcedNames(fields, cells[..last]) + (if cells[last].Forced? then [fields[last].xmlName] else [])
  }

  function CellsWritten(codec: XmlCodec, fields: seq<Field>, values: seq<Value>, state: RowState): (r: Result<seq<CellText>>)
    requires |values| <= |fields|
    ensures r.Ok? ==> |r.value| == |values|
  {
    if values == [] then Ok([])
    else
      var last := |values| - 1;
      var init :- CellsWritten(codec, fields, values[..last], state);
      var cell :- WriteCell(codec, fields[last], values[last], state);
      Ok(init + [cell])
  }

  function RowAttributes(fields: seq<Field>, cells: seq<CellText>): Result<seq<Attribute>>
    requires |cells| <= |fields|
  {
    var names := ForcedNames(fields, cells);
    if names == [] then Ok(CellAttributes(fields, cells))
    else if !IsXmlText(Join(names, ' ')) then Err
    else Ok(CellAttributes(fields, cells) + [Attribute(FORCE_NULL, Join(names, ' '))])
  }

  /** `write_row`: the attributes of a row element, or the writer's refusal. */
  function WriteRow(codec: XmlCodec, fields: seq<Field>, values: seq<Value>, state: RowState): Result<seq<Attribute>>
    requires |values| == |fields|
  {
    var cells :- CellsWritten(codec, fields, values, state);
    RowAttributes(fields, cells)
  }

  /** The writer's loop over the cells, pushing attributes and collecting forced names. */
  method WriteRowLoop(codec: XmlCodec, fields: seq<Field>, values: seq<Value>, state: RowState)
    returns (r: Result<seq<Attribute>>)
    requires |values| == |fields|
    ensures r == WriteRow(codec, fields, values, state)
  {
    var out: seq<Attribute>, forced: seq<string> := [], [];
    ghost var cells: seq<CellText> := [];
    for i := 0 to |values|
      invariant |cells| == i && CellsWritten(codec, fields, values[..i], state) == Ok(cells)
      invariant out == CellAttributes(fields, cells) && forced == ForcedNames(fields, cells)
    {
      assert values[..i + 1][..i] == values[..i];
      var cell := WriteCell(codec, fields[i], values[i], state);
      if cell.Err? {
        CellFails(codec, fields, values, state, i);
        return Err;
      }
      ghost var next := cells + [cell.value];
      assert next[..i] == cells;
      if cell.value.Shown? {
        out := out + [Attribute(fields[i].xmlName, cell.value.text)];
      } else if cell.value.Forced? {
        forced := forced + [fields[i].xmlName];
      }
      cells := next;
    }
    assert values[..|values|] == values;
    if forced == [] {
      return Ok(out);
    }
    var names := Join(forced, ' ');
    return if IsXmlText(names) then Ok(out + [Attribute(FORCE_NULL, names)]) else Err;
  }

  lemma {:induction false} CellFails(codec: XmlCodec, fields: seq<Field>, values: seq<Value>, state: RowState, i: nat)
    requires |values| <= |fields| && i < |values| && WriteCell(codec, fields[i], values[i], state).Err?
    ensures CellsWritten(codec, fields, values, state).Err?
  {
    if i < |values| - 1 {
      CellFails(codec, fields, values[..|values| - 1], state, i);
    }
  }

  lemma {:induction false} CellsAre(codec: XmlCodec, fields: seq<Field>, values: seq<Value>, state: RowState)
    requires |values| <= |fields| && CellsWritten(codec, fields, values, state).Ok?
    ensures var cells := CellsWritten(codec, fields, values, state).value;
            && |cells| == |values|
            && forall i | 0 <= i < |values| :: WriteCell(codec, fields[i], values[i], state) == Ok(cells[i])
  {
    if values != [] {
      CellsAre(codec, fields, values[..|values| - 1], state);
    }
  }

  // ---------------------------------------------------------------- reading

  /** `raw_attributes_from_list`: unprefixed attributes by lower-case name, the last one wins. */
  function RawAttributes(attrs: seq<Attribute>): map<string, string> {
    if attrs == [] then map[]
    else
      var last := attrs[|attrs| - 1];
      var before := RawAttributes(attrs[..|attrs| - 1]);
      if ':' in last.name || Lower(last.name) == "xmlns" then before else before[Lower(last.name) := last.value]
  }

  function FindAttribute(attrs: seq<Attribute>, name: string): Option<string> {
    if attrs == [] then None
    else if attrs[0].name == name then Some(attrs[0].value)
    else FindAttribute(attrs[1..], name)
  }

  /** `force_null_fields` */
  function ForceNullFields(attrs: seq<Attribute>): seq<string> {
    match FindAttribute(attrs, FORCE_NULL)
    case None => []
    case Some(value) => Words(value)
  }

  /** A childless row element carrying these attributes. */
  function ContentOf(attrs: seq<Attribute>): RowContent {
    RowContent(RawAttributes(attrs), ForceNullFields(attrs), [])
  }

  /** `force_null_matches_field` */
  predicate ForceNullMatches(names: seq<string>, field: Field) {
    exists i | 0 <= i < |names| :: Lower(names[i]) == Lower(field.xmlName)
  }

  function ParseCell(codec: XmlCodec, field: Field, content: RowContent, state: RowState): Result<Value> {
    if Lower(field.xmlName) in content.attrs then codec.parse(content.attrs[Lower(field.xmlName)], field)
    else if ForceNullMatches(content.forceNull, field) then if field.nullable then Ok(Null) else Err
    else if state == Updated then Ok(Unavailable)
    else if field.nullable then Ok(Null)
    else Err
  }

  function ParseCells(codec: XmlCodec, fields: seq<Field>, content: RowContent, state: RowState): Result<seq<Value>> {
    if fields == [] then Ok([])
    else
      var init :- ParseCells(codec, fields[..|fields| - 1], content, state);
      var value :- ParseCell(codec, fields[|fields| - 1], content, state);
      Ok(init + [value])
  }

  /** `push_row` up to the push */
  function ParseRow(codec: XmlCodec, fields: seq<Field>, content: RowContent, state: RowState): Result<seq<Value>> {
    if content.children != [] then Err else ParseCells(codec, fields, content, state)
  }

  method ParseRowLoop(codec: XmlCodec, fields: seq<Field>, content: RowContent, state: RowState) returns (r: Result<seq<Value>>)
    ensures r == ParseRow(codec, fields, content, state)
  {
    if content.children != [] {
      return Err;
    }
    var values: seq<Value> := [];
    for i := 0 to |fields|
      invariant ParseCells(codec, fields[..i], content, state) == Ok(values)
    {
      assert fields[..i + 1][..i] == fields[..i];
      var value := ParseCell(codec, fields[i], content, state);
      if value.Err? {
        ParseFails(codec, fields, content, state, i);
        return Err;
      }
      values := values + [value.value];
    }
    assert fields[..|fields|] == fields;
    return Ok(values);
  }

  lemma {:induction false} ParseFails(codec: XmlCodec, fields: seq<Field>, content: RowContent, state: RowState, i: nat)
    requires i < |fields| && ParseCell(codec, fields[i], content, state).Err?
    ensures ParseCells(codec, fields, content, state).Err?
  {
    if i < |fields| - 1 {
      ParseFails(codec, fields[..|fields| - 1], content, state, i);
    }
  }

  lemma {:induction false} ParsedCells(codec: XmlCodec, fields: seq<Field>, content: RowContent, state: RowState)
    requires ParseCells(codec, fields, content, state).Ok?
    ensures var values := ParseCells(codec, fields, content, state).value;
            && |values| == |fields|
            && forall i | 0 <= i < |fields| :: ParseCell(codec, fields[i], content, state) == Ok(values[i])
  {
    if fields != [] {
      ParsedCells(codec, fields[..|fields| - 1], content, state);
    }
  }

  lemma {:induction false} CellsParse(codec: XmlCodec, fields: seq<Field>, content: RowContent, state: RowState, values: seq<Value>)
    requires |values| == |fields| && forall i | 0 <= i < |fields| :: ParseCell(codec, fields[i], content, state) == Ok(values[i])
    ensures ParseCells(codec, fields, content, state) == Ok(values)
  {
    if fields != [] {
      var last := |fields| - 1;
      CellsParse(codec, fields[..last], content, state, values[..last]);
      assert values == values[..last] + [values[last]];
    }
  }

  // ---------------------------------------------------------------- the attribute list as a map

  /** The writer's checks on field names: valid, and distinct whatever their case. */
  predicate FieldsNamed(fields: seq<Field>) {
    && (forall i | 0 <= i < |fields| :: IsAttributeName(fields[i].xmlName))
    && (forall i, j | 0 <= i < j < |fields| :: Lower(fields[i].xmlName) != Lower(fields[j].xmlName))
  }

  lemma NamesHaveNoColon(name: string)
    requires IsAttributeName(name)
    ensures ':' !in name && name != FORCE_NULL
  {
    assert FORCE_NULL[2] == ':';
  }

  /** Looking up a field finds its cell's text, unless the name is `xmlns`. */
  lemma {:induction false} Lookup(fields: seq<Field>, cells: seq<CellText>, i: nat)
    requires FieldsNamed(fields) && |cells| <= |fields| && i < |fields|
    ensures var attrs, key := RawAttributes(CellAttributes(fields, cells)), Lower(fields[i].xmlName);
            && (key in attrs <==> i < |cells| && cells[i].Shown? && key != "xmlns")
            && (key in attrs ==> attrs[key] == cells[i].text)
  {
    if cells != [] {
      var last := |cells| - 1;
      Lookup(fields, cells[..last], i);
      var before := CellAttributes(fields, cells[..last]);
      if cells[last].Shown? {
        var attr := Attribute(fields[last].xmlName, cells[last].text);
        NamesHaveNoColon(fields[last].xmlName);
        assert (before + [attr])[..|before|] == before;
        assert i != last ==> Lower(fields[i].xmlName) != Lower(fields[last].xmlName);
      } else {
        assert before + [] == before;
      }
    }
  }

  lemma {:induction false} ForcedAre(fields: seq<Field>, cells: seq<CellText>, i: nat)
    requires FieldsNamed(fields) && |cells| <= |fields| && i < |fields|
    ensures ForceNullMatches(ForcedNames(fields, cells), fields[i]) <==> i < |cells| && cells[i].Forced?
  {
    if cells != [] {
      var last := |cells| - 1;
      ForcedAre(fields, cells[..last], i);
      var before := ForcedNames(fields, cells[..last]);
      if cells[last].Forced? {
        MatchesAppend(before, fields[last].xmlName, fields[i]);
      } else {
        assert before + [] == before;
      }
    }
  }

  lemma MatchesAppend(names: seq<string>, name: string, field: Field)
    ensures ForceNullMatches(names + [name], field)
            <==> ForceNullMatches(names, field) || Lower(name) == Lower(field.xmlName)
  {
    var all := names + [name];
    if ForceNullMatches(names, field) {
      var k :| 0 <= k < |names| && Lower(names[k]) == Lower(field.xmlName);
      assert all[k] == names[k];
    }
    assert all[|names|] == name;
  }

  lemma {:induction false} ForcedSource(fields: seq<Field>, cells: seq<CellText>, k: nat) returns (i: nat)
    requires |cells| <= |fields| && k < |ForcedNames(fields, cells)|
    ensures i < |cells| && cells[i].Forced? && ForcedNames(fields, cells)[k] == fields[i].xmlName
  {
    var last := |cells| - 1;
    if k < |ForcedNames(fields, cells[..last])| {
      i := ForcedSource(fields, cells[..last], k);
    } else {
      i := last;
    }
  }

  lemma {:induction false} NoForceNullAmongCells(fields: seq<Field>, cells: seq<CellText>)
    requires FieldsNamed(fields) && |cells| <= |fields|
    ensures forall k | 0 <= k < |CellAttributes(fields, cells)| :: CellAttributes(fields, cells)[k].name != FORCE_NULL
  {
    if cells != [] {
      NoForceNullAmongCells(fields, cells[..|cells| - 1]);
      NamesHaveNoColon(fields[|cells| - 1].xmlName);
    }
  }

  lemma {:induction false} FindBehind(before: seq<Attribute>, attrs: seq<Attribute>, name: string)
    requires forall k | 0 <= k < |before| :: before[k].name != name
    ensures FindAttribute(before + attrs, name) == FindAttribute(attrs, name)
  {
    if before == [] {
      assert before + attrs == attrs;
    } else {
      assert (before + attrs)[1..] == before[1..] + attrs;
      FindBehind(before[1..], attrs, name);
    }
  }

  /** The content a written row presents to the reader. */
  lemma WrittenContent(fields: seq<Field>, cells: seq<CellText>)
    requires FieldsNamed(fields) && |cells| <= |fields| && RowAttributes(fields, cells).Ok?
    ensures var content := ContentOf(RowAttributes(fields, cells).value);
            && content.attrs == RawAttributes(CellAttributes(fields, cells))
            && content.forceNull == (if ForcedNames(fields, cells) == [] then [] else Words(Join(ForcedNames(fields, cells), ' ')))
            && content.children == []
  {
    var shown, names := CellAttributes(fields, cells), ForcedNames(fields, cells);
    NoForceNullAmongCells(fields, cells);
    if names == [] {
      FindBehind(shown, [], FORCE_NULL);
      assert shown + [] == shown;
    } else {
      var forced := Attribute(FORCE_NULL, Join(names, ' '));
      assert FORCE_NULL[2] == ':';
      FindBehind(shown, [forced], FORCE_NULL);
      assert (shown + [forced])[..|shown|] == shown;
    }
  }

  // ---------------------------------------------------------------- whitespace in names

  /** The one white space character a valid name may hold. */
  const OGHAM_SPACE := '\U{1680}'

  lemma OnlyOneSpace(name: string)
    requires IsAttributeName(name)
    ensures IsWord(name) <==> OGHAM_SPACE !in name
  {
    forall i | 0 <= i < |name| ensures IsWhitespace(name[i]) <==> name[i] == OGHAM_SPACE {
      assert IsPlainStartChar(name[i]) || IsNameExtraChar(name[i]);
    }
  }

  lemma {:induction false} WordsAreWords(s: string)
    ensures forall k | 0 <= k < |Words(s)| :: IsWord(Words(s)[k])
    decreases |s|
  {
    if s != [] {
      if IsWhitespace(s[0]) {
        WordsAreWords(s[1..]);
      } else {
        WordsAreWords(s[WordLength(s)..]);
      }
    }
  }

  lemma SpaceIsNeverMatched(names: seq<string>, field: Field)
    requires forall k | 0 <= k < |names| :: IsWord(names[k])
    requires OGHAM_SPACE in field.xmlName
    ensures !ForceNullMatches(names, field)
  {
    var i :| 0 <= i < |field.xmlName| && field.xmlName[i] == OGHAM_SPACE;
    forall k | 0 <= k < |names| ensures Lower(names[k]) != Lower(field.xmlName) {
      if |names[k]| == |field.xmlName| {
        assert !IsWhitespace(names[k][i]);
        assert Lower(names[k])[i] != Lower(field.xmlName)[i];
      }
    }
  }

  // ---------------------------------------------------------------- the row round trip

  /** What a value becomes on the way through XML: empty variants turn into null. */
  function XmlValue(field: Field, value: Value): Value {
    if WritesNull(field, value) then Null else value
  }

  function XmlValues(fields: seq<Field>, values: seq<Value>): (r: seq<Value>)
    requires |values| == |fields|
    ensures |r| == |fields|
  {
    seq(|fields|, i requires 0 <= i < |fields| => XmlValue(fields[i], values[i]))
  }

  /** The codec reads back the text it prints for a value. */
  predicate CellReads(codec: XmlCodec, field: Field, value: Value) {
    value == Unavailable || WritesNull(field, value)
    || (codec.render(value, field).Ok? && codec.parse(codec.render(value, field).value, field) == Ok(value))
  }

  predicate RowReads(codec: XmlCodec, fields: seq<Field>, values: seq<Value>, state: RowState) {
    && |values| == |fields|
    && (forall i | 0 <= i < |fields| :: CellReads(codec, fields[i], values[i]))
    && (forall i | 0 <= i < |fields| :: values[i] == Unavailable ==> state == Updated)
  }

  /** What the names must not be: a field that prints a value must not be called `xmlns`, a
      field that forces null must not hold the one space XML allows in names. */
  predicate NameKept(field: Field, value: Value, state: RowState) {
    && (value != Unavailable && !WritesNull(field, value) ==> Lower(field.xmlName) != "xmlns")
    && (WritesNull(field, value) && state == Updated ==> OGHAM_SPACE !in field.xmlName)
  }

  predicate NamesKept(fields: seq<Field>, values: seq<Value>, state: RowState)
    requires |values| == |fields|
  {
    forall i | 0 <= i < |fields| :: NameKept(fields[i], values[i], state)
  }

  lemma ForcedIsRead(fields: seq<Field>, cells: seq<CellText>, content: RowContent, i: nat)
    requires FieldsNamed(fields) && |cells| == |fields| && i < |fields|
    requires RowAttributes(fields, cells).Ok? && content == ContentOf(RowAttributes(fields, cells).value)
    ensures cells[i].Forced? && OGHAM_SPACE in fields[i].xmlName ==> !ForceNullMatches(content.forceNull, fields[i])
    ensures NoForcedSpace(fields, cells)
            ==> (ForceNullMatches(content.forceNull, fields[i]) <==> cells[i].Forced?)
  {
    var names := ForcedNames(fields, cells);
    WrittenContent(fields, cells);
    ForcedAre(fields, cells, i);
    if OGHAM_SPACE in fields[i].xmlName {
      WordsAreWords(Join(names, ' '));
      SpaceIsNeverMatched(content.forceNull, fields[i]);
    }
    if NoForcedSpace(fields, cells) {
      forall k | 0 <= k < |names| ensures IsWord(names[k]) {
        var j := ForcedSource(fields, cells, k);
        OnlyOneSpace(fields[j].xmlName);
      }
      WordsOfJoin(names);
    }
  }

  /** How the reader takes a cell whose attribute it finds just when the writer showed it. */
  lemma CellMeaning(codec: XmlCodec, field: Field, value: Value, state: RowState, cell: CellText, content: RowContent)
    requires WriteCell(codec, field, value, state) == Ok(cell) && CellReads(codec, field, value)
    requires value == Unavailable ==> state == Updated
    requires Lower(field.xmlName) in content.attrs <==> cell.Shown? && Lower(field.xmlName) != "xmlns"
    requires Lower(field.xmlName) in content.attrs ==> content.attrs[Lower(field.xmlName)] == cell.text
    ensures var back := ParseCell(codec, field, content, state);
            && (cell.Shown? && Lower(field.xmlName) == "xmlns" ==> back != Ok(XmlValue(field, value)))
            && (cell.Forced? && !ForceNullMatches(content.forceNull, field) ==> back != Ok(XmlValue(field, value)))
            && ((cell.Shown? ==> Lower(field.xmlName) != "xmlns") && (ForceNullMatches(content.forceNull, field) <==> cell.Forced?)
                ==> back == Ok(XmlValue(field, value)))
  {
  }

  /** The same for a cell of a written row. */
  lemma CellOfRow(codec: XmlCodec, fields: seq<Field>, value: Value, state: RowState, cells: seq<CellText>, content: RowContent, i: nat)
    requires FieldsNamed(fields) && |cells| == |fields| && i < |fields|
    requires RowAttributes(fields, cells).Ok? && content == ContentOf(RowAttributes(fields, cells).value)
    requires WriteCell(codec, fields[i], value, state) == Ok(cells[i]) && CellReads(codec, fields[i], value)
    requires value == Unavailable ==> state == Updated
    ensures var back := ParseCell(codec, fields[i], content, state);
            && (!NameKept(fields[i], value, state) ==> back != Ok(XmlValue(fields[i], value)))
            && (NameKept(fields[i], value, state) && NoForcedSpace(fields, cells) ==> back == Ok(XmlValue(fields[i], value)))
  {
    WrittenContent(fields, cells);
    Lookup(fields, cells, i);
    ForcedIsRead(fields, cells, content, i);
    CellMeaning(codec, fields[i], value, state, cells[i], content);
  }

  predicate NoForcedSpace(fields: seq<Field>, cells: seq<CellText>)
    requires |cells| == |fields|
  {
    forall k | 0 <= k < |cells| :: cells[k].Forced? ==> OGHAM_SPACE !in fields[k].xmlName
  }

  /** One cell of a written row, as the reader sees it. */
  lemma CellIsRead(codec: XmlCodec, fields: seq<Field>, values: seq<Value>, state: RowState, i: nat)
    requires FieldsNamed(fields) && RowReads(codec, fields, values, state) && i < |fields|
    requires WriteRow(codec, fields, values, state).Ok?
    ensures var cell := ParseCell(codec, fields[i], ContentOf(WriteRow(codec, fields, values, state).value), state);
            && (!NameKept(fields[i], values[i], state) ==> cell != Ok(XmlValue(fields[i], values[i])))
            && (NamesKept(fields, values, state) ==> cell == Ok(XmlValue(fields[i], values[i])))
  {
    var cells := CellsWritten(codec, fields, values, state).value;
    CellsAre(codec, fields, values, state);
    CellOfRow(codec, fields, values[i], state, cells, ContentOf(WriteRow(codec, fields, values, state).value), i);
    if NamesKept(fields, values, state) {
      KeptNamesHaveNoSpace(codec, fields, values, state, cells);
      assert NameKept(fields[i], values[i], state);
    }
  }

  lemma KeptNamesHaveNoSpace(codec: XmlCodec, fields: seq<Field>, values: seq<Value>, state: RowState, cells: seq<CellText>)
    requires |values| == |fields| == |cells| && NamesKept(fields, values, state)
    requires forall k | 0 <= k < |cells| :: WriteCell(codec, fields[k], values[k], state) == Ok(cells[k])
    ensures NoForcedSpace(fields, cells)
  {
    forall k | 0 <= k < |cells| && cells[k].Forced? ensures OGHAM_SPACE !in fields[k].xmlName {
      assert NameKept(fields[k], values[k], state);
    }
  }

  /** A written row reads back as itself, value, null and omitted kept apart, exactly when its
      names are kept. */
  lemma RowRoundTrip(codec: XmlCodec, fields: seq<Field>, values: seq<Value>, state: RowState)
    requires FieldsNamed(fields) && RowReads(codec, fields, values, state)
    requires WriteRow(codec, fields, values, state).Ok?
    ensures ParseRow(codec, fields, ContentOf(WriteRow(codec, fields, values, state).value), state)
            == Ok(XmlValues(fields, values))
            <==> NamesKept(fields, values, state)
  {
    var content := ContentOf(WriteRow(codec, fields, values, state).value);
    forall i | 0 <= i < |fields|
      ensures var cell := ParseCell(codec, fields[i], content, state);
              && (!NameKept(fields[i], values[i], state) ==> cell != Ok(XmlValue(fields[i], values[i])))
              && (NamesKept(fields, values, state) ==> cell == Ok(XmlValue(fields[i], values[i])))
    {
      CellIsRead(codec, fields, values, state, i);
    }
    if NamesKept(fields, values, state) {
      CellsParse(codec, fields, content, state, XmlValues(fields, values));
    } else if ParseCells(codec, fields, content, state).Ok? {
      ParsedCells(codec, fields, content, state);
      var i :| 0 <= i < |fields| && !NameKept(fields[i], values[i], state);
      assert XmlValues(fields, values)[i] == XmlValue(fields[i], values[i]);
    }
  }

  /** No row is changed by the trip unless a nullable variant column holds an empty value. */
  lemma XmlValuesAreValues(fields: seq<Field>, values: seq<Value>)
    requires |values| == |fields|
    ensures XmlValues(fields, values) == values
            <==> forall i | 0 <= i < |fields| :: !(values[i] == Empty && fields[i].typeCode == 12 && fields[i].nullable)
  {
    if i :| 0 <= i < |fields| && values[i] == Empty && fields[i].typeCode == 12 && fields[i].nullable {
      assert XmlValues(fields, values)[i] == Null;
    } else {
      assert forall i | 0 <= i < |fields| :: XmlValue(fields[i], values[i]) == values[i];
    }
  }

  // ---------------------------------------------------------------- the two names that lose cells

  /** A column called `xmlns`: its value is written, and null is read. */
  lemma {:induction false} XmlnsColumnIsLost(codec: XmlCodec, text: string)
    requires var field := Field("xmlns", 3, true, false, None);
             codec.render(Integer(1), field) == Ok(text) && codec.parse(text, field) == Ok(Integer(1)) && IsXmlText(text)
    ensures var fields := [Field("xmlns", 3, true, false, None)];
            && FieldsNamed(fields) && RowReads(codec, fields, [Integer(1)], RowState.Current)
            && WriteRow(codec, fields, [Integer(1)], RowState.Current) == Ok([Attribute("xmlns", text)])
            && ParseRow(codec, fields, ContentOf([Attribute("xmlns", text)]), RowState.Current) == Ok([Null])
  {
    var fields := [Field("xmlns", 3, true, false, None)];
    assert forall i | 0 <= i < 5 :: IsPlainStartChar("xmlns"[i]);
    assert Lower("xmlns") == "xmlns";
    ShownCellIsLost(codec, fields, Integer(1), text);
  }

  lemma {:induction false} ShownCellIsLost(codec: XmlCodec, fields: seq<Field>, value: Value, text: string)
    requires |fields| == 1 && FieldsNamed(fields) && Lower(fields[0].xmlName) == "xmlns" && fields[0].nullable
    requires WriteCell(codec, fields[0], value, RowState.Current) == Ok(Shown(text))
    ensures var attrs := [Attribute(fields[0].xmlName, text)];
            && WriteRow(codec, fields, [value], RowState.Current) == Ok(attrs)
            && ParseRow(codec, fields, ContentOf(attrs), RowState.Current) == Ok([Null])
  {
    OneCellWritten(codec, fields, value, RowState.Current, Shown(text));
    OneShown(fields, text);
    WrittenContent(fields, [Shown(text)]);
    Lookup(fields, [Shown(text)], 0);
    OneCellParsed(codec, fields, ContentOf([Attribute(fields[0].xmlName, text)]), RowState.Current);
  }

  lemma {:induction false} OneShown(fields: seq<Field>, text: string)
    requires |fields| == 1
    ensures RowAttributes(fields, [Shown(text)]) == Ok([Attribute(fields[0].xmlName, text)])
    ensures CellAttributes(fields, [Shown(text)]) == [Attribute(fields[0].xmlName, text)] && ForcedNames(fields, [Shown(text)]) == []
  {
    var attr := Attribute(fields[0].xmlName, text);
    assert [Shown(text)][..0] == [] && [] + [attr] == [attr];
    assert CellAttributes(fields, [Shown(text)]) == CellAttributes(fields, []) + [attr];
    assert ForcedNames(fields, [Shown(text)]) == ForcedNames(fields, []) + [];
  }

  /** A column whose name holds U+1680, a name character that is also white space: its forced null is
      written, and read as omitted. */
  lemma {:induction false} SpacedNameLosesNull(codec: XmlCodec)
    ensures var fields := [Field("a\U{1680}b", 3, true, false, None)];
            && FieldsNamed(fields) && RowReads(codec, fields, [Null], Updated)
            && WriteRow(codec, fields, [Null], Updated) == Ok([Attribute("rs:forcenull", "a\U{1680}b")])
            && ParseRow(codec, fields, ContentOf([Attribute("rs:forcenull", "a\U{1680}b")]), Updated) == Ok([Unavailable])
  {
    var name := "a\U{1680}b";
    var fields := [Field(name, 3, true, false, None)];
    assert name[1] == OGHAM_SPACE;
    assert IsPlainStartChar(name[0]) && IsPlainStartChar(name[1]) && IsPlainStartChar(name[2]);
    assert forall i | 0 <= i < 3 :: IsXmlChar(name[i]);
    ForcedCellIsOmitted(codec, fields);
  }

  lemma {:induction false} ForcedCellIsOmitted(codec: XmlCodec, fields: seq<Field>)
    requires |fields| == 1 && FieldsNamed(fields) && OGHAM_SPACE in fields[0].xmlName && IsXmlText(fields[0].xmlName)
    requires fields[0].nullable && !fields[0].IsChapter()
    ensures var attrs := [Attribute(FORCE_NULL, fields[0].xmlName)];
            && WriteRow(codec, fields, [Null], Updated) == Ok(attrs)
            && ParseRow(codec, fields, ContentOf(attrs), Updated) == Ok([Unavailable])
  {
    OneCellWritten(codec, fields, Null, Updated, Forced);
    OneForced(fields);
    WrittenContent(fields, [Forced]);
    Lookup(fields, [Forced], 0);
    ForcedIsRead(fields, [Forced], ContentOf([Attribute(FORCE_NULL, fields[0].xmlName)]), 0);
    OneCellParsed(codec, fields, ContentOf([Attribute(FORCE_NULL, fields[0].xmlName)]), Updated);
  }

  lemma {:induction false} OneForced(fields: seq<Field>)
    requires |fields| == 1 && IsXmlText(fields[0].xmlName)
    ensures RowAttributes(fields, [Forced]) == Ok([Attribute(FORCE_NULL, fields[0].xmlName)])
    ensures CellAttributes(fields, [Forced]) == [] && ForcedNames(fields, [Forced]) == [fields[0].xmlName]
  {
    assert [Forced][..0] == [];
    assert CellAttributes(fields, [Forced]) == CellAttributes(fields, []) + [];
    assert ForcedNames(fields, [Forced]) == ForcedNames(fields, []) + [fields[0].xmlName];
    assert Join([fields[0].xmlName], ' ') == fields[0].xmlName;
    assert [] + [Attribute(FORCE_NULL, fields[0].xmlName)] == [Attribute(FORCE_NULL, fields[0].xmlName)];
  }

  lemma {:induction false} OneCellWritten(codec: XmlCodec, fields: seq<Field>, value: Value, state: RowState, cell: CellText)
    requires |fields| == 1 && WriteCell(codec, fields[0], value, state) == Ok(cell)
    ensures CellsWritten(codec, fields, [value], state) == Ok([cell])
  {
    assert [value][..0] == [];
    assert CellsWritten(codec, fields, [], state) == Ok([]);
    assert [] + [cell] == [cell];
  }

  lemma {:induction false} OneCellParsed(codec: XmlCodec, fields: seq<Field>, content: RowContent, state: RowState)
    requires |fields| == 1 && content.children == [] && ParseCell(codec, fields[0], content, state).Ok?
    ensures ParseRow(codec, fields, content, state) == Ok([ParseCell(codec, fields[0], content, state).value])
  {
    var value := ParseCell(codec, fields[0], content, state).value;
    CellsParse(codec, fields, content, state, [value]);
  }
}
