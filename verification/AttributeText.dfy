/** Attribute lists as text: the writer's quoting and the raw scanner that reads it back.
    XML 1.0 sections 2.2, 2.3, 3.1 and 4.1. */
module AttributeText {
  import opened Prelude
  import opened Text

  datatype Attribute = Attribute(name: string, value: string)

  // ---------------------------------------------------------------- characters

  predicate IsXmlCode(code: int) {
    || code == 0x09 || code == 0x0a || code == 0x0d
    || 0x20 <= code <= 0xd7ff || 0xe000 <= code <= 0xfffd || 0x10000 <= code <= 0x10ffff
  }

  predicate IsXmlChar(c: char) {
    IsXmlCode(c as int)
  }

  predicate IsXmlText(s: string) {
    forall i | 0 <= i < |s| :: IsXmlChar(s[i])
  }

  /** Name start characters without the colon. */
  predicate IsPlainStartChar(c: char) {
    var code := c as int;
    || 0x41 <= code <= 0x5a || code == 0x5f || 0x61 <= code <= 0x7a || 0xc0 <= code <= 0xd6 || 0xd8 <= code <= 0xf6
    || 0xf8 <= code <= 0x2ff || 0x370 <= code <= 0x37d || 0x37f <= code <= 0x1fff || 0x200c <= code <= 0x200d
    || 0x2070 <= code <= 0x218f || 0x2c00 <= code <= 0x2fef || 0x3001 <= code <= 0xd7ff || 0xf900 <= code <= 0xfdcf
    || 0xfdf0 <= code <= 0xfffd || 0x10000 <= code <= 0xeffff
  }

  predicate IsNameExtraChar(c: char) {
    var code := c as int;
    || code == 0x2d || code == 0x2e || 0x30 <= code <= 0x39 || code == 0xb7 || 0x300 <= code <= 0x36f || 0x203f <= code <= 0x2040
  }

  predicate IsNameStartChar(c: char) {
    c == ':' || IsPlainStartChar(c)
  }

  predicate IsNameChar(c: char) {
    IsNameStartChar(c) || IsNameExtraChar(c)
  }

  /** A name as the raw scanner reads one; the colon is an ordinary character there. */
  predicate IsName(s: string) {
    s != [] && IsNameStartChar(s[0]) && forall i | 0 <= i < |s| :: IsNameChar(s[i])
  }

  /** `is_xml_attribute_name`: what the writer accepts as a field's name. */
  predicate IsAttributeName(s: string) {
    s != [] && IsPlainStartChar(s[0]) && forall i | 0 <= i < |s| :: IsPlainStartChar(s[i]) || IsNameExtraChar(s[i])
  }

  /** `is_ascii_whitespace` */
  predicate IsBlank(c: char) {
    c == ' ' || c == '\t' || c == '\n' || c == '\r' || c as int == 0x0c
  }

  // ---------------------------------------------------------------- writing

  /** The entity a character is written as. */
  function EntityOf(c: char): Option<string> {
    if c == '&' then Some("amp")
    else if c == '\'' then Some("#x27")
    else if c == '\"' then Some("quot")
    else if c == '<' then Some("lt")
    else if c == '>' then Some("gt")
    else if c == '\t' then Some("#x9")
    else if c == '\n' then Some("#xA")
    else if c == '\r' then Some("#xD")
    else None
  }

  /** One character, quoted if need be, in front of further text. */
  function EscapeThen(c: char, rest: string): string {
    match EntityOf(c)
    case Some(entity) => "&" + (entity + (";" + rest))
    case None => [c] + rest
  }

  function Escape(value: string): string {
    if value == [] then [] else EscapeThen(value[0], Escape(value[1..]))
  }

  lemma EscapeThenAppend(c: char, a: string, b: string)
    ensures EscapeThen(c, a) + b == EscapeThen(c, a + b)
  {
    if EntityOf(c).Some? {
      EntityAppend(EntityOf(c).value, a, b);
    } else {
      Regrouped([c], a, b);
    }
  }

  lemma EntityAppend(entity: string, a: string, b: string)
    ensures "&" + (entity + (";" + a)) + b == "&" + (entity + (";" + (a + b)))
  {
    Regrouped(";", a, b);
    Regrouped(entity, ";" + a, b);
    Regrouped("&", entity + (";" + a), b);
  }

  lemma {:induction false} EscapeSnoc(s: string, c: char)
    ensures Escape(s + [c]) == Escape(s) + EscapeThen(c, "")
  {
    if s == [] {
      assert [c][1..] == [];
    } else {
      assert (s + [c])[1..] == s[1..] + [c];
      EscapeSnoc(s[1..], c);
      EscapeThenAppend(s[0], Escape(s[1..]), EscapeThen(c, ""));
    }
  }

  /** `escape_attribute_value` pushing into the output. */
  method EscapeInto(before: string, value: string) returns (out: string)
    ensures out == before + Escape(value)
  {
    out := before;
    for i := 0 to |value|
      invariant out == before + Escape(value[..i])
    {
      EscapePrefix(before, value, i);
      out := out + EscapeThen(value[i], "");
    }
    assert value[..|value|] == value;
  }

  lemma EscapePrefix(before: string, value: string, i: nat)
    requires i < |value|
    ensures before + Escape(value[..i]) + EscapeThen(value[i], "") == before + Escape(value[..i + 1])
  {
    assert value[..i + 1] == value[..i] + [value[i]];
    EscapeSnoc(value[..i], value[i]);
    Regrouped(before, Escape(value[..i]), EscapeThen(value[i], ""));
  }

  /** An attribute in front of further text: a space, the name, the quoted value. */
  function AttributeThen(attr: Attribute, rest: string): string {
    " " + (attr.name + ("=" + ("'" + (Escape(attr.value) + ("'" + rest)))))
  }

  /** The attributes of a start tag in front of what closes it. */
  function TagText(attrs: seq<Attribute>, rest: string): string {
    if attrs == [] then rest else AttributeThen(attrs[0], TagText(attrs[1..], rest))
  }

  /** `write_attr` */
  function WriteAttr(attr: Attribute): Result<string> {
    if IsXmlText(attr.value) then Ok(AttributeThen(attr, "")) else Err
  }

  lemma AttributeThenAppend(attr: Attribute, a: string, b: string)
    ensures AttributeThen(attr, a) + b == AttributeThen(attr, a + b)
  {
    var v := Escape(attr.value);
    assert (v + ("'" + a)) + b == v + ("'" + (a + b));
    assert (attr.name + ("=" + ("'" + (v + ("'" + a))))) + b == attr.name + ("=" + ("'" + ((v + ("'" + a)) + b)));
  }

  lemma {:induction false} TagTextAppend(attrs: seq<Attribute>, a: string, b: string)
    ensures TagText(attrs, a) + b == TagText(attrs, a + b)
  {
    if attrs != [] {
      TagTextAppend(attrs[1..], a, b);
      AttributeThenAppend(attrs[0], TagText(attrs[1..], a), b);
    }
  }

  lemma {:induction false} TagTextSnoc(attrs: seq<Attribute>, attr: Attribute)
    ensures TagText(attrs + [attr], "") == TagText(attrs, "") + AttributeThen(attr, "")
  {
    if attrs == [] {
      assert [attr][1..] == [];
      assert "" + AttributeThen(attr, "") == AttributeThen(attr, "");
    } else {
      assert (attrs + [attr])[1..] == attrs[1..] + [attr];
      TagTextSnoc(attrs[1..], attr);
      AttributeThenAppend(attrs[0], TagText(attrs[1..], ""), AttributeThen(attr, ""));
    }
  }

  predicate AllXmlText(attrs: seq<Attribute>) {
    forall i | 0 <= i < |attrs| :: IsXmlText(attrs[i].value)
  }

  /** The attributes of one element, pushed one after another. */
  method WriteAttributes(before: string, attrs: seq<Attribute>) returns (out: Result<string>)
    ensures out == if AllXmlText(attrs) then Ok(before + TagText(attrs, "")) else Err
  {
    var text := before;
    for i := 0 to |attrs|
      invariant AllXmlText(attrs[..i]) && text == before + TagText(attrs[..i], "")
    {
      var attr := WriteAttr(attrs[i]);
      if attr.Err? {
        return Err;
      }
      assert attrs[..i + 1] == attrs[..i] + [attrs[i]];
      TagTextSnoc(attrs[..i], attrs[i]);
      Regrouped(before, TagText(attrs[..i], ""), attr.value);
      text := text + attr.value;
    }
    assert attrs[..|attrs|] == attrs;
    return Ok(text);
  }

  function Slash(selfClosing: bool): string {
    if selfClosing then "/" else ""
  }

  /** What stands between a start tag's name and its closing angle bracket. */
  function AttributesOfTag(attrs: seq<Attribute>, selfClosing: bool): string {
    TagText(attrs, Slash(selfClosing))
  }

  // ---------------------------------------------------------------- decoding entities

  predicate IsHexDigit(c: char) {
    IsDigit(c) || 'a' <= c <= 'f' || 'A' <= c <= 'F'
  }

  function HexDigit(c: char): nat
    requires IsHexDigit(c)
  {
    if IsDigit(c) then c as int - '0' as int
    else if c <= 'F' then c as int - 'A' as int + 10
    else c as int - 'a' as int + 10
  }

  /** `from_str_radix` and `parse::<u32>`: one optional plus sign, digits, 32 bits. */
  function ParseCode(digits: string, radix: nat): Result<nat> {
    var body := if digits != [] && digits[0] == '+' then digits[1..] else digits;
    if body == [] || exists i | 0 <= i < |body| :: !IsHexDigit(body[i]) || HexDigit(body[i]) >= radix then Err
    else
      var code := Digits(body, radix);
      if code > 0xffff_ffff then Err else Ok(code)
  }

  function Digits(body: string, radix: nat): nat
    requires forall i | 0 <= i < |body| :: IsHexDigit(body[i])
  {
    if body == [] then 0 else radix * Digits(body[..|body| - 1], radix) + HexDigit(body[|body| - 1])
  }

  function CharOf(code: Result<nat>): Result<char> {
    if code.Ok? && IsXmlCode(code.value) then Ok(code.value as char) else Err
  }

  function EntityChar(entity: string): Result<char> {
    if entity == "amp" then Ok('&')
    else if entity == "lt" then Ok('<')
    else if entity == "gt" then Ok('>')
    else if entity == "apos" then Ok('\'')
    else if entity == "quot" then Ok('\"')
    else if "#x" <= entity || "#X" <= entity then CharOf(ParseCode(entity[2..], 16))
    else if "#" <= entity then CharOf(ParseCode(entity[1..], 10))
    else Err
  }

  /** `decode_xml_attribute_raw` */
  function Decode(raw: string): Result<string>
    decreases |raw|
  {
    match SplitOnce(raw, '&')
    case None => Ok(raw)
    case Some(parts) =>
      match SplitOnce(parts.1, ';')
      case None => Err
      case Some(entity) =>
        var c :- EntityChar(entity.0);
        var rest :- Decode(entity.1);
        Ok(parts.0 + [c] + rest)
  }

  /** The decoder's loop with its cursor. */
  method DecodeLoop(raw: string) returns (r: Result<string>)
    ensures r == Decode(raw)
  {
    var out, rest := "", raw;
    ThenUnit(Decode(raw));
    while true
      invariant Decode(raw) == Then(Ok(out), Decode(rest))
      decreases |rest|
    {
      var amp := SplitOnce(rest, '&');
      if amp.None? {
        return Ok(out + rest);
      }
      var semi := SplitOnce(amp.value.1, ';');
      if semi.None? {
        return Err;
      }
      var c := EntityChar(semi.value.0);
      if c.Err? {
        return Err;
      }
      ThenAssociative(Ok(out), Ok(amp.value.0 + [c.value]), Decode(semi.value.1));
      Regrouped(out, amp.value.0, [c.value]);
      out, rest := out + amp.value.0 + [c.value], semi.value.1;
    }
  }

  lemma DecodePlain(c: char, rest: string)
    requires c != '&' && Decode(rest).Ok?
    ensures Decode([c] + rest) == Ok([c] + Decode(rest).value)
  {
    assert ([c] + rest)[1..] == rest;
    match SplitOnce(rest, '&')
    case None =>
    case Some(parts) =>
      var entity := SplitOnce(parts.1, ';').value;
      PlainBefore([c], parts.0, EntityChar(entity.0).value, Decode(entity.1).value);
  }

  lemma PlainBefore(plain: string, head: string, c: char, rest: string)
    ensures plain + head + [c] + rest == plain + (head + [c] + rest)
  {
  }

  lemma DecodeStep(raw: string, tail: string, entity: string, rest: string, c: char)
    requires SplitOnce(raw, '&') == Some(([], tail)) && SplitOnce(tail, ';') == Some((entity, rest))
    requires EntityChar(entity) == Ok(c) && Decode(rest).Ok?
    ensures Decode(raw) == Ok([c] + Decode(rest).value)
  {
    assert [] + [c] == [c];
  }

  lemma DecodeEntity(entity: string, rest: string)
    requires ';' !in entity && EntityChar(entity).Ok? && Decode(rest).Ok?
    ensures Decode("&" + (entity + (";" + rest))) == Ok([EntityChar(entity).value] + Decode(rest).value)
  {
    var tail := entity + (";" + rest);
    assert ("&" + tail)[1..] == tail;
    SplitOnceBefore(entity, ';', rest);
    DecodeStep("&" + tail, tail, entity, rest, EntityChar(entity).value);
  }

  lemma HexEntities()
    ensures EntityChar("#x27") == Ok('\'') && EntityChar("#x9") == Ok('\t')
    ensures EntityChar("#xA") == Ok('\n') && EntityChar("#xD") == Ok('\r')
  {
    assert "#x27"[2..] == "27" && "27"[..1] == "2" && "2"[..0] == "";
    assert Digits("", 16) == 0 && Digits("2", 16) == 2 && Digits("27", 16) == 0x27;
    assert "#x9"[2..] == "9" && "9"[..0] == "" && Digits("9", 16) == 9;
    assert "#xA"[2..] == "A" && "A"[..0] == "" && Digits("A", 16) == 10;
    assert "#xD"[2..] == "D" && "D"[..0] == "" && Digits("D", 16) == 13;
  }

  lemma EntityDecodes(c: char)
    requires EntityOf(c).Some?
    ensures EntityChar(EntityOf(c).value) == Ok(c)
  {
    HexEntities();
  }

  lemma EntityIsOneWord(c: char)
    requires EntityOf(c).Some?
    ensures ';' !in EntityOf(c).value
  {
  }

  lemma DecodeEscapedChar(c: char, rest: string)
    requires Decode(rest).Ok?
    ensures Decode(EscapeThen(c, rest)) == Ok([c] + Decode(rest).value)
  {
    if EntityOf(c).Some? {
      EntityDecodes(c);
      EntityIsOneWord(c);
      DecodeEntity(EntityOf(c).value, rest);
    } else {
      DecodePlain(c, rest);
    }
  }

  /** Every value survives quoting, whatever characters it holds. */
  lemma {:induction false} DecodeEscape(value: string)
    ensures Decode(Escape(value)) == Ok(value)
  {
    if value != [] {
      DecodeEscape(value[1..]);
      DecodeEscapedChar(value[0], Escape(value[1..]));
      assert [value[0]] + value[1..] == value;
    }
  }

  /** No quote and no angle bracket is left bare. */
  predicate IsQuoted(s: string) {
    forall i | 0 <= i < |s| :: s[i] != '\'' && s[i] != '\"' && s[i] != '<' && s[i] != '>'
  }

  lemma {:induction false} EscapeIsQuoted(value: string)
    ensures IsQuoted(Escape(value))
  {
    if value != [] {
      EscapeIsQuoted(value[1..]);
      EscapedCharIsQuoted(value[0], Escape(value[1..]));
    }
  }

  lemma EscapedCharIsQuoted(c: char, rest: string)
    requires IsQuoted(rest)
    ensures IsQuoted(EscapeThen(c, rest))
  {
    if EntityOf(c).Some? {
      assert IsQuoted(EntityOf(c).value);
    }
  }

  // ---------------------------------------------------------------- the tag scanner

  /** `xml_name_end`: how many characters of the text the name takes. */
  function NameLength(s: string): (n: nat)
    ensures n <= |s|
  {
    if s != [] && IsNameStartChar(s[0]) then 1 + NameRest(s[1..]) else 0
  }

  function NameRest(s: string): (n: nat)
    ensures n <= |s|
  {
    if s != [] && IsNameChar(s[0]) then 1 + NameRest(s[1..]) else 0
  }

  lemma {:induction false} NameRestAt(name: string, rest: string)
    requires (forall i | 0 <= i < |name| :: IsNameChar(name[i])) && (rest == [] || !IsNameChar(rest[0]))
    ensures NameRest(name + rest) == |name|
  {
    if name == [] {
      assert name + rest == rest;
    } else {
      assert (name + rest)[1..] == name[1..] + rest;
      NameRestAt(name[1..], rest);
    }
  }

  lemma NameLengthAt(name: string, rest: string)
    requires IsName(name) && (rest == [] || !IsNameChar(rest[0]))
    ensures NameLength(name + rest) == |name|
  {
    assert (name + rest)[1..] == name[1..] + rest;
    NameRestAt(name[1..], rest);
  }

  /** How far it is to the closing angle bracket, passing over quoted text. */
  function TagEnd(s: string, quote: Option<char>): (n: Option<nat>)
    ensures n.Some? ==> n.value < |s|
  {
    if s == [] then None
    else if quote == None && s[0] == '>' then Some(0)
    else
      var next := if quote == None && (s[0] == '\'' || s[0] == '\"') then Some(s[0])
                  else if quote == Some(s[0]) then None
                  else quote;
      match TagEnd(s[1..], next)
      case None => None
      case Some(n) => Some(n + 1)
  }

  /** The scan as a loop over the bytes with its quote state. */
  method FindTagEnd(s: string) returns (n: Option<nat>)
    ensures n == TagEnd(s, None)
  {
    var cursor, quote := 0, None;
    assert s[0..] == s;
    while cursor < |s|
      invariant cursor <= |s|
      invariant TagEnd(s, None) == match TagEnd(s[cursor..], quote) { case None => None case Some(k) => Some(cursor + k) }
    {
      assert s[cursor..][1..] == s[cursor + 1..];
      if quote == None && s[cursor] == '>' {
        return Some(cursor);
      }
      if quote == None {
        if s[cursor] == '\'' || s[cursor] == '\"' {
          quote := Some(s[cursor]);
        }
      } else if quote == Some(s[cursor]) {
        quote := None;
      }
      cursor := cursor + 1;
    }
    return None;
  }

  datatype StartTag = NotATag | Unterminated | Tag(name: string, attributes: string, rest: string)

  function SkipBlanks(s: string): (r: string)
    ensures |r| <= |s|
  {
    if s != [] && IsBlank(s[0]) then SkipBlanks(s[1..]) else s
  }

  /** `parse_start_tag` on the text from an opening angle bracket on. */
  function ParseStartTag(s: string): StartTag {
    if s == [] || s[0] != '<' || (|s| > 1 && (s[1] == '/' || s[1] == '!' || s[1] == '?')) then NotATag
    else
      var body := SkipBlanks(s[1..]);
      var n := NameLength(body);
      if n == 0 then NotATag
      else
        match TagEnd(body[n..], None)
        case None => Unterminated
        case Some(k) => Tag(body[..n], body[n..][..k], body[n..][k + 1..])
  }

  /** `raw_start_tag_is_self_closing` */
  predicate SelfClosing(attributes: string) {
    var trimmed := TrimEnd(attributes);
    trimmed != [] && trimmed[|trimmed| - 1] == '/'
  }

  // ---------------------------------------------------------------- the attribute list parser

  function SkipSeparators(s: string): (r: string)
    ensures |r| <= |s|
  {
    if s != [] && (IsBlank(s[0]) || s[0] == '/') then SkipSeparators(s[1..]) else s
  }

  /** The equals sign, the quoted value, and what follows it. */
  function ParseValue(s: string): (r: Result<(string, string)>)
    ensures r.Ok? ==> |r.value.1| < |s|
  {
    var equals := SkipBlanks(s);
    if equals == [] || equals[0] != '=' then Err
    else
      var quoted := SkipBlanks(equals[1..]);
      if quoted == [] || (quoted[0] != '\'' && quoted[0] != '\"') then Err
      else
        match SplitOnce(quoted[1..], quoted[0])
        case None => Err
        case Some(parts) =>
          var value :- Decode(parts.0);
          Ok((value, parts.1))
  }

  /** One attribute at the front of the text, and what follows it. */
  function ParseAttribute(s: string): (r: Result<(Attribute, string)>)
    requires NameLength(s) > 0
    ensures r.Ok? ==> |r.value.1| < |s|
  {
    var value :- ParseValue(s[NameLength(s)..]);
    Ok((Attribute(s[..NameLength(s)], value.0), value.1))
  }

  /** `parse_raw_attribute_list` */
  function ParseList(s: string): Result<seq<Attribute>>
    decreases |s|
  {
    var text := SkipSeparators(s);
    if NameLength(text) == 0 then Ok([])
    else
      var first :- ParseAttribute(text);
      var rest :- ParseList(first.1);
      Ok([first.0] + rest)
  }

  /** The parser's loop pushing into `attrs`. */
  method ParseListLoop(s: string) returns (r: Result<seq<Attribute>>)
    ensures r == ParseList(s)
  {
    var attrs: seq<Attribute>, text := [], s;
    ThenUnit(ParseList(s));
    while true
      invariant ParseList(s) == Then(Ok(attrs), ParseList(text))
      decreases |text|
    {
      var rest := SkipSeparators(text);
      if NameLength(rest) == 0 {
        ThenUnit(Ok(attrs));
        return Ok(attrs);
      }
      var first := ParseAttribute(rest);
      if first.Err? {
        return Err;
      }
      assert ParseList(text) == Then(Ok([first.value.0]), ParseList(first.value.1));
      ThenAssociative(Ok(attrs), Ok([first.value.0]), ParseList(first.value.1));
      attrs, text := attrs + [first.value.0], first.value.1;
    }
  }

  // ---------------------------------------------------------------- round trip

  predicate NamesReadable(attrs: seq<Attribute>) {
    forall i | 0 <= i < |attrs| :: IsName(attrs[i].name)
  }

  predicate IsPlain(s: string) {
    forall i | 0 <= i < |s| :: s[i] != '\'' && s[i] != '\"' && s[i] != '>'
  }

  function Shifted(n: Option<nat>, distance: nat): Option<nat> {
    match n
    case None => None
    case Some(k) => Some(k + distance)
  }

  /** Text without quotes or closing brackets leaves the scanner where it is. */
  lemma {:induction false} TagEndPasses(plain: string, quote: Option<char>, rest: string)
    requires IsPlain(plain) && (quote == None || quote == Some('\''))
    ensures TagEnd(plain + rest, quote) == Shifted(TagEnd(rest, quote), |plain|)
  {
    if plain == [] {
      assert plain + rest == rest;
    } else {
      assert (plain + rest)[1..] == plain[1..] + rest;
      TagEndPasses(plain[1..], quote, rest);
    }
  }

  lemma TagEndAtQuote(quote: Option<char>, rest: string)
    requires quote == None || quote == Some('\'')
    ensures TagEnd("'" + rest, quote) == Shifted(TagEnd(rest, if quote == None then Some('\'') else None), 1)
  {
    assert ("'" + rest)[1..] == rest;
  }

  lemma TagEndPassesQuoted(value: string, rest: string)
    requires IsQuoted(value)
    ensures TagEnd("'" + (value + ("'" + rest)), None) == Shifted(TagEnd(rest, None), |value| + 2)
  {
    TagEndAtQuote(Some('\''), rest);
    TagEndPasses(value, Some('\''), "'" + rest);
    TagEndAtQuote(None, value + ("'" + rest));
  }

  lemma NamesArePlain(name: string)
    requires IsName(name)
    ensures IsPlain(name)
  {
    assert forall i | 0 <= i < |name| :: IsNameChar(name[i]);
  }

  lemma TagEndPassesAttribute(attr: Attribute, rest: string)
    requires IsName(attr.name)
    ensures TagEnd(AttributeThen(attr, rest), None) == Shifted(TagEnd(rest, None), |attr.name| + |Escape(attr.value)| + 4)
  {
    var value := Escape(attr.value);
    var quoted := "'" + (value + ("'" + rest));
    EscapeIsQuoted(attr.value);
    TagEndPassesQuoted(value, rest);
    TagEndPasses("=", None, quoted);
    NamesArePlain(attr.name);
    TagEndPasses(attr.name, None, "=" + quoted);
    TagEndPasses(" ", None, attr.name + ("=" + quoted));
  }

  /** The closing bracket found is the one the writer put there. */
  lemma {:induction false} TagEndIsWritten(attrs: seq<Attribute>, selfClosing: bool, rest: string)
    requires NamesReadable(attrs)
    ensures TagEnd(TagText(attrs, Slash(selfClosing) + (">" + rest)), None) == Some(|AttributesOfTag(attrs, selfClosing)|)
  {
    var tail := Slash(selfClosing) + (">" + rest);
    if attrs == [] {
      TagEndPasses(Slash(selfClosing), None, ">" + rest);
    } else {
      TagEndIsWritten(attrs[1..], selfClosing, rest);
      TagEndPassesAttribute(attrs[0], TagText(attrs[1..], tail));
    }
  }

  lemma {:induction false} NoBlanks(s: string)
    requires s != [] && !IsBlank(s[0])
    ensures SkipBlanks(s) == s
  {
  }

  lemma {:induction false} ParseQuoted(inner: string, raw: string, value: string, rest: string)
    requires SplitOnce(inner, '\'') == Some((raw, rest)) && Decode(raw) == Ok(value)
    ensures ParseValue("=" + ("'" + inner)) == Ok((value, rest))
  {
    assert ("=" + ("'" + inner))[1..] == "'" + inner;
    assert ("'" + inner)[1..] == inner;
    NoBlanks("=" + ("'" + inner));
    NoBlanks("'" + inner);
  }

  lemma QuotedValueReads(value: string, rest: string)
    ensures SplitOnce(Escape(value) + ("'" + rest), '\'') == Some((Escape(value), rest))
    ensures Decode(Escape(value)) == Ok(value)
  {
    EscapeIsQuoted(value);
    SplitOnceBefore(Escape(value), '\'', rest);
    DecodeEscape(value);
  }

  lemma ParseWrittenAttribute(attr: Attribute, rest: string)
    requires IsName(attr.name)
    ensures var text := attr.name + ("=" + ("'" + (Escape(attr.value) + ("'" + rest))));
            NameLength(text) == |attr.name| && ParseAttribute(text) == Ok((attr, rest))
  {
    var tail := "=" + ("'" + (Escape(attr.value) + ("'" + rest)));
    assert !IsNameChar('=');
    NameLengthAt(attr.name, tail);
    CutAt(attr.name, tail);
    QuotedValueReads(attr.value, rest);
    ParseQuoted(Escape(attr.value) + ("'" + rest), Escape(attr.value), attr.value, rest);
  }

  lemma CutAt(a: string, b: string)
    ensures (a + b)[..|a|] == a && (a + b)[|a|..] == b
  {
  }

  lemma SeparatorsEndAtName(text: string)
    requires text != [] && IsNameStartChar(text[0])
    ensures SkipSeparators(" " + text) == text
  {
    assert (" " + text)[1..] == text;
  }

  lemma FirstIsRead(attr: Attribute, behind: string, rest: seq<Attribute>)
    requires IsName(attr.name) && ParseList(behind) == Ok(rest)
    ensures ParseList(AttributeThen(attr, behind)) == Ok([attr] + rest)
  {
    var text := attr.name + ("=" + ("'" + (Escape(attr.value) + ("'" + behind))));
    assert text[0] == attr.name[0];
    SeparatorsEndAtName(text);
    ParseWrittenAttribute(attr, behind);
    ListReadOn(" " + text, text, attr, behind, rest);
  }

  /** The list parser returns exactly the names and values written. */
  lemma {:induction false} ListRoundTrip(attrs: seq<Attribute>, selfClosing: bool)
    requires NamesReadable(attrs)
    ensures ParseList(AttributesOfTag(attrs, selfClosing)) == Ok(attrs)
  {
    if attrs == [] {
      NothingIsRead(selfClosing);
    } else {
      ListRoundTrip(attrs[1..], selfClosing);
      FirstIsRead(attrs[0], AttributesOfTag(attrs[1..], selfClosing), attrs[1..]);
      assert [attrs[0]] + attrs[1..] == attrs;
    }
  }

  lemma NothingIsRead(selfClosing: bool)
    ensures ParseList(Slash(selfClosing)) == Ok([])
  {
    assert "/"[1..] == "";
    assert SkipSeparators(Slash(selfClosing)) == "";
  }

  /** One turn of the list parser. */
  lemma ListReadOn(s: string, text: string, attr: Attribute, behind: string, rest: seq<Attribute>)
    requires SkipSeparators(s) == text && NameLength(text) > 0
    requires ParseAttribute(text) == Ok((attr, behind)) && ParseList(behind) == Ok(rest)
    ensures ParseList(s) == Ok([attr] + rest)
  {
  }

  lemma {:induction false} LastOfTagText(attrs: seq<Attribute>, rest: string)
    ensures var s := TagText(attrs, rest);
            && |s| >= |rest| && (attrs != [] ==> s != [])
            && (rest != [] ==> s[|s| - 1] == rest[|rest| - 1])
            && (rest == [] && attrs != [] ==> s[|s| - 1] == '\'')
  {
    if attrs != [] {
      LastOfTagText(attrs[1..], rest);
      var behind := TagText(attrs[1..], rest);
      var closed := "'" + behind;
      assert closed[|closed| - 1] == if behind == [] then '\'' else behind[|behind| - 1];
      var s := AttributeThen(attrs[0], behind);
      assert s[|s| - |closed|..] == closed;
      assert s[|s| - 1] == closed[|closed| - 1];
    }
  }

  lemma SelfClosingIsWritten(attrs: seq<Attribute>, selfClosing: bool)
    ensures SelfClosing(AttributesOfTag(attrs, selfClosing)) == selfClosing
  {
    LastOfTagText(attrs, Slash(selfClosing));
  }

  /** A start tag written with any attributes is found again: its name, its end outside the
      quotes, whether it closes itself, and every attribute with its value. */
  lemma TagRoundTrip(name: string, attrs: seq<Attribute>, selfClosing: bool, rest: string)
    requires IsName(name) && NamesReadable(attrs)
    ensures var tag := ParseStartTag("<" + (name + (AttributesOfTag(attrs, selfClosing) + (">" + rest))));
            && tag == Tag(name, AttributesOfTag(attrs, selfClosing), rest)
            && ParseList(tag.attributes) == Ok(attrs)
            && SelfClosing(tag.attributes) == selfClosing
  {
    var list := AttributesOfTag(attrs, selfClosing);
    TagTextAppend(attrs, Slash(selfClosing), ">" + rest);
    TagEndIsWritten(attrs, selfClosing, rest);
    BehindName(attrs, selfClosing, rest);
    TagIsCut(name, list, rest);
    ListRoundTrip(attrs, selfClosing);
    SelfClosingIsWritten(attrs, selfClosing);
  }

  lemma BehindName(attrs: seq<Attribute>, selfClosing: bool, rest: string)
    ensures var behind := AttributesOfTag(attrs, selfClosing) + (">" + rest);
            behind != [] && !IsNameChar(behind[0])
  {
    var list := AttributesOfTag(attrs, selfClosing);
    if list == [] {
      assert (list + (">" + rest))[0] == '>';
    } else {
      assert (list + (">" + rest))[0] == list[0];
      assert list[0] == ' ' || list[0] == '/';
    }
  }

  lemma TagIsCut(name: string, list: string, rest: string)
    requires IsName(name)
    requires var behind := list + (">" + rest); !IsNameChar(behind[0]) && TagEnd(behind, None) == Some(|list|)
    ensures ParseStartTag("<" + (name + (list + (">" + rest)))) == Tag(name, list, rest)
  {
    var behind := list + (">" + rest);
    var body := name + behind;
    assert ("<" + body)[1..] == body && body[0] == name[0];
    NameLengthAt(name, behind);
    assert body[|name|..] == behind && body[..|name|] == name;
    assert behind[..|list|] == list && behind[|list| + 1..] == rest;
  }
}
