/** Start tags as any XML writer may write them: either quote, blanks where XML allows them. XML 1.0
    sections 2.3 and 3.1. The raw scanner finds their ends and their attributes all the same. */
module ScannedTags {
  import opened Prelude
  import opened Text
  import opened AttributeText

  /** One attribute as it stands in a tag: what separates it from the one before, the blanks on both sides
      of the equals sign, the quote, and the value between the quotes before decoding. */
  datatype Form = Form(separators: string, name: string, before: string, after: string, quote: char, raw: string)

  predicate AllBlank(s: string) {
    forall i | 0 <= i < |s| :: IsBlank(s[i])
  }

  predicate AllSeparators(s: string) {
    forall i | 0 <= i < |s| :: IsBlank(s[i]) || s[i] == '/'
  }

  predicate FormValid(form: Form) {
    && AllSeparators(form.separators) && IsName(form.name) && AllBlank(form.before) && AllBlank(form.after)
    && (form.quote == '\'' || form.quote == '\"') && form.quote !in form.raw && Decode(form.raw).Ok?
  }

  predicate FormsValid(forms: seq<Form>) {
    forall k | 0 <= k < |forms| :: FormValid(forms[k])
  }

  /** From the equals sign on. */
  function ValueThen(form: Form, rest: string): string {
    form.before + ("=" + (form.after + ([form.quote] + (form.raw + ([form.quote] + rest)))))
  }

  function FormThen(form: Form, rest: string): string {
    form.separators + (form.name + ValueThen(form, rest))
  }

  function FormsThen(forms: seq<Form>, rest: string): string {
    if forms == [] then rest else FormThen(forms[0], FormsThen(forms[1..], rest))
  }

  function AttributeOf(form: Form): Attribute
    requires FormValid(form)
  {
    Attribute(form.name, Decode(form.raw).value)
  }

  function AttributesOf(forms: seq<Form>): (r: seq<Attribute>)
    requires FormsValid(forms)
    ensures |r| == |forms|
  {
    seq(|forms|, k requires 0 <= k < |forms| => AttributeOf(forms[k]))
  }

  // ---------------------------------------------------------------- the end of a tag

  lemma {:induction false} PastPlain(plain: string, rest: string)
    requires IsPlain(plain)
    ensures TagEnd(plain + rest, None) == Shifted(TagEnd(rest, None), |plain|)
  {
    TagEndPasses(plain, None, rest);
  }

  lemma {:induction false} InsideQuotes(quote: char, raw: string, rest: string)
    requires (quote == '\'' || quote == '\"') && quote !in raw
    ensures TagEnd(raw + ([quote] + rest), Some(quote)) == Shifted(TagEnd(rest, None), |raw| + 1)
  {
    if raw == [] {
      assert raw + ([quote] + rest) == [quote] + rest && ([quote] + rest)[1..] == rest;
    } else {
      assert (raw + ([quote] + rest))[1..] == raw[1..] + ([quote] + rest);
      InsideQuotes(quote, raw[1..], rest);
    }
  }

  lemma PastQuoted(quote: char, raw: string, rest: string)
    requires (quote == '\'' || quote == '\"') && quote !in raw
    ensures TagEnd([quote] + (raw + ([quote] + rest)), None) == Shifted(TagEnd(rest, None), |raw| + 2)
  {
    assert ([quote] + (raw + ([quote] + rest)))[1..] == raw + ([quote] + rest);
    InsideQuotes(quote, raw, rest);
  }

  lemma BlanksArePlain(s: string)
    requires AllSeparators(s)
    ensures IsPlain(s)
  {
  }

  lemma PastValue(form: Form, rest: string)
    requires FormValid(form)
    ensures TagEnd(ValueThen(form, rest), None)
            == Shifted(TagEnd(rest, None), |form.before| + |form.after| + |form.raw| + 3)
  {
    var quoted := [form.quote] + (form.raw + ([form.quote] + rest));
    PastQuoted(form.quote, form.raw, rest);
    BlanksArePlain(form.after);
    PastPlain(form.after, quoted);
    PastPlain("=", form.after + quoted);
    BlanksArePlain(form.before);
    PastPlain(form.before, "=" + (form.after + quoted));
  }

  lemma PastForm(form: Form, rest: string)
    requires FormValid(form)
    ensures TagEnd(FormThen(form, rest), None) == Shifted(TagEnd(rest, None), FormLength(form))
  {
    PastValue(form, rest);
    NamesArePlain(form.name);
    PastPlain(form.name, ValueThen(form, rest));
    BlanksArePlain(form.separators);
    PastPlain(form.separators, form.name + ValueThen(form, rest));
  }

  function FormLength(form: Form): nat {
    |form.separators| + |form.name| + |form.before| + |form.after| + |form.raw| + 3
  }

  function FormsLength(forms: seq<Form>): nat {
    if forms == [] then 0 else FormLength(forms[0]) + FormsLength(forms[1..])
  }

  lemma FormTakes(form: Form, rest: string)
    ensures |FormThen(form, rest)| == FormLength(form) + |rest|
  {
  }

  lemma {:induction false} PastForms(forms: seq<Form>, rest: string)
    requires FormsValid(forms)
    ensures TagEnd(FormsThen(forms, rest), None) == Shifted(TagEnd(rest, None), FormsLength(forms))
  {
    if forms != [] {
      PastForms(forms[1..], rest);
      PastOneMore(forms[0], FormsThen(forms[1..], rest), rest, FormsLength(forms[1..]));
    }
  }

  lemma PastOneMore(form: Form, behind: string, rest: string, length: nat)
    requires FormValid(form) && TagEnd(behind, None) == Shifted(TagEnd(rest, None), length)
    ensures TagEnd(FormThen(form, behind), None) == Shifted(TagEnd(rest, None), FormLength(form) + length)
  {
    PastForm(form, behind);
  }

  lemma {:induction false} EndOfSeparators(separators: string, rest: string)
    requires AllSeparators(separators)
    ensures TagEnd(separators + (">" + rest), None) == Some(|separators|)
  {
    BlanksArePlain(separators);
    PastPlain(separators, ">" + rest);
  }

  lemma {:induction false} EndFound(whole: string, list: string, inner: string, tail: string, length: nat, n: nat)
    requires list + tail == whole && TagEnd(whole, None) == Shifted(TagEnd(inner, None), length)
    requires TagEnd(inner, None) == Some(n) && |list| == length + n
    ensures TagEnd(list + tail, None) == Some(|list|)
  {
  }

  /** The bracket behind the attributes is the one that ends the tag. */
  lemma {:induction false} EndOfForms(forms: seq<Form>, separators: string, rest: string)
    requires FormsValid(forms) && AllSeparators(separators)
    ensures var list := FormsThen(forms, separators); TagEnd(list + (">" + rest), None) == Some(|list|)
  {
    EndOfSeparators(separators, rest);
    FormsThenAppend(forms, separators, ">" + rest);
    PastForms(forms, separators + (">" + rest));
    FormsTake(forms, separators);
    EndFound(FormsThen(forms, separators + (">" + rest)), FormsThen(forms, separators), separators + (">" + rest), ">" + rest,
             FormsLength(forms), |separators|);
  }

  lemma {:induction false} FormsTake(forms: seq<Form>, rest: string)
    ensures |FormsThen(forms, rest)| == FormsLength(forms) + |rest|
  {
    if forms != [] {
      FormsTake(forms[1..], rest);
      FormTakes(forms[0], FormsThen(forms[1..], rest));
    }
  }

  // ---------------------------------------------------------------- the attributes

  lemma {:induction false} BlanksSkipped(blanks: string, rest: string)
    requires AllBlank(blanks) && (rest == [] || !IsBlank(rest[0]))
    ensures SkipBlanks(blanks + rest) == rest
  {
    if blanks == [] {
      assert blanks + rest == rest;
    } else {
      assert (blanks + rest)[1..] == blanks[1..] + rest;
      BlanksSkipped(blanks[1..], rest);
    }
  }

  lemma {:induction false} SeparatorsSkipped(separators: string, rest: string)
    requires AllSeparators(separators) && (rest == [] || !(IsBlank(rest[0]) || rest[0] == '/'))
    ensures SkipSeparators(separators + rest) == rest
  {
    if separators == [] {
      assert separators + rest == rest;
    } else {
      assert (separators + rest)[1..] == separators[1..] + rest;
      SeparatorsSkipped(separators[1..], rest);
    }
  }

  lemma {:induction false} QuotedReads(quote: char, raw: string, rest: string)
    requires quote !in raw
    ensures SplitOnce(raw + ([quote] + rest), quote) == Some((raw, rest))
  {
    SplitOnceBefore(raw, quote, rest);
  }

  lemma ValueReads(form: Form, rest: string)
    requires FormValid(form)
    ensures ParseValue(ValueThen(form, rest)) == Ok((Decode(form.raw).value, rest))
  {
    var inner := form.raw + ([form.quote] + rest);
    var quoted := [form.quote] + inner;
    var equals := "=" + (form.after + quoted);
    assert equals[0] == '=' && equals[1..] == form.after + quoted;
    BlanksSkipped(form.before, equals);
    assert quoted[0] == form.quote && quoted[1..] == inner;
    BlanksSkipped(form.after, quoted);
    QuotedReads(form.quote, form.raw, rest);
  }

  lemma FormReads(form: Form, rest: string)
    requires FormValid(form)
    ensures var text := form.name + ValueThen(form, rest);
            && SkipSeparators(FormThen(form, rest)) == text
            && NameLength(text) == |form.name| > 0 && ParseAttribute(text) == Ok((AttributeOf(form), rest))
  {
    var tail := ValueThen(form, rest);
    var text := form.name + tail;
    StartsValue(form, rest);
    assert text[0] == form.name[0];
    SeparatorsSkipped(form.separators, text);
    NameLengthAt(form.name, tail);
    CutAt(form.name, tail);
    ValueReads(form, rest);
  }

  lemma StartsValue(form: Form, rest: string)
    requires FormValid(form)
    ensures ValueThen(form, rest) != [] && !IsNameChar(ValueThen(form, rest)[0])
  {
    if form.before == [] {
      assert ValueThen(form, rest)[0] == '=';
    } else {
      assert ValueThen(form, rest)[0] == form.before[0];
    }
  }

  lemma {:induction false} OnlySeparators(separators: string)
    requires AllSeparators(separators)
    ensures ParseList(separators) == Ok([])
  {
    assert separators + [] == separators;
    SeparatorsSkipped(separators, []);
  }

  /** Attributes in any of these forms are read, each with its decoded value, in order. */
  lemma {:induction false} FormsRead(forms: seq<Form>, separators: string)
    requires FormsValid(forms) && AllSeparators(separators)
    ensures ParseList(FormsThen(forms, separators)) == Ok(AttributesOf(forms))
  {
    if forms == [] {
      OnlySeparators(separators);
    } else {
      FormsRead(forms[1..], separators);
      FirstFormRead(forms[0], FormsThen(forms[1..], separators), AttributesOf(forms[1..]));
      FirstAttribute(forms);
    }
  }

  lemma {:induction false} FirstFormRead(form: Form, behind: string, rest: seq<Attribute>)
    requires FormValid(form) && ParseList(behind) == Ok(rest)
    ensures ParseList(FormThen(form, behind)) == Ok([AttributeOf(form)] + rest)
  {
    FormReads(form, behind);
    ListReadOn(FormThen(form, behind), form.name + ValueThen(form, behind), AttributeOf(form), behind, rest);
  }

  lemma FirstAttribute(forms: seq<Form>)
    requires FormsValid(forms) && forms != []
    ensures AttributesOf(forms) == [AttributeOf(forms[0])] + AttributesOf(forms[1..])
  {
  }

  // ---------------------------------------------------------------- the tag

  lemma {:induction false} FormsThenAppend(forms: seq<Form>, a: string, b: string)
    ensures FormsThen(forms, a) + b == FormsThen(forms, a + b)
  {
    if forms != [] {
      FormsThenAppend(forms[1..], a, b);
      FormThenAppend(forms[0], FormsThen(forms[1..], a), b);
    }
  }

  lemma FormThenAppend(form: Form, a: string, b: string)
    ensures FormThen(form, a) + b == FormThen(form, a + b)
  {
    var q := [form.quote];
    Regrouped(q, a, b);
    Regrouped(form.raw, q + a, b);
    Regrouped(q, form.raw + (q + a), b);
    Regrouped(form.after, q + (form.raw + (q + a)), b);
    Regrouped("=", form.after + (q + (form.raw + (q + a))), b);
    Regrouped(form.before, "=" + (form.after + (q + (form.raw + (q + a)))), b);
    Regrouped(form.name, ValueThen(form, a), b);
    Regrouped(form.separators, form.name + ValueThen(form, a), b);
  }

  /** Whatever its quotes and blanks, a start tag is found with its name, its end outside the quotes, and
      every attribute's decoded value. */
  lemma ScannedTag(blanks: string, name: string, forms: seq<Form>, separators: string, rest: string)
    requires AllBlank(blanks) && IsName(name) && FormsValid(forms) && AllSeparators(separators)
    requires var list := FormsThen(forms, separators); list == [] || !IsNameChar(list[0])
    ensures var list := FormsThen(forms, separators);
            && ParseStartTag("<" + (blanks + (name + (list + (">" + rest))))) == Tag(name, list, rest)
            && ParseList(list) == Ok(AttributesOf(forms))
  {
    var list := FormsThen(forms, separators);
    EndOfForms(forms, separators, rest);
    BehindList(list, rest);
    TagCut(blanks, name, list, rest);
    FormsRead(forms, separators);
  }

  lemma BehindList(list: string, rest: string)
    requires list == [] || !IsNameChar(list[0])
    ensures var behind := list + (">" + rest); behind != [] && !IsNameChar(behind[0])
  {
    assert list != [] ==> (list + (">" + rest))[0] == list[0];
    assert list == [] ==> (list + (">" + rest))[0] == '>';
  }

  lemma TagCut(blanks: string, name: string, list: string, rest: string)
    requires AllBlank(blanks) && IsName(name)
    requires var behind := list + (">" + rest); behind != [] && !IsNameChar(behind[0]) && TagEnd(behind, None) == Some(|list|)
    ensures ParseStartTag("<" + (blanks + (name + (list + (">" + rest))))) == Tag(name, list, rest)
  {
    var behind := list + (">" + rest);
    var body := name + behind;
    var s := "<" + (blanks + body);
    assert s[1..] == blanks + body && body[0] == name[0];
    assert s[1] == if blanks == [] then name[0] else blanks[0];
    BlanksSkipped(blanks, body);
    NameLengthAt(name, behind);
    CutAt(name, behind);
    assert behind[..|list|] == list && behind[|list| + 1..] == rest;
  }

  /** A tag whose quote is never closed is reported as such, however many brackets follow. */
  lemma {:induction false} OpenQuote(quote: char, raw: string)
    requires (quote == '\'' || quote == '\"') && quote !in raw
    ensures TagEnd(raw, Some(quote)) == None
  {
    if raw != [] {
      OpenQuote(quote, raw[1..]);
    }
  }

  // ---------------------------------------------------------------- names

  /** The writer's names are the scanner's names without a colon. */
  lemma NamesWithoutColon(s: string)
    ensures IsAttributeName(s) <==> IsName(s) && ':' !in s
  {
    assert !IsNameExtraChar(':') && !IsPlainStartChar(':');
    if IsName(s) && ':' !in s {
      assert forall i | 0 <= i < |s| :: s[i] != ':';
    }
  }

  /** Which ASCII characters may stand in a name, and which may begin one. */
  lemma AsciiNames(c: char)
    requires c as int < 128
    ensures IsNameStartChar(c) <==> 'A' <= c <= 'Z' || 'a' <= c <= 'z' || c == '_' || c == ':'
    ensures IsNameChar(c) <==> IsNameStartChar(c) || '0' <= c <= '9' || c == '-' || c == '.'
  {
  }

  /** Beyond ASCII every character may begin a name but those of these gaps, and may stand in one but those
      of the narrower ones. */
  lemma NameGaps(c: char)
    requires c as int >= 128
    ensures var code := c as int;
            IsPlainStartChar(c)
            <==> && code > 0xbf && code != 0xd7 && code != 0xf7 && code != 0x37e
                 && !(0x2ff < code < 0x370) && !(0x1fff < code < 0x200c) && !(0x200d < code < 0x2070) && !(0x218f < code < 0x2c00)
                 && !(0x2fef < code < 0x3001) && !(0xd7ff < code < 0xf900) && !(0xfdcf < code < 0xfdf0) && !(0xfffd < code < 0x10000)
                 && code < 0xf0000
    ensures var code := c as int;
            IsNameChar(c)
            <==> && (code > 0xbf || code == 0xb7) && code != 0xd7 && code != 0xf7 && code != 0x37e
                 && !(0x1fff < code < 0x200c) && !(0x200d < code < 0x203f) && !(0x2040 < code < 0x2070) && !(0x218f < code < 0x2c00)
                 && !(0x2fef < code < 0x3001) && !(0xd7ff < code < 0xf900) && !(0xfdcf < code < 0xfdf0) && !(0xfffd < code < 0x10000)
                 && code < 0xf0000
  {
  }

  // ---------------------------------------------------------------- blanks and slashes

  /** What may stand between the parts of a tag: space, tab, line feed, carriage return and form feed. */
  lemma BlankIs(c: char)
    ensures IsBlank(c) <==> c as int in {9, 10, 12, 13, 32}
  {
  }

  lemma {:induction false} BlankIsWhite(s: string)
    requires AllBlank(s)
    ensures AllWhitespace(s)
  {
  }

  /** A tag closes itself exactly when a slash is the last thing in it, blanks behind it not counted. */
  lemma SlashIsLast(list: string, c: char, blanks: string)
    requires AllBlank(blanks) && !IsWhitespace(c)
    ensures SelfClosing(list + [c] + blanks) <==> c == '/'
  {
    BlankIsWhite(blanks);
    TrimEndPadding(list + [c], blanks);
  }
}
