/** Character and entity references in attribute values. XML 1.0 sections 4.1 and 4.6. */
module CharacterReferences {
  import opened Prelude
  import opened Text
  import opened AttributeText
  import Decimal

  // ---------------------------------------------------------------- hexadecimal numbers

  function HexChar(d: nat, upper: bool): (c: char)
    requires d < 16
  {
    if upper then "0123456789ABCDEF"[d] else "0123456789abcdef"[d]
  }

  function Hex(n: nat, upper: bool): (r: string)
    ensures r != []
  {
    if n < 16 then [HexChar(n, upper)] else Hex(n / 16, upper) + [HexChar(n % 16, upper)]
  }

  lemma HexCharReads(d: nat, upper: bool)
    requires d < 16
    ensures IsHexDigit(HexChar(d, upper)) && HexDigit(HexChar(d, upper)) == d
  {
  }

  /** The digits of a number, below a radix. */
  predicate DigitsBelow(body: string, radix: nat) {
    forall i | 0 <= i < |body| :: IsHexDigit(body[i]) && HexDigit(body[i]) < radix
  }

  lemma {:induction false} OneMoreDigit(body: string, c: char, radix: nat)
    requires DigitsBelow(body, radix) && IsHexDigit(c) && HexDigit(c) < radix
    ensures DigitsBelow(body + [c], radix) && Digits(body + [c], radix) == radix * Digits(body, radix) + HexDigit(c)
  {
    assert (body + [c])[..|body|] == body;
  }

  lemma {:induction false} OneHexDigit(n: nat, upper: bool)
    requires n < 16
    ensures DigitsBelow(Hex(n, upper), 16) && Digits(Hex(n, upper), 16) == n
  {
    HexCharReads(n, upper);
    OneMoreDigit("", HexChar(n, upper), 16);
    assert "" + [HexChar(n, upper)] == Hex(n, upper);
  }

  lemma {:induction false} HexReads(n: nat, upper: bool)
    ensures DigitsBelow(Hex(n, upper), 16) && Digits(Hex(n, upper), 16) == n
  {
    HexCharReads(n % 16, upper);
    if n >= 16 {
      HexReads(n / 16, upper);
      OneMoreDigit(Hex(n / 16, upper), HexChar(n % 16, upper), 16);
    } else {
      OneHexDigit(n, upper);
    }
  }

  lemma {:induction false} DecReads(n: nat)
    ensures DigitsBelow(Decimal.Dec(n), 10) && Digits(Decimal.Dec(n), 10) == n
  {
    var s := Decimal.Dec(n);
    if n >= 10 {
      DecReads(n / 10);
      assert s[..|s| - 1] == Decimal.Dec(n / 10);
    } else {
      assert s[..0] == [];
    }
  }

  lemma CodeReads(body: string, radix: nat, n: nat)
    requires body != [] && DigitsBelow(body, radix) && Digits(body, radix) == n <= 0xffff_ffff
    ensures ParseCode(body, radix) == Ok(n)
    ensures ';' !in body && body[0] != 'x' && body[0] != 'X'
  {
    assert body[0] != '+';
  }

  // ---------------------------------------------------------------- the references

  lemma BehindEntity(entity: string, rest: string)
    requires ';' !in entity && Decode(rest).Ok?
    ensures Decode("&" + (entity + (";" + rest)))
            == if EntityChar(entity).Ok? then Ok([EntityChar(entity).value] + Decode(rest).value) else Err
  {
    if EntityChar(entity).Ok? {
      DecodeEntity(entity, rest);
    } else {
      var tail := entity + (";" + rest);
      assert ("&" + tail)[1..] == tail;
      SplitOnceBefore(entity, ';', rest);
    }
  }

  /** The character a code point stands for, if XML allows it. */
  function Referred(n: nat, rest: string): Result<string> {
    if (n == 9 || n == 10 || n == 13 || 32 <= n <= 55_295 || 57_344 <= n <= 65_533 || 65_536 <= n <= 1_114_111) && Decode(rest).Ok?
    then Ok([n as char] + Decode(rest).value)
    else Err
  }

  /** A reference by number is no named entity. */
  lemma {:induction false} NumberedEntity(entity: string)
    requires |entity| >= 2 && entity[0] == '#'
    ensures EntityChar(entity)
            == if entity[1] == 'x' || entity[1] == 'X' then CharOf(ParseCode(entity[2..], 16)) else CharOf(ParseCode(entity[1..], 10))
  {
    assert entity != "amp" && entity != "lt" && entity != "gt" && entity != "apos" && entity != "quot";
    assert "#x" <= entity <==> entity[1] == 'x';
    assert "#X" <= entity <==> entity[1] == 'X';
    assert "#" <= entity;
  }

  lemma {:induction false} DecimalEntity(n: nat)
    requires n <= 0xffff_ffff
    ensures ';' !in "#" + Decimal.Dec(n) && EntityChar("#" + Decimal.Dec(n)) == CharOf(Ok(n))
  {
    var body := Decimal.Dec(n);
    DecReads(n);
    CodeReads(body, 10, n);
    Marked("#", body);
    NumberedEntity("#" + body);
  }

  lemma Marked(mark: string, body: string)
    ensures mark <= mark + body && (mark + body)[|mark|..] == body
    ensures |mark| > 0 ==> (mark + body)[0] == mark[0]
    ensures body != [] ==> (mark + body)[|mark|] == body[0]
  {
  }

  lemma {:induction false} HexEntity(n: nat, capital: bool, upper: bool)
    requires n <= 0xffff_ffff
    ensures var entity := (if capital then "#X" else "#x") + Hex(n, upper); ';' !in entity && EntityChar(entity) == CharOf(Ok(n))
  {
    var body, mark := Hex(n, upper), if capital then "#X" else "#x";
    HexReads(n, upper);
    CodeReads(body, 16, n);
    Marked(mark, body);
    assert (mark + body)[1] == mark[1];
    NumberedEntity(mark + body);
  }

  /** A decimal reference decodes to the character of that number, in front of what follows, and is an
      error if XML allows no such character. */
  lemma {:induction false} DecimalReference(n: nat, rest: string)
    requires n <= 0xffff_ffff && Decode(rest).Ok?
    ensures Decode("&" + (("#" + Decimal.Dec(n)) + (";" + rest))) == Referred(n, rest)
  {
    DecimalEntity(n);
    BehindEntity("#" + Decimal.Dec(n), rest);
  }

  /** So does a hexadecimal one, with a small or a capital x, in small or capital digits. */
  lemma {:induction false} HexReference(n: nat, capital: bool, upper: bool, rest: string)
    requires n <= 0xffff_ffff && Decode(rest).Ok?
    ensures Decode("&" + (((if capital then "#X" else "#x") + Hex(n, upper)) + (";" + rest))) == Referred(n, rest)
  {
    HexEntity(n, capital, upper);
    BehindEntity((if capital then "#X" else "#x") + Hex(n, upper), rest);
  }

  lemma {:induction false} NamedEntities()
    ensures EntityChar("amp") == Ok('&') && EntityChar("lt") == Ok('<') && EntityChar("gt") == Ok('>')
    ensures EntityChar("apos") == Ok('\'') && EntityChar("quot") == Ok('\"')
  {
  }

  /** The five named entities. */
  lemma NamedReferences(rest: string)
    requires Decode(rest).Ok?
    ensures Decode("&" + ("amp" + (";" + rest))) == Ok("&" + Decode(rest).value)
    ensures Decode("&" + ("lt" + (";" + rest))) == Ok("<" + Decode(rest).value)
    ensures Decode("&" + ("gt" + (";" + rest))) == Ok(">" + Decode(rest).value)
    ensures Decode("&" + ("apos" + (";" + rest))) == Ok("'" + Decode(rest).value)
    ensures Decode("&" + ("quot" + (";" + rest))) == Ok("\"" + Decode(rest).value)
  {
    NamedEntities();
    BehindEntity("amp", rest);
    BehindEntity("lt", rest);
    BehindEntity("gt", rest);
    BehindEntity("apos", rest);
    BehindEntity("quot", rest);
  }

  lemma {:induction false} NoSuchEntity(entity: string)
    requires !("#" <= entity) && entity != "amp" && entity != "lt" && entity != "gt" && entity != "apos" && entity != "quot"
    ensures EntityChar(entity) == Err
  {
    HashFirst(entity);
  }

  lemma {:induction false} HashFirst(entity: string)
    ensures "#x" <= entity || "#X" <= entity ==> "#" <= entity
  {
  }

  /** Any other word between an ampersand and a semicolon is an error. */
  lemma UnknownReference(entity: string, rest: string)
    requires ';' !in entity && Decode(rest).Ok? && !("#" <= entity)
    requires entity !in ["amp", "lt", "gt", "apos", "quot"]
    ensures Decode("&" + (entity + (";" + rest))) == Err
  {
    NoSuchEntity(entity);
    BehindEntity(entity, rest);
  }

  lemma QuotedAs(c: char, entity: string, rest: string)
    requires EntityOf(c) == Some(entity)
    ensures Escape([c] + rest) == "&" + (entity + (";" + Escape(rest)))
  {
    assert ([c] + rest)[1..] == rest;
  }

  /** How the writer quotes each of eight characters, and that it leaves all others as they are. */
  lemma EscapedAs(c: char, rest: string)
    ensures Escape([c] + rest)
            == match c {
                 case '&' => "&" + ("amp" + (";" + Escape(rest)))
                 case '\'' => "&" + ("#x27" + (";" + Escape(rest)))
                 case '\"' => "&" + ("quot" + (";" + Escape(rest)))
                 case '<' => "&" + ("lt" + (";" + Escape(rest)))
                 case '>' => "&" + ("gt" + (";" + Escape(rest)))
                 case '\t' => "&" + ("#x9" + (";" + Escape(rest)))
                 case '\n' => "&" + ("#xA" + (";" + Escape(rest)))
                 case '\r' => "&" + ("#xD" + (";" + Escape(rest)))
                 case _ => [c] + Escape(rest)
               }
  {
    if EntityOf(c).Some? {
      QuotedAs(c, EntityOf(c).value, rest);
    } else {
      assert ([c] + rest)[1..] == rest;
    }
  }
}
