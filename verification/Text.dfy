/** String primitives the parsers and printers share. */
module Text {
  import opened Prelude

  /** The Unicode White_Space property, as `trim` and `split_whitespace` use it. */
  predicate IsWhitespace(c: char) {
    var code := c as int;
    || 0x09 <= code <= 0x0d || code == 0x20 || code == 0x85 || code == 0xa0 || code == 0x1680
    || 0x2000 <= code <= 0x200a || code == 0x2028 || code == 0x2029 || code == 0x202f || code == 0x205f || code == 0x3000
  }

  predicate IsDigit(c: char) {
    '0' <= c <= '9'
  }

  predicate AllDigits(s: string) {
    forall i | 0 <= i < |s| :: IsDigit(s[i])
  }

  function LowerChar(c: char): char {
    if 'A' <= c <= 'Z' then c - 'A' + 'a' else c
  }

  /** `to_ascii_lowercase` */
  function Lower(s: string): (r: string)
    ensures |r| == |s|
  {
    seq(|s|, i requires 0 <= i < |s| => LowerChar(s[i]))
  }

  function TrimStart(s: string): (r: string)
    ensures |r| <= |s|
  {
    if s != [] && IsWhitespace(s[0]) then TrimStart(s[1..]) else s
  }

  function TrimEnd(s: string): (r: string)
    ensures |r| <= |s|
  {
    if s != [] && IsWhitespace(s[|s| - 1]) then TrimEnd(s[..|s| - 1]) else s
  }

  function Trim(s: string): string {
    TrimEnd(TrimStart(s))
  }

  predicate AllWhitespace(s: string) {
    forall i | 0 <= i < |s| :: IsWhitespace(s[i])
  }

  lemma {:induction false} TrimStartPadding(left: string, s: string)
    requires AllWhitespace(left) && s != [] && !IsWhitespace(s[0])
    ensures TrimStart(left + s) == s
  {
    if left == [] {
      assert left + s == s;
    } else {
      assert (left + s)[1..] == left[1..] + s;
      TrimStartPadding(left[1..], s);
    }
  }

  lemma {:induction false} TrimEndPadding(s: string, right: string)
    requires AllWhitespace(right) && s != [] && !IsWhitespace(s[|s| - 1])
    ensures TrimEnd(s + right) == s
  {
    if right == [] {
      assert s + right == s;
    } else {
      assert (s + right)[..|s + right| - 1] == s + right[..|right| - 1];
      TrimEndPadding(s, right[..|right| - 1]);
    }
  }

  lemma TrimPadding(left: string, s: string, right: string)
    requires AllWhitespace(left) && AllWhitespace(right)
    requires s != [] && !IsWhitespace(s[0]) && !IsWhitespace(s[|s| - 1])
    ensures Trim(left + s + right) == s
  {
    assert left + s + right == left + (s + right);
    TrimStartPadding(left, s + right);
    TrimEndPadding(s, right);
  }

  lemma TrimNothing(s: string)
    requires s != [] && !IsWhitespace(s[0]) && !IsWhitespace(s[|s| - 1])
    ensures Trim(s) == s
  {
  }

  /** `trim_start_matches` of one character */
  function DropLeading(s: string, c: char): (r: string)
    ensures |r| <= |s|
  {
    if s != [] && s[0] == c then DropLeading(s[1..], c) else s
  }

  /** `trim_end_matches` of one character */
  function DropTrailing(s: string, c: char): (r: string)
    ensures |r| <= |s|
  {
    if s != [] && s[|s| - 1] == c then DropTrailing(s[..|s| - 1], c) else s
  }

  lemma {:induction false} DropLeadingSplits(s: string, c: char)
    ensures var r := DropLeading(s, c);
            && (r == [] || r[0] != c)
            && s == Repeat(c, |s| - |r|) + r
  {
    if s != [] && s[0] == c {
      DropLeadingSplits(s[1..], c);
      var r := DropLeading(s[1..], c);
      assert Repeat(c, |s| - |r|) == [c] + Repeat(c, |s| - 1 - |r|);
    }
  }

  lemma {:induction false} DropTrailingSplits(s: string, c: char)
    ensures var r := DropTrailing(s, c);
            && (r == [] || r[|r| - 1] != c)
            && s == r + Repeat(c, |s| - |r|)
            && r == s[..|r|]
  {
    if s != [] && s[|s| - 1] == c {
      var init := s[..|s| - 1];
      DropTrailingSplits(init, c);
      var r := DropTrailing(init, c);
      assert Repeat(c, |s| - |r|) == Repeat(c, |init| - |r|) + [c];
      assert s == init + [c];
    }
  }

  /** Nothing before a different character is dropped. */
  lemma {:induction false} DropTrailingBehind(head: string, tail: string, c: char)
    requires head != [] && head[|head| - 1] != c
    ensures DropTrailing(head + tail, c) == head + DropTrailing(tail, c)
  {
    if tail == [] {
      assert head + tail == head;
    } else if tail[|tail| - 1] == c {
      assert (head + tail)[..|head + tail| - 1] == head + tail[..|tail| - 1];
      DropTrailingBehind(head, tail[..|tail| - 1], c);
    }
  }

  function Repeat(c: char, n: nat): (r: string)
    ensures |r| == n
  {
    seq(n, _ => c)
  }

  /** `split_once` */
  function SplitOnce(s: string, c: char): (r: Option<(string, string)>)
    ensures r.Some? ==> s == r.value.0 + [c] + r.value.1 && c !in r.value.0
    ensures r.None? <==> c !in s
  {
    if s == [] then None
    else if s[0] == c then Some(([], s[1..]))
    else
      match SplitOnce(s[1..], c)
      case None => None
      case Some(parts) => Some(([s[0]] + parts.0, parts.1))
  }

  lemma {:induction false} SplitOnceAt(head: string, c: char, tail: string)
    requires c !in head
    ensures SplitOnce(head + [c] + tail, c) == Some((head, tail))
  {
    var s := head + [c] + tail;
    if head != [] {
      assert s[1..] == head[1..] + [c] + tail;
      SplitOnceAt(head[1..], c, tail);
      assert head == [head[0]] + head[1..];
    }
  }

  lemma SplitOnceBefore(head: string, c: char, tail: string)
    requires c !in head
    ensures SplitOnce(head + ([c] + tail), c) == Some((head, tail))
  {
    Regrouped(head, [c], tail);
    SplitOnceAt(head, c, tail);
  }

  /** `split(c)` */
  function Split(s: string, c: char): (r: seq<string>)
    ensures |r| >= 1
    decreases |s|
  {
    match SplitOnce(s, c)
    case None => [s]
    case Some(parts) => [parts.0] + Split(parts.1, c)
  }

  function Join(words: seq<string>, c: char): string {
    if words == [] then []
    else if |words| == 1 then words[0]
    else words[0] + [c] + Join(words[1..], c)
  }

  lemma {:induction false} SplitJoin(words: seq<string>, c: char)
    requires words != [] && forall i | 0 <= i < |words| :: c !in words[i]
    ensures Split(Join(words, c), c) == words
  {
    if |words| == 1 {
      assert words == [words[0]];
    } else {
      SplitOnceAt(words[0], c, Join(words[1..], c));
      SplitJoin(words[1..], c);
    }
  }

  lemma {:induction false} JoinSplit(s: string, c: char)
    ensures Join(Split(s, c), c) == s
    ensures forall i | 0 <= i < |Split(s, c)| :: c !in Split(s, c)[i]
    decreases |s|
  {
    match SplitOnce(s, c)
    case None =>
    case Some(parts) => JoinSplit(parts.1, c);
  }

  /** The first word of a text, if any, and what follows it. */
  function WordLength(s: string): (r: nat)
    ensures r <= |s|
    ensures forall i | 0 <= i < r :: !IsWhitespace(s[i])
    ensures r == |s| || IsWhitespace(s[r])
  {
    if s == [] || IsWhitespace(s[0]) then 0 else 1 + WordLength(s[1..])
  }

  /** `split_whitespace` */
  function Words(s: string): seq<string>
    decreases |s|
  {
    if s == [] then []
    else if IsWhitespace(s[0]) then Words(s[1..])
    else [s[..WordLength(s)]] + Words(s[WordLength(s)..])
  }

  predicate IsWord(s: string) {
    s != [] && forall i | 0 <= i < |s| :: !IsWhitespace(s[i])
  }

  lemma {:induction false} WordLengthAt(word: string, rest: string)
    requires IsWord(word) && (rest == [] || IsWhitespace(rest[0]))
    ensures WordLength(word + rest) == |word|
  {
    var s := word + rest;
    assert forall i | 0 <= i < |word| :: s[i] == word[i];
    assert |word| < |s| ==> s[|word|] == rest[0];
  }

  lemma {:induction false} WordsOfJoin(words: seq<string>)
    requires forall i | 0 <= i < |words| :: IsWord(words[i])
    ensures Words(Join(words, ' ')) == words
  {
    if words != [] {
      var rest := if |words| == 1 then [] else " " + Join(words[1..], ' ');
      var s := words[0] + rest;
      assert Join(words, ' ') == s;
      WordLengthAt(words[0], rest);
      assert s[..|words[0]|] == words[0] && s[|words[0]|..] == rest;
      WordsOfJoin(words[1..]);
      if |words| > 1 {
        assert rest[1..] == Join(words[1..], ' ');
      }
    }
  }

  /** Two texts are alike in lower case exactly when they differ in the case of ASCII letters at most. */
  lemma LowerIsCaseless(a: string, b: string)
    ensures Lower(a) == Lower(b)
            <==> |a| == |b| && forall i | 0 <= i < |a| ::
                   || a[i] == b[i]
                   || (65 <= a[i] as int <= 90 && b[i] as int == a[i] as int + 32)
                   || (65 <= b[i] as int <= 90 && a[i] as int == b[i] as int + 32)
  {
    if Lower(a) == Lower(b) {
      forall i | 0 <= i < |a|
        ensures || a[i] == b[i]
                || (65 <= a[i] as int <= 90 && b[i] as int == a[i] as int + 32)
                || (65 <= b[i] as int <= 90 && a[i] as int == b[i] as int + 32)
      {
        assert Lower(a)[i] == Lower(b)[i];
      }
    }
  }

  /** The twenty-five characters that count as white space. */
  lemma WhitespaceIs(c: char)
    ensures IsWhitespace(c)
            <==> c as int in {9, 10, 11, 12, 13, 32, 133, 160, 5760, 8192, 8193, 8194, 8195, 8196, 8197, 8198, 8199, 8200, 8201, 8202,
                              8232, 8233, 8239, 8287, 12288}
  {
  }
}
