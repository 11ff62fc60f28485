/** Positions in the original text found again from positions in its sanitized copy. */
module OffsetMap {
  import opened Prelude
  import opened AttributeText

  // ---------------------------------------------------------------- lengths in bytes

  /** `len_utf8` */
  function CharLength(c: char): (n: nat)
    ensures 1 <= n <= 4
  {
    var code := c as int;
    if code < 0x80 then 1 else if code < 0x800 then 2 else if code < 0x10000 then 3 else 4
  }

  function ByteLength(s: string): nat {
    if s == [] then 0 else ByteLength(s[..|s| - 1]) + CharLength(s[|s| - 1])
  }

  /** How many bits of a code point n bytes of UTF-8 hold: seven, or five for each byte and one more. */
  function Capacity(n: nat): nat {
    Pow(2, if n == 1 then 7 else 5 * n + 1)
  }

  /** The length of a character in UTF-8 is the least number of bytes that hold it. RFC 3629, section 3. */
  lemma {:induction false} CharLengthIsLeast(c: char)
    ensures 1 <= CharLength(c) <= 4 && (c as int) < Capacity(CharLength(c))
    ensures forall n | 1 <= n < CharLength(c) :: Capacity(n) <= c as int
  {
    assert Pow(2, 5) == 32;
    Doubled(5);
    Doubled(6);
    Doubled(7);
    Doubled(8);
    Doubled(9);
    Doubled(10);
    Doubled(11);
    Doubled(12);
    Doubled(13);
    Doubled(14);
    Doubled(15);
    Doubled(16);
    Doubled(17);
    Doubled(18);
    Doubled(19);
    Doubled(20);
    assert Capacity(1) == 0x80 && Capacity(2) == 0x800 && Capacity(3) == 0x1_0000 && Capacity(4) == 0x20_0000;
  }

  lemma Doubled(k: nat)
    ensures Pow(2, k + 1) == 2 * Pow(2, k)
  {
  }

  const REPLACEMENT := '\U{fffd}'

  function SanitizeChar(c: char): char {
    if IsXmlChar(c) then c else REPLACEMENT
  }

  /** `sanitize_xml_text_for_structural_parse` */
  function Sanitize(s: string): (r: string)
    ensures |r| == |s|
  {
    if s == [] then [] else Sanitize(s[..|s| - 1]) + [SanitizeChar(s[|s| - 1])]
  }

  lemma {:induction false} SanitizedPrefix(s: string, n: nat)
    requires n <= |s|
    ensures Sanitize(s)[..n] == Sanitize(s[..n])
  {
    if n < |s| {
      SanitizedPrefix(s[..|s| - 1], n);
      assert s[..|s| - 1][..n] == s[..n];
    } else {
      assert s[..n] == s;
    }
  }

  lemma {:induction false} SanitizedIsXmlText(s: string)
    ensures IsXmlText(Sanitize(s))
    ensures IsXmlText(s) ==> Sanitize(s) == s
    ensures forall i | 0 <= i < |s| :: Sanitize(s)[i] == if IsXmlChar(s[i]) then s[i] else '\U{fffd}'
  {
    if s != [] {
      SanitizedIsXmlText(s[..|s| - 1]);
      assert s == s[..|s| - 1] + [s[|s| - 1]];
    }
  }

  function SanitizedLength(s: string): nat {
    ByteLength(Sanitize(s))
  }

  lemma SanitizedLengthSnoc(s: string, c: char)
    ensures SanitizedLength(s + [c]) == SanitizedLength(s) + CharLength(SanitizeChar(c))
    ensures ByteLength(s + [c]) == ByteLength(s) + CharLength(c)
  {
    assert (s + [c])[..|s|] == s;
    var r := Sanitize(s) + [SanitizeChar(c)];
    assert r[..|s|] == Sanitize(s);
  }

  // ---------------------------------------------------------------- checkpoints

  /** A sanitized and an original offset that belong together. */
  datatype Checkpoint = Checkpoint(structural: nat, original: nat)

  /** A checkpoint behind a character whose replacement has another length. */
  function Marked(c: char, structural: nat, original: nat): seq<Checkpoint> {
    if CharLength(c) == CharLength(SanitizeChar(c)) then [] else [Checkpoint(structural, original)]
  }

  function Checkpoints(s: string): seq<Checkpoint> {
    if s == [] then [] else Checkpoints(s[..|s| - 1]) + Marked(s[|s| - 1], SanitizedLength(s), ByteLength(s))
  }

  lemma CheckpointsSnoc(s: string, c: char, structural: nat, original: nat)
    requires structural == SanitizedLength(s + [c]) && original == ByteLength(s + [c])
    ensures Checkpoints(s + [c]) == Checkpoints(s) + Marked(c, structural, original)
  {
    assert (s + [c])[..|s|] == s;
  }

  predicate Ascending(points: seq<Checkpoint>) {
    forall i, j | 0 <= i < j < |points| :: points[i].structural < points[j].structural
  }

  /** How many checkpoints lie at or before an offset. */
  function PartitionPoint(points: seq<Checkpoint>, offset: nat): (n: nat)
    ensures n <= |points|
    ensures forall k | n <= k < |points| :: points[k].structural > offset
    ensures n > 0 ==> points[n - 1].structural <= offset
  {
    if points == [] || points[|points| - 1].structural <= offset then |points|
    else PartitionPoint(points[..|points| - 1], offset)
  }

  /** `original_offset` */
  function OriginalOffset(points: seq<Checkpoint>, offset: nat): nat {
    var n := PartitionPoint(points, offset);
    var base := if n == 0 then Checkpoint(0, 0) else points[n - 1];
    base.original + (if offset >= base.structural then offset - base.structural else 0)
  }

  /** `StructuralPositionMapper` */
  class PositionMapper {
    var checkpoints: seq<Checkpoint>

    constructor (text: string)
      ensures checkpoints == Checkpoints(text)
    {
      var points: seq<Checkpoint>, structural, original := [], 0, 0;
      for i := 0 to |text|
        invariant points == Checkpoints(text[..i])
        invariant structural == SanitizedLength(text[..i]) && original == ByteLength(text[..i])
      {
        var originalLength := CharLength(text[i]);
        var structuralLength := if IsXmlChar(text[i]) then originalLength else CharLength(REPLACEMENT);
        assert text[..i + 1] == text[..i] + [text[i]];
        SanitizedLengthSnoc(text[..i], text[i]);
        structural, original := structural + structuralLength, original + originalLength;
        CheckpointsSnoc(text[..i], text[i], structural, original);
        if structuralLength != originalLength {
          points := points + [Checkpoint(structural, original)];
        }
      }
      assert text[..|text|] == text;
      checkpoints := points;
    }

    /** The binary search of `partition_point`. */
    method FindPartition(offset: nat) returns (n: nat)
      requires Ascending(checkpoints)
      ensures n == PartitionPoint(checkpoints, offset)
    {
      var low, high := 0, |checkpoints|;
      while low < high
        invariant low <= high <= |checkpoints|
        invariant forall k | 0 <= k < low :: checkpoints[k].structural <= offset
        invariant forall k | high <= k < |checkpoints| :: checkpoints[k].structural > offset
      {
        var middle := (low + high) / 2;
        if checkpoints[middle].structural <= offset {
          low := middle + 1;
        } else {
          high := middle;
        }
      }
      n := low;
      PartitionIsUnique(checkpoints, offset, n);
    }

    method Find(offset: nat) returns (original: nat)
      requires Ascending(checkpoints)
      ensures original == OriginalOffset(checkpoints, offset)
    {
      var n := FindPartition(offset);
      var base := if n == 0 then Checkpoint(0, 0) else checkpoints[n - 1];
      original := base.original + (if offset >= base.structural then offset - base.structural else 0);
    }
  }

  // ---------------------------------------------------------------- the map is exact

  lemma {:induction false} CheckpointsAscend(s: string)
    ensures Ascending(Checkpoints(s))
    ensures forall i | 0 <= i < |Checkpoints(s)| :: Checkpoints(s)[i].structural <= SanitizedLength(s)
  {
    if s != [] {
      var init, c := s[..|s| - 1], s[|s| - 1];
      CheckpointsAscend(init);
      SanitizedLengthSnoc(init, c);
      assert s == init + [c];
    }
  }

  /** Points behind an offset stay behind it when another one is added behind. */
  lemma LaterPoints(before: seq<Checkpoint>, points: seq<Checkpoint>, added: seq<Checkpoint>, offset: nat)
    requires before <= points && forall k | |before| <= k < |points| :: points[k].structural > offset
    requires forall k | 0 <= k < |added| :: added[k].structural > offset
    ensures before <= points + added
    ensures forall k | |before| <= k < |points + added| :: (points + added)[k].structural > offset
  {
  }

  lemma {:induction false} LengthOfPrefix(s: string, n: nat)
    requires n <= |s|
    ensures SanitizedLength(s[..n]) <= SanitizedLength(s)
  {
    if n < |s| {
      var init, c := s[..|s| - 1], s[|s| - 1];
      LengthOfPrefix(init, n);
      assert init[..n] == s[..n] && s == init + [c];
      SanitizedLengthSnoc(init, c);
    } else {
      assert s[..n] == s;
    }
  }

  /** Later characters only add checkpoints behind the prefix. */
  lemma {:induction false} CheckpointsOfPrefix(s: string, n: nat)
    requires n <= |s|
    ensures Checkpoints(s[..n]) <= Checkpoints(s)
    ensures forall k | |Checkpoints(s[..n])| <= k < |Checkpoints(s)| :: Checkpoints(s)[k].structural > SanitizedLength(s[..n])
  {
    if n < |s| {
      var init, c := s[..|s| - 1], s[|s| - 1];
      CheckpointsOfPrefix(init, n);
      LengthOfPrefix(init, n);
      assert init[..n] == s[..n] && s == init + [c];
      SanitizedLengthSnoc(init, c);
      CheckpointsSnoc(init, c, SanitizedLength(s), ByteLength(s));
      assert SanitizedLength(s) > SanitizedLength(init);
      LaterPoints(Checkpoints(s[..n]), Checkpoints(init), Marked(c, SanitizedLength(s), ByteLength(s)), SanitizedLength(s[..n]));
    } else {
      assert s[..n] == s;
    }
  }

  /** Behind the last checkpoint both texts run in step. */
  lemma {:induction false} InStepBehindLast(s: string)
    ensures var points := Checkpoints(s);
            var base := if points == [] then Checkpoint(0, 0) else points[|points| - 1];
            base.structural <= SanitizedLength(s) && ByteLength(s) - base.original == SanitizedLength(s) - base.structural
  {
    if s != [] {
      var init, c := s[..|s| - 1], s[|s| - 1];
      InStepBehindLast(init);
      SanitizedLengthSnoc(init, c);
      assert s == init + [c];
    }
  }

  lemma PartitionIsUnique(points: seq<Checkpoint>, offset: nat, n: nat)
    requires Ascending(points) && n <= |points|
    requires forall k | 0 <= k < n :: points[k].structural <= offset
    requires forall k | n <= k < |points| :: points[k].structural > offset
    ensures PartitionPoint(points, offset) == n
  {
  }

  lemma PartitionAtPrefix(text: string, n: nat)
    requires n <= |text|
    ensures var points, before := Checkpoints(text), Checkpoints(text[..n]);
            && PartitionPoint(points, SanitizedLength(text[..n])) == |before|
            && before <= points
  {
    CheckpointsAscend(text);
    CheckpointsAscend(text[..n]);
    CheckpointsOfPrefix(text, n);
    PartitionIsUnique(Checkpoints(text), SanitizedLength(text[..n]), |Checkpoints(text[..n])|);
  }

  lemma OffsetFromBase(points: seq<Checkpoint>, before: seq<Checkpoint>, offset: nat, original: nat)
    requires PartitionPoint(points, offset) == |before| && before <= points
    requires var base := if before == [] then Checkpoint(0, 0) else before[|before| - 1];
             base.structural <= offset && original - base.original == offset - base.structural
    ensures OriginalOffset(points, offset) == original
  {
    assert before != [] ==> points[|before| - 1] == before[|before| - 1];
  }

  lemma ExactAt(text: string, n: nat, offset: nat)
    requires n <= |text| && offset == SanitizedLength(text[..n])
    ensures OriginalOffset(Checkpoints(text), offset) == ByteLength(text[..n])
  {
    PartitionAtPrefix(text, n);
    InStepBehindLast(text[..n]);
    OffsetFromBase(Checkpoints(text), Checkpoints(text[..n]), offset, ByteLength(text[..n]));
  }

  /** At every character boundary of every text, the sanitized position leads back to the original
      one: no position drifts, however many characters were replaced before it. */
  lemma OffsetsAreExact(text: string, n: nat)
    requires n <= |text|
    ensures OriginalOffset(Checkpoints(text), ByteLength(Sanitize(text)[..n])) == ByteLength(text[..n])
  {
    SanitizedPrefix(text, n);
    ExactAt(text, n, ByteLength(Sanitize(text)[..n]));
  }
}
