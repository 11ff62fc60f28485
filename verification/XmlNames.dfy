/** Making field names into attribute names: valid ones are kept, the others get a number. */
module XmlNames {
  import opened Prelude
  import opened Text
  import opened Decimal
  import opened AttributeText
  import opened RecordsetModel
  import opened UpdategramRows

  function Candidate(n: nat): string {
    "c" + Dec(n)
  }

  /** Candidates numbered `from` or higher. */
  predicate IsCandidateFrom(s: string, from: nat) {
    |s| > 0 && AllDigits(s[1..]) && ToNat(s[1..]) >= from
  }

  ghost function Ahead(used: set<string>, from: nat): set<string> {
    set s | s in used && IsCandidateFrom(s, from)
  }

  lemma CandidateNumber(n: nat)
    ensures Candidate(n)[1..] == Dec(n) && ToNat(Candidate(n)[1..]) == n
    ensures Lower(Candidate(n)) == Candidate(n) && IsAttributeName(Candidate(n))
  {
    var s := Candidate(n);
    DecRoundTrip(n);
    assert s[1..] == Dec(n);
    forall i | 0 <= i < |s| ensures LowerChar(s[i]) == s[i] && (IsPlainStartChar(s[i]) || IsNameExtraChar(s[i])) {
      assert i > 0 ==> IsDigit(Dec(n)[i - 1]);
    }
  }

  /** A taken candidate is passed for good: what is ahead shrinks. */
  lemma PassingShrinks(used: set<string>, n: nat)
    requires Candidate(n) in used
    ensures Ahead(used, n + 1) < Ahead(used, n)
  {
    CandidateNumber(n);
    assert Candidate(n) in Ahead(used, n) && Candidate(n) !in Ahead(used, n + 1);
  }

  /** The first number whose candidate is free. */
  function FirstFree(used: set<string>, from: nat): (n: nat)
    ensures n >= from && Candidate(n) !in used
    ensures forall k | from <= k < n :: Candidate(k) in used
    decreases Ahead(used, from)
  {
    if Candidate(from) in used then
      PassingShrinks(used, from);
      FirstFree(used, from + 1)
    else from
  }

  /** The names used so far and the next number to try. */
  function NamesFrom(names: seq<string>, used: set<string>, next: nat): (r: seq<string>)
    ensures |r| == |names|
  {
    if names == [] then []
    else if IsAttributeName(names[0]) && Lower(names[0]) !in used
    then [names[0]] + NamesFrom(names[1..], used + {Lower(names[0])}, next)
    else
      var n := FirstFree(used, next);
      [Candidate(n)] + NamesFrom(names[1..], used + {Candidate(n)}, n + 1)
  }

  /** `generated_xml_names` */
  function GeneratedNames(names: seq<string>): seq<string> {
    NamesFrom(names, {}, 1)
  }

  /** The inner loop of the source ends because every pass uses up a taken candidate. */
  method NextFree(used: set<string>, from: nat) returns (n: nat)
    ensures n == FirstFree(used, from)
  {
    n := from;
    while Candidate(n) in used
      invariant FirstFree(used, n) == FirstFree(used, from)
      decreases Ahead(used, n)
    {
      PassingShrinks(used, n);
      n := n + 1;
    }
  }

  method GenerateNames(names: seq<string>) returns (out: seq<string>)
    ensures out == GeneratedNames(names)
  {
    var used: set<string>, generatedIndex: nat := {}, 1;
    out := [];
    for i := 0 to |names|
      invariant |out| == i && GeneratedNames(names) == out + NamesFrom(names[i..], used, generatedIndex)
    {
      var name := names[i];
      assert names[i..][1..] == names[i + 1..];
      ghost var before := out;
      if IsAttributeName(name) && Lower(name) !in used {
        used := used + {Lower(name)};
        out := out + [name];
      } else {
        var n := NextFree(used, generatedIndex);
        used := used + {Candidate(n)};
        out := out + [Candidate(n)];
        generatedIndex := n + 1;
      }
      Regrouped(before, [out[i]], NamesFrom(names[i + 1..], used, generatedIndex));
    }
  }

  predicate NamesDistinct(names: seq<string>, used: set<string>) {
    && (forall i | 0 <= i < |names| :: Lower(names[i]) !in used)
    && (forall i, j | 0 <= i < j < |names| :: Lower(names[i]) != Lower(names[j]))
  }

  lemma {:induction false} NamesFromAreGood(names: seq<string>, used: set<string>, next: nat)
    ensures NamesDistinct(NamesFrom(names, used, next), used)
    ensures forall i | 0 <= i < |names| :: IsAttributeName(NamesFrom(names, used, next)[i])
  {
    if names != [] {
      var out := NamesFrom(names, used, next);
      if IsAttributeName(names[0]) && Lower(names[0]) !in used {
        NamesFromAreGood(names[1..], used + {Lower(names[0])}, next);
        assert out[1..] == NamesFrom(names[1..], used + {Lower(names[0])}, next);
      } else {
        var n := FirstFree(used, next);
        CandidateNumber(n);
        NamesFromAreGood(names[1..], used + {Candidate(n)}, n + 1);
        assert out[1..] == NamesFrom(names[1..], used + {Candidate(n)}, n + 1);
      }
      FirstAndRest(out, used);
    }
  }

  lemma FirstAndRest(names: seq<string>, used: set<string>)
    requires names != [] && Lower(names[0]) !in used && NamesDistinct(names[1..], used + {Lower(names[0])})
    ensures NamesDistinct(names, used)
  {
    forall i | 0 <= i < |names| ensures Lower(names[i]) !in used && (i > 0 ==> Lower(names[i]) != Lower(names[0])) {
      assert i > 0 ==> names[1..][i - 1] == names[i];
    }
    forall i, j | 0 <= i < j < |names| ensures Lower(names[i]) != Lower(names[j]) {
      assert names[1..][j - 1] == names[j];
      assert i > 0 ==> names[1..][i - 1] == names[i];
    }
  }

  /** Whatever the fields are called, the generated names are valid attribute names, no two alike
      in any letter case. */
  lemma GeneratedNamesAreDistinct(names: seq<string>)
    ensures var out := GeneratedNames(names);
            && |out| == |names|
            && (forall i | 0 <= i < |out| :: IsAttributeName(out[i]))
            && (forall i, j | 0 <= i < j < |out| :: Lower(out[i]) != Lower(out[j]))
  {
    NamesFromAreGood(names, {}, 1);
  }

  /** A name is kept exactly when it is valid and no earlier result took it. */
  lemma {:induction false} KeptNames(names: seq<string>, used: set<string>, next: nat, i: nat)
    requires i < |names|
    requires IsAttributeName(names[i]) && Lower(names[i]) !in used
    requires forall j | 0 <= j < i :: Lower(NamesFrom(names, used, next)[j]) != Lower(names[i])
    ensures NamesFrom(names, used, next)[i] == names[i]
  {
    var out := NamesFrom(names, used, next);
    if i > 0 {
      assert Lower(out[0]) != Lower(names[i]);
      assert names[1..][i - 1] == names[i];
      forall j | 0 <= j < i - 1 ensures Lower(out[1..][j]) != Lower(names[i]) {
        assert out[1..][j] == out[j + 1];
      }
      if IsAttributeName(names[0]) && Lower(names[0]) !in used {
        assert out[1..] == NamesFrom(names[1..], used + {Lower(names[0])}, next);
        KeptNames(names[1..], used + {Lower(names[0])}, next, i - 1);
      } else {
        var n := FirstFree(used, next);
        CandidateNumber(n);
        assert out[1..] == NamesFrom(names[1..], used + {Candidate(n)}, n + 1);
        KeptNames(names[1..], used + {Candidate(n)}, n + 1, i - 1);
      }
    }
  }

  /** Names that are good already all stay. */
  lemma GoodNamesStay(names: seq<string>)
    requires forall i | 0 <= i < |names| :: IsAttributeName(names[i])
    requires forall i, j | 0 <= i < j < |names| :: Lower(names[i]) != Lower(names[j])
    ensures GeneratedNames(names) == names
  {
    PrefixStays(names, |names|);
  }

  lemma {:induction false} PrefixStays(names: seq<string>, n: nat)
    requires n <= |names|
    requires forall i | 0 <= i < |names| :: IsAttributeName(names[i])
    requires forall i, j | 0 <= i < j < |names| :: Lower(names[i]) != Lower(names[j])
    ensures forall i | 0 <= i < n :: GeneratedNames(names)[i] == names[i]
  {
    if n > 0 {
      PrefixStays(names, n - 1);
      KeptNames(names, {}, 1, n - 1);
    }
  }

  function NamesOf(fields: seq<Field>): (r: seq<string>)
    ensures |r| == |fields|
  {
    seq(|fields|, i requires 0 <= i < |fields| => fields[i].xmlName)
  }

  /** `normalize_field_xml_names` at one level */
  function NormalizeNames(fields: seq<Field>): (r: seq<Field>)
    ensures |r| == |fields|
  {
    seq(|fields|, i requires 0 <= i < |fields| => fields[i].(xmlName := GeneratedNames(NamesOf(fields))[i]))
  }

  /** Normalized fields pass the writer's own check, and normalizing again changes nothing. */
  lemma NormalizedFieldsAreNamed(fields: seq<Field>)
    ensures FieldsNamed(NormalizeNames(fields))
    ensures NormalizeNames(NormalizeNames(fields)) == NormalizeNames(fields)
  {
    var once := NormalizeNames(fields);
    GeneratedNamesAreDistinct(NamesOf(fields));
    assert NamesOf(once) == GeneratedNames(NamesOf(fields));
    GoodNamesStay(NamesOf(once));
  }

  lemma {:induction false} FirstCandidates()
    ensures Candidate(1) == "c1" && Candidate(2) == "c2" && Candidate(3) == "c3"
    ensures FirstFree({}, 1) == 1 && FirstFree({"c1", "c2"}, 2) == 3
  {
    assert |Candidate(3)| == 2 && Candidate(3)[1] == '3';
    assert "c1"[1] == '1' && "c2"[1] == '2';
    assert Candidate(3) !in {"c1", "c2"};
  }

  lemma {:induction false} SomeNames()
    ensures !IsAttributeName("") && IsAttributeName("C2") && Lower("C2") == "c2"
  {
  }

  /** Unusable names become c1, c2 and so on; the counter goes on past numbers that are taken. */
  lemma {:induction false} CountedNames()
    ensures GeneratedNames(["", "C2", ""]) == ["c1", "C2", "c3"]
  {
    FirstCandidates();
    SomeNames();
    var none: set<string> := {};
    assert none + {"c1"} == {"c1"} && {"c1"} + {"c2"} == {"c1", "c2"};
    assert [""][1..] == [];
    CountedFrom({"c1", "c2"}, 2, [""], 3, []);
    KeptFrom("C2", {"c1"}, 2, [""], ["c3"]);
    assert ["", "C2", ""][1..] == ["C2"] + [""];
    CountedFrom(none, 1, ["", "C2", ""], 1, ["C2", "c3"]);
  }

  /** One usable name in front of others. */
  lemma {:induction false} KeptFrom(name: string, used: set<string>, from: nat, names: seq<string>, rest: seq<string>)
    requires IsAttributeName(name) && Lower(name) !in used && NamesFrom(names, used + {Lower(name)}, from) == rest
    ensures NamesFrom([name] + names, used, from) == [name] + rest
  {
    assert ([name] + names)[1..] == names;
  }

  /** One unusable name in front of others. */
  lemma {:induction false} CountedFrom(used: set<string>, from: nat, names: seq<string>, n: nat, rest: seq<string>)
    requires names != [] && !IsAttributeName(names[0]) && FirstFree(used, from) == n
    requires NamesFrom(names[1..], used + {Candidate(n)}, n + 1) == rest
    ensures NamesFrom(names, used, from) == [Candidate(n)] + rest
  {
  }
}
