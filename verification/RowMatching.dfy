/** Comparing two views whose rows may come in any order: the greedy matching and when it is enough. */
module RowMatching {
  import opened Prelude

  type Relation<!L, !R> = (L, R) -> bool

  /** A choice of partners: one unused right row for every left row, no right row twice. */
  predicate Pairing<L, R>(matches: Relation<L, R>, left: seq<L>, right: seq<R>, used: set<nat>, partners: seq<nat>) {
    && |partners| == |left|
    && (forall i | 0 <= i < |left| :: partners[i] < |right| && partners[i] !in used && matches(left[i], right[partners[i]]))
    && (forall i, j | 0 <= i < j < |left| :: partners[i] != partners[j])
  }

  ghost predicate Pairable<L, R>(matches: Relation<L, R>, left: seq<L>, right: seq<R>, used: set<nat>) {
    exists partners: seq<nat> :: Pairing(matches, left, right, used, partners)
  }

  // ---------------------------------------------------------------- the greedy choice

  /** The first unused right row from an index on that matches. */
  function Position<L, R>(matches: Relation<L, R>, row: L, right: seq<R>, used: set<nat>, from: nat): (r: Option<nat>)
    requires from <= |right|
    ensures r.Some? ==> from <= r.value < |right| && r.value !in used && matches(row, right[r.value])
    ensures forall k | from <= k < (if r.Some? then r.value else |right|) :: k in used || !matches(row, right[k])
    decreases |right| - from
  {
    if from == |right| then None
    else if from !in used && matches(row, right[from]) then Some(from)
    else Position(matches, row, right, used, from + 1)
  }

  function Greedy<L, R>(matches: Relation<L, R>, left: seq<L>, right: seq<R>, used: set<nat>): bool {
    left == [] || match Position(matches, left[0], right, used, 0)
                  case None => false
                  case Some(index) => Greedy(matches, left[1..], right, used + {index})
  }

  /** `rows_match_unordered` */
  function MatchUnordered<L, R>(matches: Relation<L, R>, left: seq<L>, right: seq<R>): bool {
    |left| == |right| && Greedy(matches, left, right, {})
  }

  function Marked(used: seq<bool>): (r: set<nat>)
    ensures forall k: nat :: k in r <==> k < |used| && used[k]
  {
    set k: nat | k < |used| && used[k]
  }

  method FindPosition<L, R>(matches: Relation<L, R>, row: L, right: seq<R>, used: array<bool>) returns (r: Option<nat>)
    requires used.Length == |right|
    ensures r == Position(matches, row, right, Marked(used[..]), 0)
  {
    var index := 0;
    while index < |right|
      invariant index <= |right|
      invariant Position(matches, row, right, Marked(used[..]), 0) == Position(matches, row, right, Marked(used[..]), index)
    {
      if !used[index] && matches(row, right[index]) {
        return Some(index);
      }
      index := index + 1;
    }
    return None;
  }

  /** The loop of the source over its `used` flags. */
  method MatchRows<L, R>(matches: Relation<L, R>, left: seq<L>, right: seq<R>) returns (ok: bool)
    ensures ok == MatchUnordered(matches, left, right)
  {
    if |left| != |right| {
      return false;
    }
    var used := new bool[|right|](_ => false);
    assert Marked(used[..]) == {};
    var i := 0;
    while i < |left|
      invariant i <= |left|
      invariant Greedy(matches, left, right, {}) == Greedy(matches, left[i..], right, Marked(used[..]))
    {
      ghost var before := Marked(used[..]);
      assert left[i..][1..] == left[i + 1..];
      var index := FindPosition(matches, left[i], right, used);
      if index.None? {
        return false;
      }
      used[index.value] := true;
      assert Marked(used[..]) == before + {index.value};
      i := i + 1;
    }
    return true;
  }

  // ---------------------------------------------------------------- what a match means

  /** The partners the greedy choice makes. */
  lemma {:induction false} GreedyPairs<L, R>(matches: Relation<L, R>, left: seq<L>, right: seq<R>, used: set<nat>)
    returns (partners: seq<nat>)
    requires Greedy(matches, left, right, used)
    ensures Pairing(matches, left, right, used, partners)
  {
    if left == [] {
      partners := [];
    } else {
      var index := Position(matches, left[0], right, used, 0).value;
      var rest := GreedyPairs(matches, left[1..], right, used + {index});
      partners := [index] + rest;
      forall i | 0 <= i < |left|
        ensures partners[i] < |right| && partners[i] !in used && matches(left[i], right[partners[i]])
      {
        assert i > 0 ==> left[i] == left[1..][i - 1] && partners[i] == rest[i - 1];
      }
      forall i, j | 0 <= i < j < |left| ensures partners[i] != partners[j] {
        assert partners[j] == rest[j - 1] && rest[j - 1] !in used + {index};
        assert i > 0 ==> partners[i] == rest[i - 1];
      }
    }
  }

  /** Two rows that share one partner share all of them; true of every equivalence. */
  ghost predicate Rectangular<L(!new), R(!new)>(matches: Relation<L, R>) {
    forall a: L, b: L, x: R, y: R :: matches(a, x) && matches(b, x) && matches(b, y) ==> matches(a, y)
  }

  ghost predicate Equivalence<T(!new)>(matches: Relation<T, T>) {
    && (forall a: T :: matches(a, a))
    && (forall a: T, b: T :: matches(a, b) ==> matches(b, a))
    && (forall a: T, b: T, c: T :: matches(a, b) && matches(b, c) ==> matches(a, c))
  }

  lemma EquivalenceIsRectangular<T(!new)>(matches: Relation<T, T>)
    requires Equivalence(matches)
    ensures Rectangular(matches)
  {
    forall a: T, b: T, x: T, y: T | matches(a, x) && matches(b, x) && matches(b, y) ensures matches(a, y) {
      assert matches(x, b);
      assert matches(a, b);
    }
  }

  /** Whatever partner is taken first, the rest can still be paired: the row that wanted it takes
      the one given up. */
  lemma Exchange<L(!new), R(!new)>(matches: Relation<L, R>, left: seq<L>, right: seq<R>, used: set<nat>, partners: seq<nat>, index: nat)
    returns (rest: seq<nat>)
    requires Rectangular(matches) && left != [] && Pairing(matches, left, right, used, partners)
    requires index < |right| && index !in used && matches(left[0], right[index])
    ensures Pairing(matches, left[1..], right, used + {index}, rest)
  {
    rest := partners[1..];
    if k :| 1 <= k < |partners| && partners[k] == index {
      rest := rest[k - 1 := partners[0]];
      assert matches(left[k], right[partners[0]]);
    }
    forall i | 0 <= i < |left[1..]|
      ensures rest[i] < |right| && rest[i] !in used + {index} && matches(left[1..][i], right[rest[i]])
    {
      assert left[1..][i] == left[i + 1];
    }
  }

  lemma {:induction false} GreedyFinds<L(!new), R(!new)>(matches: Relation<L, R>, left: seq<L>, right: seq<R>, used: set<nat>, partners: seq<nat>)
    requires Rectangular(matches) && Pairing(matches, left, right, used, partners)
    ensures Greedy(matches, left, right, used)
  {
    if left != [] {
      var position := Position(matches, left[0], right, used, 0);
      assert partners[0] < |right| && partners[0] !in used && matches(left[0], right[partners[0]]);
      var rest := Exchange(matches, left, right, used, partners, position.value);
      GreedyFinds(matches, left[1..], right, used + {position.value}, rest);
    }
  }

  /** True always means a pairing exists: the comparison never accepts views that differ. */
  lemma MatchIsSound<L, R>(matches: Relation<L, R>, left: seq<L>, right: seq<R>)
    requires MatchUnordered(matches, left, right)
    ensures |left| == |right| && Pairable(matches, left, right, {})
  {
    var partners := GreedyPairs(matches, left, right, {});
  }

  /** No pairing is ever missed. */
  ghost predicate Complete<L(!new), R(!new)>(matches: Relation<L, R>) {
    forall left: seq<L>, right: seq<R> :: |left| == |right| && Pairable(matches, left, right, {}) ==> MatchUnordered(matches, left, right)
  }

  /** Four rows on which a relation that is not rectangular fools the greedy choice: b takes x,
      and a is left with y. */
  lemma GreedyIsFooled<L(!new), R(!new)>(matches: Relation<L, R>, a: L, b: L, x: R, y: R)
    requires matches(a, x) && matches(b, x) && matches(b, y) && !matches(a, y)
    ensures Pairable(matches, [b, a], [x, y], {}) && !MatchUnordered(matches, [b, a], [x, y])
  {
    var left, right := [b, a], [x, y];
    assert Pairing(matches, left, right, {}, [1, 0]);
    assert left[1..] == [a];
    assert Position(matches, b, right, {}, 0) == Some(0);
    var taken: set<nat> := {} + {0};
    assert Position(matches, a, right, taken, 2) == None;
    assert Position(matches, a, right, taken, 1) == None;
    assert Position(matches, a, right, taken, 0) == None;
    assert !Greedy(matches, [a], right, taken);
  }

  /** The greedy loop finds a pairing whenever there is one if and only if the match relation is
      rectangular. */
  lemma CompleteIffRectangular<L(!new), R(!new)>(matches: Relation<L, R>)
    ensures Complete(matches) <==> Rectangular(matches)
  {
    if Rectangular(matches) {
      forall left: seq<L>, right: seq<R> | |left| == |right| && Pairable(matches, left, right, {})
        ensures MatchUnordered(matches, left, right)
      {
        var partners: seq<nat> :| Pairing(matches, left, right, {}, partners);
        GreedyFinds(matches, left, right, {}, partners);
      }
    } else {
      var a: L, b: L, x: R, y: R :| matches(a, x) && matches(b, x) && matches(b, y) && !matches(a, y);
      GreedyIsFooled(matches, a, b, x, y);
    }
  }

  /** In particular it never misses one for an equivalence. */
  lemma EquivalenceIsComplete<T(!new)>(matches: Relation<T, T>, left: seq<T>, right: seq<T>)
    requires Equivalence(matches)
    ensures MatchUnordered(matches, left, right) <==> |left| == |right| && Pairable(matches, left, right, {})
  {
    EquivalenceIsRectangular(matches);
    CompleteIffRectangular(matches);
    if MatchUnordered(matches, left, right) {
      MatchIsSound(matches, left, right);
    }
  }

  // ---------------------------------------------------------------- the float tolerance

  function Magnitude(x: real): real {
    if x < 0.0 then -x else x
  }

  /** `float_values_match`: within a millionth of the larger magnitude, or of one. */
  predicate FloatsMatch(left: real, right: real) {
    || left == right
    || (var larger := if Magnitude(left) < Magnitude(right) then Magnitude(right) else Magnitude(left);
        Magnitude(left - right) <= (if larger < 1.0 then 1.0 else larger) * 0.000001)
  }

  /** Two floats match when a million times their distance is no more than one, or than either of them. */
  lemma ToleranceIsOneMillionth(left: real, right: real)
    ensures FloatsMatch(left, right)
            <==> var distance := if left < right then right - left else left - right;
                 || 1000000.0 * distance <= 1.0
                 || 1000000.0 * distance <= left || 1000000.0 * distance <= -left
                 || 1000000.0 * distance <= right || 1000000.0 * distance <= -right
  {
  }

  /** `rows_match` on rows of float columns. */
  predicate FloatRowsMatch(left: seq<real>, right: seq<real>) {
    |left| == |right| && forall i | 0 <= i < |left| :: FloatsMatch(left[i], right[i])
  }

  lemma OneFloat(a: real, b: real)
    ensures FloatRowsMatch([a], [b]) <==> FloatsMatch(a, b)
  {
    if FloatsMatch(a, b) {
      assert forall i | 0 <= i < 1 :: FloatsMatch([a][i], [b][i]);
    } else {
      assert !FloatsMatch([a][0], [b][0]);
    }
  }

  /** The tolerance is no equivalence: three quarters of a millionth match twice, one and a half do
      not. Two rows each way can be paired, and the greedy comparison calls the views different. */
  lemma ToleranceFoolsGreedy()
    ensures !Rectangular(FloatRowsMatch)
    ensures var left, right := [[0.00000075], [0.0]], [[0.0], [0.0000015]];
            Pairable(FloatRowsMatch, left, right, {}) && !MatchUnordered(FloatRowsMatch, left, right)
  {
    OneFloat(0.0, 0.0);
    OneFloat(0.00000075, 0.0);
    OneFloat(0.00000075, 0.0000015);
    OneFloat(0.0, 0.0000015);
    GreedyIsFooled(FloatRowsMatch, [0.0], [0.00000075], [0.0], [0.0000015]);
  }
}
