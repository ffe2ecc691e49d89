/** The wildcard ("laizi") rule set: how card keys rank, which runs of
    ranks form a straight, the rank range straights may span, and whether
    a deal sets a stack aside for the bid winner.

    Card keys: 1 is the ace, 2..13 the numbered and court cards (11 jack,
    12 queen, 13 king), 14 and 15 the two jokers. */
module Rules {

  /** Ranking value of a card key: 3..K rank lowest, then A, then 2, then the jokers. */
  function Value(key: int): (v: int)
    ensures 1 <= key <= 15 ==> 1 <= v <= 15
  {
    if key == 1 then 12
    else if key == 2 then 13
    else if key > 13 then key
    else key - 2
  }

  /** The keys in ascending game order. */
  const GameOrder: seq<int> := [3, 4, 5, 6, 7, 8, 9, 10, 11, 12, 13, 1, 2, 14, 15]

  /** Value numbers the keys 1..15 in game order, so it is a bijection onto 1..15. */
  lemma ValueFollowsGameOrder()
    ensures forall i :: 0 <= i < |GameOrder| ==> Value(GameOrder[i]) == i + 1
  {
  }

  lemma ValueInjective(a: int, b: int)
    requires 1 <= a <= 15 && 1 <= b <= 15
    requires Value(a) == Value(b)
    ensures a == b
  {
  }

  /** Whether the sorted rank values `faces`, each appearing in `count`
      copies, form a straight. */
  function IsStraight(faces: seq<int>, count: int): (r: bool)
    requires |faces| > 0
    ensures r ==> count >= 1 && |faces| >= 2 && faces[|faces| - 1] <= 12
  {
    if faces[|faces| - 1] - faces[0] != |faces| - 1 then false
    else if faces[|faces| - 1] > 12 then false
    else if count == 1 then |faces| >= 5
    else if count == 2 then |faces| >= 3
    else if count > 2 then |faces| >= 2
    else false
  }

  /** The lowest and highest rank value a straight may use. */
  function StraightBoundary(): (int, int) {
    (1, 12)
  }

  ghost predicate StrictlyIncreasing(s: seq<int>) {
    forall i, j :: 0 <= i < j < |s| ==> s[i] < s[j]
  }

  /** In a strictly increasing run, values grow at least as fast as positions. */
  lemma {:induction false} IncreasingSpan(s: seq<int>, i: int, j: int)
    requires StrictlyIncreasing(s)
    requires 0 <= i <= j < |s|
    ensures s[j] - s[i] >= j - i
    decreases j - i
  {
    if i < j {
      IncreasingSpan(s, i, j - 1);
    }
  }

  /** On strictly increasing values, IsStraight holds exactly for runs of
      consecutive values topped at most by 12 (the ace), long enough for the
      group width: 5 singles, 3 pairs, or 2 groups of three or more; a
      non-positive width never forms a straight. */
  lemma StraightIsConsecutiveRun(faces: seq<int>, count: int)
    requires |faces| > 0 && StrictlyIncreasing(faces)
    ensures IsStraight(faces, count) <==>
      && (forall i :: 0 <= i < |faces| ==> faces[i] == faces[0] + i)
      && faces[|faces| - 1] <= 12
      && ((count == 1 && |faces| >= 5) || (count == 2 && |faces| >= 3) || (count > 2 && |faces| >= 2))
  {
    var n := |faces|;
    if faces[n - 1] - faces[0] == n - 1 {
      forall i | 0 <= i < n ensures faces[i] == faces[0] + i {
        IncreasingSpan(faces, 0, i);
        IncreasingSpan(faces, i, n - 1);
      }
    }
  }

  /** Every straight of values starting at the lower boundary or above lies
      within StraightBoundary. */
  lemma StraightWithinBoundary(faces: seq<int>, count: int)
    requires |faces| > 0 && StrictlyIncreasing(faces)
    requires faces[0] >= StraightBoundary().0
    requires IsStraight(faces, count)
    ensures forall i :: 0 <= i < |faces| ==> StraightBoundary().0 <= faces[i] <= StraightBoundary().1
  {
    forall i | 0 <= i < |faces|
      ensures StraightBoundary().0 <= faces[i] <= StraightBoundary().1
    {
      IncreasingSpan(faces, 0, i);
      IncreasingSpan(faces, i, |faces| - 1);
    }
  }
}
