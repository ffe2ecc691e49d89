/** Stand-ins for the card types of the external poker library: a card,
    a parsed face (one interpretation of a set of cards as a hand shape),
    and the library operations the turn engine calls, passed in as values
    because their definitions are not part of this model. Also the card
    counting and wildcard marking the engine relies on. */
module Poker {

  /** A card: its key (1 ace .. 13 king, 14 and 15 jokers), its ranking
      value, its suit and whether it is a wildcard ("oaa") this round. */
  datatype Card = Card(key: int, val: int, suit: string, oaa: bool)

  /** One interpretation of a played card set as a hand shape. */
  datatype Faces = Faces(kind: int, score: int, keys: seq<int>)

  /** The library operations the play step uses: GetKey maps an alias
      character to a card key (0 for an unknown alias), GetAlias maps a key
      to its alias text, ParseFaces lists the shapes a card set can be read
      as, and Compare says whether one shape beats another. */
  datatype Library = Library(
    getKey: char -> int,
    getAlias: int -> string,
    parseFaces: seq<Card> -> seq<Faces>,
    compare: (Faces, Faces) -> bool)

  /** Number of cards of key k in a hand. */
  function CountKey(hand: seq<Card>, k: int): nat
  {
    if hand == [] then 0
    else CountKey(hand[..|hand| - 1], k) + (if hand[|hand| - 1].key == k then 1 else 0)
  }

  lemma {:induction false} CountKeyAppend(a: seq<Card>, b: seq<Card>, k: int)
    ensures CountKey(a + b, k) == CountKey(a, k) + CountKey(b, k)
    decreases |b|
  {
    if b != [] {
      assert (a + b)[..|a + b| - 1] == a + b[..|b| - 1];
      CountKeyAppend(a, b[..|b| - 1], k);
    } else {
      assert a + b == a;
    }
  }

  /** Removing the card at position i lowers only its own key's count, by one. */
  lemma CountKeyRemove(s: seq<Card>, i: int, k: int)
    requires 0 <= i < |s|
    ensures CountKey(s[..i] + s[i + 1..], k) + (if s[i].key == k then 1 else 0) == CountKey(s, k)
  {
    assert s == s[..i] + [s[i]] + s[i + 1..];
    CountKeyAppend(s[..i] + [s[i]], s[i + 1..], k);
    CountKeyAppend(s[..i], [s[i]], k);
    CountKeyAppend(s[..i], s[i + 1..], k);
    assert CountKey([s[i]], k) == CountKey([], k) + (if s[i].key == k then 1 else 0) by {
      assert [s[i]][..0] == [];
    }
  }

  /** The non-wildcard cards of a hand, in hand order. */
  function Normals(hand: seq<Card>): (r: seq<Card>)
    ensures forall c :: c in r ==> !c.oaa
  {
    if hand == [] then []
    else Normals(hand[..|hand| - 1]) + (if hand[|hand| - 1].oaa then [] else [hand[|hand| - 1]])
  }

  /** The wildcard cards of a hand, in hand order. */
  function Wilds(hand: seq<Card>): (r: seq<Card>)
    ensures forall c :: c in r ==> c.oaa
  {
    if hand == [] then []
    else Wilds(hand[..|hand| - 1]) + (if hand[|hand| - 1].oaa then [hand[|hand| - 1]] else [])
  }

  /** Splitting a hand into its normal and wildcard cards loses and adds nothing. */
  lemma {:induction false} SplitConserves(hand: seq<Card>)
    ensures multiset(Normals(hand)) + multiset(Wilds(hand)) == multiset(hand)
  {
    if hand != [] {
      var init, last := hand[..|hand| - 1], hand[|hand| - 1];
      SplitConserves(init);
      assert hand == init + [last];
    }
  }

  /** The same, counted key by key. */
  lemma {:induction false} SplitConservesCounts(hand: seq<Card>, k: int)
    ensures CountKey(Normals(hand), k) + CountKey(Wilds(hand), k) == CountKey(hand, k)
  {
    if hand != [] {
      var init, last := hand[..|hand| - 1], hand[|hand| - 1];
      SplitConservesCounts(init, k);
      CountKeyAppend(Normals(init), if last.oaa then [] else [last], k);
      CountKeyAppend(Wilds(init), if last.oaa then [last] else [], k);
      assert [last][..0] == [];
    }
  }

  /** SetOaa: a card is a wildcard exactly when its key is one of the
      declared universal keys. */
  function SetOaa(hand: seq<Card>, universals: seq<int>): (r: seq<Card>)
    ensures |r| == |hand|
  {
    if hand == [] then []
    else SetOaa(hand[..|hand| - 1], universals) + [hand[|hand| - 1].(oaa := hand[|hand| - 1].key in universals)]
  }

  /** Marking keeps every card in its place and makes it a wildcard
      exactly when its key is declared. */
  lemma {:induction false} SetOaaMarks(hand: seq<Card>, universals: seq<int>)
    ensures forall i :: 0 <= i < |hand| ==> SetOaa(hand, universals)[i] == hand[i].(oaa := hand[i].key in universals)
  {
    if hand != [] {
      SetOaaMarks(hand[..|hand| - 1], universals);
    }
  }

  /** Re-marking wildcards changes no card's key. */
  lemma {:induction false} SetOaaKeepsCounts(hand: seq<Card>, universals: seq<int>, k: int)
    ensures CountKey(SetOaa(hand, universals), k) == CountKey(hand, k)
  {
    if hand != [] {
      var r := SetOaa(hand, universals);
      assert r[..|r| - 1] == SetOaa(hand[..|hand| - 1], universals);
      SetOaaKeepsCounts(hand[..|hand| - 1], universals, k);
    }
  }
}
