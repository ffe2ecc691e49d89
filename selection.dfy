/** Picking the cards of a play (the parse step of handlePlay in
    state/laizi/laizi.go). The hand is split into its normal cards and its
    wildcards; each requested key takes the last normal card of that key,
    or else, unless the key is a joker, the first remaining wildcard,
    relabelled as the requested key and ranked by the rule set's value. */
module Selection {
  import opened Wrappers
  import opened Poker
  import Rules

  /** A play being picked: the normal cards and wildcards still in hand,
      the cards sold so far and, for each sold card, its key before any
      relabelling. */
  datatype Pick = Pick(normal: seq<Card>, wild: seq<Card>, sells: seq<Card>, realKeys: seq<int>)

  /** Nothing picked yet: the hand split into its normal cards and its
      wildcards. */
  function Start(hand: seq<Card>): (p: Pick)
    ensures p.sells == [] && p.realKeys == []
    ensures |p.normal| + |p.wild| == |hand|
  {
    SplitConserves(hand);
    assert |multiset(Normals(hand)) + multiset(Wilds(hand))| == |multiset(hand)|;
    Pick(Normals(hand), Wilds(hand), [], [])
  }

  /** Number of occurrences of k in s. */
  function Occurrences(s: seq<int>, k: int): nat {
    if s == [] then 0
    else Occurrences(s[..|s| - 1], k) + (if s[|s| - 1] == k then 1 else 0)
  }

  /** Cards of key k accounted for by a pick: still in hand, or sold
      (counted under the key the sold card had in hand). */
  function Ledger(p: Pick, k: int): nat {
    CountKey(p.normal, k) + CountKey(p.wild, k) + Occurrences(p.realKeys, k)
  }

  /** The position of the last card of key k in s, or -1 when there is none. */
  function LastOfKey(s: seq<Card>, k: int): (r: int)
    ensures -1 <= r < |s|
    ensures r >= 0 ==> s[r].key == k && forall j :: r < j < |s| ==> s[j].key != k
    ensures r == -1 <==> forall j :: 0 <= j < |s| ==> s[j].key != k
  {
    if s == [] then -1
    else if s[|s| - 1].key == k then |s| - 1
    else LastOfKey(s[..|s| - 1], k)
  }

  /** No card of key k, by count. */
  lemma {:induction false} NoneOfKey(s: seq<Card>, k: int)
    requires forall j :: 0 <= j < |s| ==> s[j].key != k
    ensures CountKey(s, k) == 0
  {
    if s != [] {
      NoneOfKey(s[..|s| - 1], k);
    }
  }

  /** One requested key: None rejects the whole play. */
  function Take(p: Pick, key: int): (r: Option<Pick>)
    ensures r.Some? ==> key != 0
    ensures r.Some? ==> |r.value.sells| == |p.sells| + 1 && r.value.sells[..|p.sells|] == p.sells && r.value.sells[|p.sells|].key == key
    ensures r.Some? ==> |r.value.realKeys| == |p.realKeys| + 1 && r.value.realKeys[..|p.realKeys|] == p.realKeys
    ensures r.Some? && r.value.realKeys[|p.realKeys|] != key ==>
      && (forall j :: 0 <= j < |p.normal| ==> p.normal[j].key != key)
      && key != 14 && key != 15
      && r.value.sells[|p.sells|].val == Rules.Value(key)
    ensures r.None? <==> key == 0 || (LastOfKey(p.normal, key) < 0 && (key == 14 || key == 15 || p.wild == []))
  {
    if key == 0 then None
    else
      var i := LastOfKey(p.normal, key);
      if i >= 0 then
        Some(Pick(p.normal[..i] + p.normal[i + 1..], p.wild, p.sells + [p.normal[i]], p.realKeys + [key]))
      else if key == 14 || key == 15 || p.wild == [] then None
      else
        var w := p.wild[0];
        Some(Pick(p.normal, p.wild[1..], p.sells + [w.(key := key, val := Rules.Value(key))], p.realKeys + [w.key]))
  }

  lemma OccurrencesAppend(s: seq<int>, x: int, k: int)
    ensures Occurrences(s + [x], k) == Occurrences(s, k) + (if x == k then 1 else 0)
  {
    assert (s + [x])[..|s|] == s;
  }

  lemma {:induction false} OccurrencesCons(x: int, s: seq<int>, k: int)
    ensures Occurrences([x] + s, k) == (if x == k then 1 else 0) + Occurrences(s, k)
    decreases |s|
  {
    if s == [] {
      assert [x][..0] == [];
    } else {
      assert ([x] + s)[..|s|] == [x] + s[..|s| - 1];
      OccurrencesCons(x, s[..|s| - 1], k);
    }
  }

  /** Taking a card moves it from the hand to the sold cards: no key's
      ledger changes. */
  lemma TakeConserves(p: Pick, key: int, k: int)
    requires Take(p, key).Some?
    ensures Ledger(Take(p, key).value, k) == Ledger(p, k)
  {
    var i := LastOfKey(p.normal, key);
    if i >= 0 {
      CountKeyRemove(p.normal, i, k);
      OccurrencesAppend(p.realKeys, key, k);
    } else {
      TakeWildConserves(p, key, k);
    }
  }

  /** TakeConserves when a wildcard stands in. */
  lemma TakeWildConserves(p: Pick, key: int, k: int)
    requires p.wild != []
    ensures Ledger(Pick(p.normal, p.wild[1..], p.sells + [p.wild[0].(key := key, val := Rules.Value(key))], p.realKeys + [p.wild[0].key]), k) == Ledger(p, k)
  {
    assert p.wild == [p.wild[0]] + p.wild[1..];
    CountKeyAppend([p.wild[0]], p.wild[1..], k);
    assert [p.wild[0]][..0] == [];
    OccurrencesAppend(p.realKeys, p.wild[0].key, k);
  }

  /** The requested keys in order. */
  function PickAll(p: Pick, keys: seq<int>): (r: Option<Pick>)
    decreases |keys|
  {
    if keys == [] then Some(p)
    else match Take(p, keys[0])
      case None => None
      case Some(q) => PickAll(q, keys[1..])
  }

  /** A successful pick extends the sold cards and their keys by one
      entry per requested key. */
  lemma {:induction false} PickAllExtends(p: Pick, keys: seq<int>)
    requires PickAll(p, keys).Some?
    ensures var q := PickAll(p, keys).value;
      && |q.sells| == |p.sells| + |keys| && q.sells[..|p.sells|] == p.sells
      && |q.realKeys| == |p.realKeys| + |keys| && q.realKeys[..|p.realKeys|] == p.realKeys
    decreases |keys|
  {
    if keys != [] {
      var q := Take(p, keys[0]).value;
      PickAllExtends(q, keys[1..]);
      var r := PickAll(q, keys[1..]).value;
      assert r.sells[..|p.sells|] == r.sells[..|q.sells|][..|p.sells|];
      assert r.realKeys[..|p.realKeys|] == r.realKeys[..|q.realKeys|][..|p.realKeys|];
    }
  }

  /** Each sold card shows the key that was asked for, in order. */
  lemma {:induction false} PickAllLabels(p: Pick, keys: seq<int>)
    requires PickAll(p, keys).Some?
    ensures |PickAll(p, keys).value.sells| == |p.sells| + |keys|
    ensures forall i :: 0 <= i < |keys| ==> PickAll(p, keys).value.sells[|p.sells| + i].key == keys[i]
    decreases |keys|
  {
    PickAllExtends(p, keys);
    if keys != [] {
      var q := Take(p, keys[0]).value;
      PickAllLabels(q, keys[1..]);
      PickAllExtends(q, keys[1..]);
      var r := PickAll(q, keys[1..]).value;
      assert r.sells[|p.sells|] == r.sells[..|q.sells|][|p.sells|];
      forall i | 1 <= i < |keys|
        ensures r.sells[|p.sells| + i].key == keys[i]
      {
        assert keys[1..][i - 1] == keys[i];
        assert |q.sells| + (i - 1) == |p.sells| + i;
      }
    }
  }

  /** An unknown alias (key 0) anywhere rejects the play. */
  lemma {:induction false} UnknownAliasRejects(p: Pick, keys: seq<int>)
    requires 0 in keys
    ensures PickAll(p, keys).None?
    decreases |keys|
  {
    if keys[0] != 0 && Take(p, keys[0]).Some? {
      assert 0 in keys[1..];
      UnknownAliasRejects(Take(p, keys[0]).value, keys[1..]);
    }
  }

  /** A play asking for no more cards of any key than there are normal
      cards of that key in hand is accepted, uses no wildcard, and records
      exactly the requested keys. */
  lemma {:induction false} NormalsSuffice(p: Pick, keys: seq<int>)
    requires forall i :: 0 <= i < |keys| ==> keys[i] != 0
    requires forall k :: Occurrences(keys, k) <= CountKey(p.normal, k)
    ensures PickAll(p, keys).Some?
    ensures PickAll(p, keys).value.wild == p.wild
    ensures PickAll(p, keys).value.realKeys == p.realKeys + keys
    decreases |keys|
  {
    if keys == [] {
      assert p.realKeys + keys == p.realKeys;
    } else {
      var key := keys[0];
      assert keys == [key] + keys[1..];
      OccurrencesCons(key, keys[1..], key);
      if LastOfKey(p.normal, key) < 0 {
        NoneOfKey(p.normal, key);
        assert false;
      }
      var i := LastOfKey(p.normal, key);
      var q := Take(p, key).value;
      forall k
        ensures Occurrences(keys[1..], k) <= CountKey(q.normal, k)
      {
        OccurrencesCons(key, keys[1..], k);
        CountKeyRemove(p.normal, i, k);
      }
      NormalsSuffice(q, keys[1..]);
      assert p.realKeys + keys == (p.realKeys + [key]) + keys[1..];
    }
  }

  /** A take leaves in hand only cards the hand held. */
  lemma TakeKeepsCards(p: Pick, key: int)
    requires Take(p, key).Some?
    ensures multiset(Take(p, key).value.normal + Take(p, key).value.wild) <= multiset(p.normal + p.wild)
  {
    var i := LastOfKey(p.normal, key);
    if i >= 0 {
      assert p.normal == p.normal[..i] + [p.normal[i]] + p.normal[i + 1..];
    } else {
      assert p.wild == [p.wild[0]] + p.wild[1..];
    }
  }

  /** A successful pick loses and invents no card: every key's ledger is
      what the hand held, and the cards left in hand are cards of the hand. */
  lemma {:induction false} PickAllConserves(p: Pick, keys: seq<int>, k: int)
    requires PickAll(p, keys).Some?
    ensures Ledger(PickAll(p, keys).value, k) == Ledger(p, k)
    ensures multiset(PickAll(p, keys).value.normal + PickAll(p, keys).value.wild) <= multiset(p.normal + p.wild)
    decreases |keys|
  {
    if keys != [] {
      var q := Take(p, keys[0]).value;
      TakeConserves(p, keys[0], k);
      TakeKeepsCards(p, keys[0]);
      PickAllConserves(q, keys[1..], k);
    }
  }

  /** The hand's ledger before anything is picked is the hand itself. */
  lemma StartLedger(hand: seq<Card>, k: int)
    ensures Ledger(Start(hand), k) == CountKey(hand, k)
  {
    SplitConservesCounts(hand, k);
  }

  /** The keys of the alias characters of an answer, in order. */
  function AliasKeys(ans: string, lib: Library): (keys: seq<int>)
    ensures |keys| == |ans|
  {
    seq(|ans|, i requires 0 <= i < |ans| => lib.getKey(ans[i]))
  }

  /** Every taken card leaves the hand: a successful pick of n keys leaves
      n cards fewer in hand. */
  lemma {:induction false} PickAllShrinks(p: Pick, keys: seq<int>)
    requires PickAll(p, keys).Some?
    ensures |PickAll(p, keys).value.normal| + |PickAll(p, keys).value.wild| + |keys| == |p.normal| + |p.wild|
    decreases |keys|
  {
    if keys != [] {
      PickAllShrinks(Take(p, keys[0]).value, keys[1..]);
    }
  }

  /** The loops of the parse step: split the hand, then take the key of
      each alias character in turn, stopping at the first rejected one. */
  method Select(hand: seq<Card>, ans: string, lib: Library) returns (r: Option<Pick>)
    ensures r == PickAll(Start(hand), AliasKeys(ans, lib))
  {
    var normal, wild := [], [];
    var n := 0;
    while n < |hand|
      invariant 0 <= n <= |hand|
      invariant normal == Normals(hand[..n]) && wild == Wilds(hand[..n])
    {
      assert hand[..n + 1][..n] == hand[..n];
      if hand[n].oaa {
        wild := wild + [hand[n]];
      } else {
        normal := normal + [hand[n]];
      }
      n := n + 1;
    }
    assert hand[..n] == hand;
    var keys := AliasKeys(ans, lib);
    var p := Pick(normal, wild, [], []);
    var i := 0;
    while i < |ans|
      invariant 0 <= i <= |ans|
      invariant PickAll(Start(hand), keys) == PickAll(p, keys[i..])
    {
      assert keys[i..][1..] == keys[i + 1..];
      var step := Take(p, lib.getKey(ans[i]));
      if step.None? {
        return None;
      }
      p := step.value;
      i := i + 1;
    }
    r := Some(p);
  }
}
