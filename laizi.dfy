/** The wildcard ("laizi") turn engine (state/laizi/laizi.go): dealing a
    game, restarting it, the landlord bidding step, the play step, and the
    remaining-card view. A player's answer is an input (a line of text, or
    nothing when the prompt timed out or failed); the deal, the wildcard
    draws and the first bidder, which the server picks at random, are
    parameters. Token channels are the per-player signal queues of the game. */
module Laizi {
  import opened Wrappers
  import opened Consts
  import opened Poker
  import opened Model
  import opened Database
  import opened Bidding
  import opened Selection
  import Text

  /** Cards of key k in a deck of `sets` packs: four of each of the 13
      ranks and one of each joker per pack. */
  function DeckCount(sets: int, k: int): int {
    if 1 <= k <= 13 then 4 * sets
    else if k == 14 || k == 15 then sets
    else 0
  }

  /** The remaining-card counter table of a fresh deal. */
  method NewMnemonic(sets: int) returns (m: map<int, int>)
    ensures forall k :: k in m <==> 1 <= k <= 15
    ensures forall k :: MnemonicAt(m, k) == DeckCount(sets, k)
  {
    m := map[14 := sets, 15 := sets];
    var i := 1;
    while i <= 13
      invariant 1 <= i <= 14
      invariant forall k :: k in m <==> (1 <= k < i || k == 14 || k == 15)
      invariant forall k :: k in m ==> m[k] == DeckCount(sets, k)
    {
      m := m[i := 4 * sets];
      i := i + 1;
    }
  }

  /** Cards of key k over all stacks of a deal. */
  function DealCount(deal: seq<seq<Card>>, k: int): nat {
    if deal == [] then 0 else CountKey(deal[0], k) + DealCount(deal[1..], k)
  }

  /** A deal that hands out exactly one deck of `sets` packs. */
  ghost predicate DealCovers(deal: seq<seq<Card>>, sets: int) {
    forall k :: DealCount(deal, k) == DeckCount(sets, k)
  }

  lemma {:induction false} DealCountSnoc(deal: seq<seq<Card>>, k: int)
    requires deal != []
    ensures DealCount(deal, k) == DealCount(deal[..|deal| - 1], k) + CountKey(deal[|deal| - 1], k)
    decreases |deal|
  {
    if |deal| > 1 {
      assert deal[1..][..|deal[1..]| - 1] == deal[..|deal| - 1][1..];
      DealCountSnoc(deal[1..], k);
    }
  }

  /** Players seated in order holding the first stacks of a deal hold the
      cards of those stacks. */
  lemma {:induction false} HeldCountOfDeal(ps: seq<int>, pokers: map<int, seq<Card>>, deal: seq<seq<Card>>, k: int)
    requires |ps| <= |deal|
    requires forall i :: 0 <= i < |ps| ==> ps[i] in pokers && pokers[ps[i]] == deal[i]
    ensures HeldCount(ps, pokers, k) == DealCount(deal[..|ps|], k)
    decreases |ps|
  {
    if ps != [] {
      assert deal[..|ps|][1..] == deal[1..][..|ps| - 1];
      HeldCountOfDeal(ps[1..], pokers, deal[1..], k);
    }
  }

  /** Handing stack i to seat i and setting the last stack aside accounts
      for a whole deck. */
  lemma DealConserves(ps: seq<int>, pokers: map<int, seq<Card>>, deal: seq<seq<Card>>, sets: int, mnemonic: map<int, int>)
    requires |deal| == |ps| + 1 && DealCovers(deal, sets)
    requires forall i :: 0 <= i < |ps| ==> ps[i] in pokers && pokers[ps[i]] == deal[i]
    requires forall k :: MnemonicAt(mnemonic, k) == DeckCount(sets, k)
    ensures Conserves(mnemonic, ps, pokers, deal[|ps|])
  {
    forall k
      ensures MnemonicAt(mnemonic, k) == HeldCount(ps, pokers, k) + CountKey(deal[|ps|], k)
    {
      HeldCountOfDeal(ps, pokers, deal, k);
      DealCountSnoc(deal, k);
    }
  }

  /** The per-player tables of a fresh deal: an empty token queue, group
      0 and stack i for the player in seat i. */
  method Seat(order: seq<int>, deal: seq<seq<Card>>)
    returns (states: map<int, seq<Signal>>, groups: map<int, int>, pokers: map<int, seq<Card>>)
    requires Distinct(order) && |order| <= |deal|
    ensures states.Keys == groups.Keys == pokers.Keys == (set p | p in order)
    ensures forall p :: p in states ==> states[p] == [] && groups[p] == 0
    ensures forall i :: 0 <= i < |order| ==> pokers[order[i]] == deal[i]
  {
    states, groups, pokers := map[], map[], map[];
    var i := 0;
    while i < |order|
      invariant 0 <= i <= |order|
      invariant groups.Keys == states.Keys && pokers.Keys == states.Keys
      invariant forall p :: p in states ==> p in order && states[p] == [] && groups[p] == 0
      invariant forall j :: 0 <= j < i ==> order[j] in states && pokers[order[j]] == deal[j]
    {
      states := states[order[i] := []];
      groups := groups[order[i] := 0];
      pokers := pokers[order[i] := deal[i]];
      i := i + 1;
    }
    forall p | p in order
      ensures p in states
    {
      var j :| 0 <= j < |order| && order[j] == p;
    }
    assert forall p :: p in states ==> p in order;
    assert forall p :: p in order ==> p in states;
    assert states.Keys == (set p | p in order);
  }

  /** InitGame: seats the room's members in the given order (the server
      takes them from its member map), deals them the first stacks, sets
      the last stack aside, declares the first wildcard key and gives the
      rob token to one player. The deal has to have one stack more than
      there are players. */
  method InitGame(reg: Registry, roomId: int, order: seq<int>, deal: seq<seq<Card>>, sets: int, first: int, universal: int)
    returns (r: Result<Game, Error>)
    requires roomId in reg.roomPlayers
    requires Distinct(order) && (set p | p in order) == reg.roomPlayers[roomId] && 0 !in order
    requires |deal| == |order| + 1 ==> 0 <= first < |order|
    ensures |deal| != |order| + 1 ==> r == Failure(ErrorsGamePlayersInvalid)
    ensures |deal| == |order| + 1 ==> r.Success? && fresh(r.value)
    ensures r.Success? ==>
      var g := r.value;
      && g.Valid()
      && g.players == order
      && (forall i :: 0 <= i < |order| ==> g.pokers[order[i]] == deal[i])
      && g.pokers.Keys == g.groups.Keys == g.states.Keys
      && (forall p :: p in g.groups ==> g.groups[p] == 0)
      && g.additional == deal[|order|]
      && g.universals == [universal]
      && g.multiple == 1
      && g.firstPlayer == g.lastPlayer == g.firstRob == g.lastRob == 0 && !g.finalRob
      && (forall k :: MnemonicAt(g.mnemonic, k) == DeckCount(sets, k))
      && (forall p :: p in g.states ==> g.states[p] == if p == order[first] then [StateRob] else [])
      && (DealCovers(deal, sets) ==> g.Conserved())
  {
    if |deal| != |order| + 1 {
      return Failure(ErrorsGamePlayersInvalid);
    }
    var states, groups, pokers := Seat(order, deal);
    var mnemonic := NewMnemonic(sets);
    var g := new Game(order, groups, states, pokers, deal[|order|], [universal], mnemonic);
    g.Send(order[first], StateRob);
    if DealCovers(deal, sets) {
      DealConserves(order, pokers, deal, sets, mnemonic);
    }
    r := Success(g);
  }

  /** A fresh deal over existing hands: seat i gets stack i, any other
      hand is kept. */
  method Redeal(pokers: map<int, seq<Card>>, players: seq<int>, deal: seq<seq<Card>>) returns (dealt: map<int, seq<Card>>)
    requires Distinct(players) && |players| <= |deal|
    requires forall i :: 0 <= i < |players| ==> players[i] in pokers
    ensures dealt.Keys == pokers.Keys
    ensures forall i :: 0 <= i < |players| ==> dealt[players[i]] == deal[i]
    ensures forall p :: p in pokers && p !in players ==> dealt[p] == pokers[p]
  {
    dealt := pokers;
    var i := 0;
    while i < |players|
      invariant 0 <= i <= |players|
      invariant dealt.Keys == pokers.Keys
      invariant forall j :: 0 <= j < i ==> dealt[players[j]] == deal[j]
      invariant forall p :: p in pokers && p !in players[..i] ==> dealt[p] == pokers[p]
    {
      assert players[..i + 1] == players[..i] + [players[i]];
      dealt := dealt[players[i] := deal[i]];
      i := i + 1;
    }
    assert players[..i] == players;
  }

  /** The dealing part of a reset: fresh hands for the seated players and
      a full counter table. */
  method DealHands(game: Game, deal: seq<seq<Card>>, sets: int)
    requires game.Valid() && |deal| == |game.players| + 1
    modifies game`pokers, game`mnemonic
    ensures game.pokers.Keys == old(game.pokers).Keys
    ensures forall i :: 0 <= i < |game.players| ==> game.pokers[game.players[i]] == deal[i]
    ensures forall p :: p in game.pokers && p !in game.players ==> game.pokers[p] == old(game.pokers[p])
    ensures forall k :: MnemonicAt(game.mnemonic, k) == DeckCount(sets, k)
    ensures DealCovers(deal, sets) ==> Conserves(game.mnemonic, game.players, game.pokers, deal[|game.players|])
  {
    var dealt := Redeal(game.pokers, game.players, deal);
    var counters := NewMnemonic(sets);
    if DealCovers(deal, sets) {
      DealConserves(game.players, dealt, deal, sets, counters);
    }
    game.pokers, game.mnemonic := dealt, counters;
  }

  /** The bidding part of a reset: no groups, no bidder recorded, stake 1,
      and a newly drawn first wildcard key. */
  method ClearBidding(game: Game, universal: int)
    modifies game`groups, game`firstPlayer, game`lastPlayer, game`firstRob, game`lastRob,
             game`finalRob, game`multiple, game`universals
    ensures game.groups == map[]
    ensures game.firstPlayer == game.lastPlayer == game.firstRob == game.lastRob == 0 && !game.finalRob
    ensures game.multiple == 1 && game.universals == [universal]
  {
    game.groups := map[];
    game.firstPlayer, game.lastPlayer, game.firstRob, game.lastRob := 0, 0, 0, 0;
    game.finalRob := false;
    game.multiple := 1;
    game.universals := [universal];
  }

  /** resetGame as written: a fresh deal replaces every hand, the counter
      table is refilled, groups and bidding fields are cleared, the stake
      returns to 1 and a new first wildcard key is declared; the set-aside
      stack is left as it was. */
  method ResetGameAsWritten(game: Game, deal: seq<seq<Card>>, sets: int, universal: int) returns (r: Outcome<Error>)
    requires game.Valid()
    modifies game`pokers, game`mnemonic, game`groups, game`firstPlayer, game`lastPlayer,
             game`firstRob, game`lastRob, game`finalRob, game`multiple, game`universals
    ensures game.Valid()
    ensures |deal| != |game.players| + 1 ==> r == Fail(ErrorsGamePlayersInvalid) && unchanged(game)
    ensures |deal| == |game.players| + 1 ==>
      && r == Pass
      && game.pokers.Keys == old(game.pokers).Keys
      && (forall i :: 0 <= i < |game.players| ==> game.pokers[game.players[i]] == deal[i])
      && (forall p :: p in game.pokers && p !in game.players ==> game.pokers[p] == old(game.pokers[p]))
      && (forall k :: MnemonicAt(game.mnemonic, k) == DeckCount(sets, k))
      && game.groups == map[]
      && game.firstPlayer == game.lastPlayer == game.firstRob == game.lastRob == 0 && !game.finalRob
      && game.multiple == 1 && game.universals == [universal]
    ensures |deal| == |game.players| + 1 && DealCovers(deal, sets) ==>
      Conserves(game.mnemonic, game.players, game.pokers, deal[|game.players|])
    ensures game.additional == old(game.additional)
  {
    if |deal| != |game.players| + 1 {
      return Fail(ErrorsGamePlayersInvalid);
    }
    DealHands(game, deal, sets);
    ClearBidding(game, universal);
    r := Pass;
  }

  /** Against the ledger of a fresh deal, a set-aside stack keeps the
      ledger exact if and only if it has the same count of every key as the
      fresh deal's last stack: the stack kept by ResetGameAsWritten breaks
      the ledger unless it happens to match. */
  lemma StaleStackBreaksLedger(mnemonic: map<int, int>, ps: seq<int>, pokers: map<int, seq<Card>>, dealt: seq<Card>, stale: seq<Card>)
    requires Conserves(mnemonic, ps, pokers, dealt)
    ensures Conserves(mnemonic, ps, pokers, stale) <==> forall k :: CountKey(stale, k) == CountKey(dealt, k)
  {
    if Conserves(mnemonic, ps, pokers, stale) {
      forall k
        ensures CountKey(stale, k) == CountKey(dealt, k)
      {
        assert MnemonicAt(mnemonic, k) == HeldCount(ps, pokers, k) + CountKey(stale, k);
        assert MnemonicAt(mnemonic, k) == HeldCount(ps, pokers, k) + CountKey(dealt, k);
      }
    } else {
      var k :| MnemonicAt(mnemonic, k) != HeldCount(ps, pokers, k) + CountKey(stale, k);
      assert MnemonicAt(mnemonic, k) == HeldCount(ps, pokers, k) + CountKey(dealt, k);
      assert CountKey(stale, k) != CountKey(dealt, k);
    }
  }

  /** resetGame as intended: as written, and the fresh deal's last stack
      becomes the set-aside stack, so a deal of one whole deck keeps the
      ledger exact. */
  method ResetGame(game: Game, deal: seq<seq<Card>>, sets: int, universal: int) returns (r: Outcome<Error>)
    requires game.Valid()
    modifies game`pokers, game`mnemonic, game`groups, game`firstPlayer, game`lastPlayer,
             game`firstRob, game`lastRob, game`finalRob, game`multiple, game`universals, game`additional
    ensures game.Valid()
    ensures |deal| != |game.players| + 1 ==> r == Fail(ErrorsGamePlayersInvalid) && unchanged(game)
    ensures |deal| == |game.players| + 1 ==>
      && r == Pass
      && game.pokers.Keys == old(game.pokers).Keys
      && (forall i :: 0 <= i < |game.players| ==> game.pokers[game.players[i]] == deal[i])
      && (forall p :: p in game.pokers && p !in game.players ==> game.pokers[p] == old(game.pokers[p]))
      && (forall k :: MnemonicAt(game.mnemonic, k) == DeckCount(sets, k))
      && game.groups == map[]
      && game.firstPlayer == game.lastPlayer == game.firstRob == game.lastRob == 0 && !game.finalRob
      && game.multiple == 1 && game.universals == [universal]
      && game.additional == deal[|game.players|]
    ensures |deal| == |game.players| + 1 && DealCovers(deal, sets) ==> game.Conserved()
  {
    r := ResetGameAsWritten(game, deal, sets, universal);
    if r == Pass {
      game.additional := deal[|game.players|];
    }
  }

  /** The "Surplus" row of the game view: for each key, the counter minus
      the viewer's own cards of that key. */
  function Surplus(game: Game, pid: int, k: int): int
    reads game
  {
    MnemonicAt(game.mnemonic, k) - HandCount(game.pokers, pid, k)
  }

  /** With the ledger exact, the surplus a player sees is exactly the cards
      of that key in the other players' hands plus those still set aside,
      so it is never negative. */
  lemma SurplusIsUnseenCards(game: Game, pid: int, k: int)
    requires game.Valid() && game.Conserved() && pid in game.players
    ensures Surplus(game, pid, k) == HeldCount(game.players, game.pokers - {pid}, k) + CountKey(game.SetAside(), k)
    ensures Surplus(game, pid, k) >= 0
  {
    HeldCountSplit(game.players, game.pokers, pid, k);
  }

  /* ---------------------------------------------------------------------
     Bidding (handleRob)
     --------------------------------------------------------------------- */

  /** The bidding bookkeeping of a game. */
  function BidsOf(game: Game): Bids
    reads game
  {
    Bids(game.firstPlayer, game.lastPlayer, game.firstRob, game.lastRob, game.finalRob, game.multiple)
  }

  /** Re-marks the wildcards of every hand, as the landlord's crowning does
      for each entry of the hand table. */
  method MarkWildcards(pokers: map<int, seq<Card>>, universals: seq<int>) returns (marked: map<int, seq<Card>>)
    ensures marked.Keys == pokers.Keys
    ensures forall p :: p in pokers ==> marked[p] == SetOaa(pokers[p], universals)
  {
    marked := pokers;
    var todo := pokers.Keys;
    while todo != {}
      invariant todo <= pokers.Keys
      invariant marked.Keys == pokers.Keys
      invariant forall p :: p in pokers ==> marked[p] == if p in todo then pokers[p] else SetOaa(pokers[p], universals)
      decreases todo
    {
      NonEmptyHasMember(todo);
      var p :| p in todo;
      marked := marked[p := SetOaa(pokers[p], universals)];
      todo := todo - {p};
    }
  }

  /** The hand table r after a crowning of landlord: the landlord's hand
      has taken the set-aside stack, and every hand is re-marked for the
      wildcard keys. */
  ghost predicate Crowned(r: map<int, seq<Card>>, pokers: map<int, seq<Card>>, landlord: int, additional: seq<Card>, universals: seq<int>) {
    && r.Keys == pokers.Keys
    && (forall p {:trigger r[p]} :: p in pokers ==> r[p] == SetOaa(if p == landlord then pokers[p] + additional else pokers[p], universals))
  }

  /** Crowning keeps every hand's cards and order, adds the set-aside
      stack to the landlord's hand only, and marks exactly the cards of the
      wildcard keys. */
  lemma CrownedHands(r: map<int, seq<Card>>, pokers: map<int, seq<Card>>, landlord: int, additional: seq<Card>, universals: seq<int>)
    requires landlord in pokers && Crowned(r, pokers, landlord, additional, universals)
    ensures |r[landlord]| == |pokers[landlord]| + |additional|
    ensures forall i :: 0 <= i < |pokers[landlord]| ==> r[landlord][i] == pokers[landlord][i].(oaa := pokers[landlord][i].key in universals)
    ensures forall i :: 0 <= i < |additional| ==> r[landlord][|pokers[landlord]| + i] == additional[i].(oaa := additional[i].key in universals)
    ensures forall p :: p in pokers && p != landlord ==> |r[p]| == |pokers[p]|
    ensures forall p, i :: p in pokers && p != landlord && 0 <= i < |pokers[p]| ==> r[p][i] == pokers[p][i].(oaa := pokers[p][i].key in universals)
  {
    var joined := pokers[landlord] + additional;
    assert r[landlord] == SetOaa(joined, universals);
    SetOaaMarks(joined, universals);
    forall p | p in pokers && p != landlord
      ensures forall i :: 0 <= i < |pokers[p]| ==> r[p][i] == pokers[p][i].(oaa := pokers[p][i].key in universals)
    {
      assert r[p] == SetOaa(pokers[p], universals);
      SetOaaMarks(pokers[p], universals);
    }
    forall i | 0 <= i < |additional|
      ensures r[landlord][|pokers[landlord]| + i] == additional[i].(oaa := additional[i].key in universals)
    {
      assert joined[|pokers[landlord]| + i] == additional[i];
    }
  }

  /** Crowning moves the set-aside stack into the landlord's hand and
      re-marks wildcards: no key's count changes, and nothing is set aside
      any more. */
  lemma CrownConserves(mnemonic: map<int, int>, ps: seq<int>, pokers: map<int, seq<Card>>, landlord: int,
                       additional: seq<Card>, universals: seq<int>, r: map<int, seq<Card>>)
    requires Distinct(ps) && landlord in ps && landlord in pokers
    requires Crowned(r, pokers, landlord, additional, universals)
    requires Conserves(mnemonic, ps, pokers, additional)
    ensures Conserves(mnemonic, ps, r, [])
  {
    var held := pokers[landlord := pokers[landlord] + additional];
    forall k
      ensures MnemonicAt(mnemonic, k) == HeldCount(ps, r, k) + CountKey([], k)
    {
      forall q | q in ps
        ensures HandCount(r, q, k) == HandCount(held, q, k)
      {
        if q in pokers {
          SetOaaKeepsCounts(held[q], universals, k);
        }
      }
      HeldCountAgree(ps, r, held, k);
      HeldCountUpdate(ps, pokers, landlord, pokers[landlord] + additional, k);
      CountKeyAppend(pokers[landlord], additional, k);
    }
  }

  /** The hand side of a crowning: the landlord takes the set-aside stack,
      the second wildcard key is declared and every hand is re-marked. */
  method CrownHands(game: Game, landlord: int, lastOaa: int)
    requires landlord in game.pokers
    modifies game`pokers, game`universals
    ensures game.universals == old(game.universals) + [lastOaa]
    ensures Crowned(game.pokers, old(game.pokers), landlord, game.additional, game.universals)
  {
    var held := game.pokers[landlord := game.pokers[landlord] + game.additional];
    var universals := game.universals + [lastOaa];
    assert held.Keys == game.pokers.Keys;
    var marked := MarkWildcards(held, universals);
    game.pokers, game.universals := marked, universals;
  }

  /** A crowning of landlord took place between the old and the new state:
      the landlord opens the play and joins the landlord team, the second
      wildcard key lastOaa is declared, the hands are crowned, the landlord
      alone receives the play token, and the rob bookkeeping, the counters
      and the set-aside stack are as they were. */
  twostate predicate CrownedGame(game: Game, landlord: int, lastOaa: int)
    reads game
  {
    && game.firstPlayer == game.lastPlayer == landlord
    && game.firstRob == old(game.firstRob) && game.lastRob == old(game.lastRob)
    && game.finalRob == old(game.finalRob) && game.multiple == old(game.multiple)
    && game.groups == old(game.groups)[landlord := 1]
    && game.universals == old(game.universals) + [lastOaa]
    && game.additional == old(game.additional) && game.mnemonic == old(game.mnemonic)
    && landlord in old(game.states)
    && game.states == old(game.states)[landlord := old(game.states[landlord]) + [StatePlay]]
    && Crowned(game.pokers, old(game.pokers), landlord, game.additional, game.universals)
  }

  /** The opener finds a single bidder: that bidder becomes landlord. */
  method CrownLandlord(game: Game, landlord: int, lastOaa: int)
    requires game.Valid() && landlord in game.players
    modifies game`firstPlayer, game`lastPlayer, game`groups, game`pokers, game`universals, game`states
    ensures game.Valid()
    ensures CrownedGame(game, landlord, lastOaa)
  {
    game.Send(landlord, StatePlay);
    OpenPlay(game, landlord);
    CrownHands(game, landlord, lastOaa);
  }

  /** The landlord opens the play and joins the landlord team. */
  method OpenPlay(game: Game, landlord: int)
    modifies game`firstPlayer, game`lastPlayer, game`groups
    ensures game.firstPlayer == game.lastPlayer == landlord
    ensures game.groups == old(game.groups)[landlord := 1]
  {
    game.firstPlayer, game.lastPlayer, game.groups := landlord, landlord, game.groups[landlord := 1];
  }

  /** A fresh deal took place between the old and the new state: seat i
      holds deal[i], the last hand of the deal is set aside, the counters
      are those of a full deck, the bidding starts over with universal as
      the only wildcard key, and every player has one more restart signal. */
  twostate predicate Redealt(game: Game, deal: seq<seq<Card>>, sets: int, universal: int)
    reads game
  {
    && |deal| == |game.players| + 1
    && (forall i :: 0 <= i < |game.players| ==> game.players[i] in game.pokers && game.pokers[game.players[i]] == deal[i])
    && game.additional == deal[|game.players|]
    && (forall k :: MnemonicAt(game.mnemonic, k) == DeckCount(sets, k))
    && game.groups == map[] && game.universals == [universal]
    && BidsOf(game) == Bids(0, 0, 0, 0, false, 1)
    && game.states.Keys == old(game.states).Keys
    && (forall p :: p in game.states ==> game.states[p] == old(game.states[p]) + [StateReset])
  }

  /** The opener finds no bid: a fresh deal, and every player is told to
      restart. A failed deal changes nothing. */
  method RestartRound(game: Game, deal: seq<seq<Card>>, sets: int, universal: int) returns (r: Outcome<Error>)
    requires game.Valid()
    modifies game`pokers, game`mnemonic, game`groups, game`firstPlayer, game`lastPlayer,
             game`firstRob, game`lastRob, game`finalRob, game`multiple, game`universals, game`additional, game`states
    ensures game.Valid()
    ensures |deal| != |game.players| + 1 ==> r == Fail(ErrorsGamePlayersInvalid) && unchanged(game)
    ensures |deal| == |game.players| + 1 ==> r == Pass && Redealt(game, deal, sets, universal)
    ensures |deal| == |game.players| + 1 && DealCovers(deal, sets) ==> game.Conserved()
  {
    r := ResetGame(game, deal, sets, universal);
    if r == Pass {
      game.SendAll(StateReset);
    }
  }

  /** The rob token went on to next: the new bidding bookkeeping is in
      place, next has one more rob signal, and nothing else changed. */
  twostate predicate AskedNext(game: Game, bids: Bids, next: int)
    reads game
  {
    && BidsOf(game) == bids
    && game.groups == old(game.groups) && game.universals == old(game.universals)
    && game.pokers == old(game.pokers) && game.additional == old(game.additional) && game.mnemonic == old(game.mnemonic)
    && next in old(game.states)
    && game.states == old(game.states)[next := old(game.states[next]) + [StateRob]]
  }

  /** Records the new bidding bookkeeping and hands the rob token to next. */
  method PassRobToken(game: Game, bids: Bids, next: int)
    requires game.Valid() && next in game.players
    requires bids.firstPlayer == 0 || bids.firstPlayer in game.players
    requires bids.lastPlayer == 0 || bids.lastPlayer in game.players
    requires bids.firstRob == 0 || bids.firstRob in game.players
    requires bids.lastRob == 0 || bids.lastRob in game.players
    modifies game`firstPlayer, game`lastPlayer, game`firstRob, game`lastRob, game`finalRob, game`multiple, game`states
    ensures game.Valid()
    ensures AskedNext(game, bids, next)
  {
    game.Send(next, StateRob);
    RecordBids(game, bids);
  }

  /** Writes the bidding bookkeeping. */
  method RecordBids(game: Game, bids: Bids)
    modifies game`firstPlayer, game`lastPlayer, game`firstRob, game`lastRob, game`finalRob, game`multiple
    ensures BidsOf(game) == bids
  {
    game.firstPlayer, game.lastPlayer, game.firstRob, game.lastRob := bids.firstPlayer, bids.lastPlayer, bids.firstRob, bids.lastRob;
    game.finalRob, game.multiple := bids.finalRob, bids.multiple;
  }

  /** Whether a reply to "Would you like to be a landlord" is a bid: the
      lower-cased line must be exactly "y"; silence counts as "n". */
  function Accepts(reply: Reply): (accept: bool)
    ensures accept <==> reply == Said("y") || reply == Said("Y")
  {
    reply.Said? && Text.ToLower(reply.text) == "y"
  }

  /** handleRob: one step of the player holding the rob token. The
      decision is RobStep's on whether the reply is a bid. A restart deals
      anew from the given deal and wildcard key; a crowning declares
      lastOaa as the second wildcard key. */
  method HandleRob(game: Game, pid: int, reply: Reply, deal: seq<seq<Card>>, sets: int, universal: int, lastOaa: int)
    returns (r: Outcome<Error>)
    requires game.Valid() && pid in game.players
    modifies game`pokers, game`mnemonic, game`groups, game`firstPlayer, game`lastPlayer,
             game`firstRob, game`lastRob, game`finalRob, game`multiple, game`universals, game`additional, game`states
    ensures game.Valid()
    ensures var step := RobStep(old(game.players), old(BidsOf(game)), pid, Accepts(reply));
      && (step.1.Restart? && |deal| != |game.players| + 1 ==> r == Fail(ErrorsGamePlayersInvalid) && unchanged(game))
      && (step.1.Restart? && |deal| == |game.players| + 1 ==> r == Pass && Redealt(game, deal, sets, universal))
      && (step.1.Crown? ==> r == Pass && BidsOf(game) == step.0 && CrownedGame(game, step.1.landlord, lastOaa))
      && (step.1.Ask? ==> r == Pass && AskedNext(game, step.0, step.1.next))
    ensures var step := RobStep(old(game.players), old(BidsOf(game)), pid, Accepts(reply));
      step.1.Restart? && |deal| == |game.players| + 1 && DealCovers(deal, sets) ==> game.Conserved()
  {
    var accept := Accepts(reply);
    var step := RobStep(game.players, BidsOf(game), pid, accept);
    RobStepStaysOpen(game, pid, accept);
    match step.1
    case Restart =>
      r := RestartRound(game, deal, sets, universal);
    case Crown(landlord) =>
      RobStepOutcomes(game.players, BidsOf(game), pid, accept);
      CrownLandlord(game, landlord, lastOaa);
      r := Pass;
    case Ask(next) =>
      PassRobToken(game, step.0, next);
      r := Pass;
  }

  /** From a valid game, a step that passes the token on names seated
      players (or nobody) in the bookkeeping and hands the token to a
      seated player. */
  lemma RobStepStaysOpen(game: Game, pid: int, accept: bool)
    requires game.Valid() && pid in game.players
    ensures var step := RobStep(game.players, BidsOf(game), pid, accept);
      && (step.1.Ask? ==> step.1.next in game.players)
      && (step.1.Crown? ==> step.1.landlord in game.players)
      && (step.0.firstPlayer == 0 || step.0.firstPlayer in game.players)
      && (step.0.lastPlayer == 0 || step.0.lastPlayer in game.players)
      && (step.0.firstRob == 0 || step.0.firstRob in game.players)
      && (step.0.lastRob == 0 || step.0.lastRob in game.players)
  {
  }
}
