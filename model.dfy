/** The shared data model of the server (database/model.go): players, rooms
    and the game of a room, with the game's turn-order and grouping helpers
    and the card ledger the remaining-card view relies on. */
module Model {
  import opened Wrappers
  import opened Consts
  import opened Poker
  import Text

  /** A connected player as the directory keeps it. The connection, the
      inbound packet queue and the screen state are not part of this model. */
  datatype Player = Player(id: int, name: string, score: int, roomId: int, online: bool)

  /** A room: its lifecycle state, member count, creator, last activity,
      whitelisted boolean properties, capacity and password, and the game
      it runs, if any. */
  datatype Room = Room(
    id: int,
    kind: int,
    game: Option<Game>,
    state: RoomState,
    players: int,
    creator: int,
    activeTime: int,
    properties: map<string, bool>,
    maxPlayer: int,
    password: string)
  {
    /** The stored value of a property; false when it was never set. */
    function GetProperty(key: string): bool {
      if key in properties then properties[key] else false
    }

    /** All properties that were set, whatever their value, agreeing with
        GetProperty. */
    function GetProperties(): (props: map<string, bool>)
      ensures forall key :: key in props ==> props[key] == GetProperty(key)
      ensures forall key :: GetProperty(key) ==> key in props
      ensures forall key :: key in properties ==> key in props
    {
      properties
    }
  }

  /** The signals a player's turn token can carry. */
  datatype Signal = StateRob | StatePlay | StateReset | StateWaiting

  /** What a prompt (Player.AskForString) returns: the line the player
      typed, or nothing when the read failed or timed out. */
  datatype Reply = Said(text: string) | Silent

  predicate Distinct(s: seq<int>) {
    forall i, j :: 0 <= i < j < |s| ==> s[i] != s[j]
  }

  /** arrays.IndexOf: the first position of x in s, or -1. */
  function IndexOf(s: seq<int>, x: int): (r: int)
    ensures -1 <= r < |s|
    ensures r == -1 <==> x !in s
    ensures r >= 0 ==> s[r] == x && x !in s[..r]
  {
    if s == [] then -1
    else if s[0] == x then 0
    else
      var r := IndexOf(s[1..], x);
      assert s[1..][..if r < 0 then 0 else r] == s[1..if r < 0 then 1 else r + 1];
      if r < 0 then -1 else r + 1
  }

  lemma ModBelow(a: int, n: int)
    requires 0 <= a < n
    ensures a % n == a
  {
  }

  lemma ModWrap(a: int, n: int)
    requires 0 < n <= a < 2 * n
    ensures a % n == a - n
  {
    assert a == (a - n) + n;
  }

  /** The player after curr in turn order: players[(idx + 1) % n] where
      idx is curr's seat, -1 when curr is not seated. */
  function NextPlayer(players: seq<int>, curr: int): (r: int)
    requires |players| > 0
    ensures r in players
    ensures curr == players[|players| - 1] && Distinct(players) ==> r == players[0]
    ensures curr !in players ==> r == players[0]
  {
    NextFromSeat(players, curr, 0)
  }

  /** The seat scan behind NextPlayer: the player after the first seat at
      or after k that holds curr, players[0] when there is none. */
  function NextFromSeat(players: seq<int>, curr: int, k: nat): (r: int)
    requires k < |players|
    ensures r in players
    ensures (forall j :: k <= j < |players| ==> players[j] != curr) ==> r == players[0]
    ensures Distinct(players) && curr == players[|players| - 1] ==> r == players[0]
    decreases |players| - k
  {
    if players[k] == curr then (if k + 1 < |players| then players[k + 1] else players[0])
    else if k + 1 < |players| then NextFromSeat(players, curr, k + 1)
    else players[0]
  }

  /** The scan agrees with the seat arithmetic of the source: the player
      after curr is players[(IndexOf(players, curr) + 1) % n]. */
  lemma {:induction false} NextPlayerIsSeatArithmetic(players: seq<int>, curr: int)
    requires |players| > 0
    ensures NextPlayer(players, curr) == players[(IndexOf(players, curr) + 1) % |players|]
  {
    ScanFindsSeat(players, curr, 0);
  }

  lemma {:induction false} ScanFindsSeat(players: seq<int>, curr: int, k: nat)
    requires k < |players| && forall j :: 0 <= j < k ==> players[j] != curr
    ensures NextFromSeat(players, curr, k) == players[(IndexOf(players, curr) + 1) % |players|]
    decreases |players| - k
  {
    var n, idx := |players|, IndexOf(players, curr);
    if players[k] == curr {
      if k + 1 < n { ModBelow(k + 1, n); } else { ModWrap(n, n); }
    } else if k + 1 < n {
      ScanFindsSeat(players, curr, k + 1);
    } else {
      ModBelow(0, n);
    }
  }

  /** With distinct players, the player after the one at seat i sits at
      seat i + 1, or at seat 0 after the last seat. */
  lemma NextPlayerFollows(players: seq<int>, i: int)
    requires Distinct(players) && 0 <= i < |players|
    ensures NextPlayer(players, players[i]) == players[if i + 1 < |players| then i + 1 else 0]
  {
    NextPlayerIsSeatArithmetic(players, players[i]);
    if i + 1 < |players| { ModBelow(i + 1, |players|); } else { ModWrap(i + 1, |players|); }
  }

  /** PrevPlayer as written: (idx + n) % n is idx itself, so a seated player
      gets itself back; an unseated one gets the last player. */
  function PrevPlayer(players: seq<int>, curr: int): (r: int)
    requires |players| > 0
    ensures curr in players ==> r == curr
    ensures curr !in players ==> r == players[|players| - 1]
  {
    var n, idx := |players|, IndexOf(players, curr);
    assert (idx + n) % n == (if idx >= 0 then idx else n - 1) by {
      if idx >= 0 { ModWrap(idx + n, n); } else { ModBelow(idx + n, n); }
    }
    players[(idx + n) % n]
  }

  /** PrevPlayer as evidently intended: the seat before curr. */
  function PrevPlayerIntended(players: seq<int>, curr: int): (r: int)
    requires |players| > 0
    ensures r in players
    ensures curr in players && Distinct(players) ==> NextPlayer(players, r) == curr
  {
    var n := |players|;
    var idx := IndexOf(players, curr);
    var prev := if idx > 0 then idx - 1 else n - 1;
    assert curr in players && Distinct(players) ==> NextPlayer(players, players[prev]) == curr by {
      if curr in players && Distinct(players) {
        NextPlayerFollows(players, prev);
      }
    }
    players[prev]
  }

  /** The as-written PrevPlayer never moves a seated player: with two or
      more distinct players it differs from the seat before. */
  lemma PrevPlayerIsNotPrevious(players: seq<int>, curr: int)
    requires |players| >= 2 && Distinct(players) && curr in players
    ensures PrevPlayer(players, curr) == curr
    ensures PrevPlayerIntended(players, curr) != curr
  {
  }

  /** The group of a player; 0 for a player without an entry. */
  function GroupOf(groups: map<int, int>, p: int): (g: int)
    ensures g != 0 ==> p in groups
  {
    if p in groups then groups[p] else 0
  }

  function IsTeammate(groups: map<int, int>, a: int, b: int): (r: bool)
    ensures a == b ==> r
  {
    GroupOf(groups, a) == GroupOf(groups, b)
  }

  function IsLandlord(groups: map<int, int>, p: int): (r: bool)
    ensures r ==> p in groups
  {
    GroupOf(groups, p) == 1
  }

  /** Being teammates is an equivalence between players. */
  lemma TeammateIsEquivalence(groups: map<int, int>, a: int, b: int, c: int)
    ensures IsTeammate(groups, a, a)
    ensures IsTeammate(groups, a, b) == IsTeammate(groups, b, a)
    ensures IsTeammate(groups, a, b) && IsTeammate(groups, b, c) ==> IsTeammate(groups, a, c)
  {
  }

  /** The team label of a player: "team<group>" under the skill property,
      otherwise "landlord" or "peasant". */
  function Team(properties: map<string, bool>, groups: map<int, int>, p: int): (r: string)
    ensures r == "landlord" <==> !(RoomPropsSkill in properties && properties[RoomPropsSkill]) && IsLandlord(groups, p)
  {
    if RoomPropsSkill in properties && properties[RoomPropsSkill] then
      var tag := "team" + Text.Itoa(GroupOf(groups, p));
      assert tag[0] == 't';
      tag
    else if !IsLandlord(groups, p) then "peasant"
    else "landlord"
  }

  /** Team labels separate exactly the players that are not teammates under
      the skill property, and exactly landlord from peasants without it. */
  lemma TeamLabelsAgreeWithGroups(properties: map<string, bool>, groups: map<int, int>, a: int, b: int)
    ensures RoomPropsSkill in properties && properties[RoomPropsSkill] ==>
      (Team(properties, groups, a) == Team(properties, groups, b) <==> IsTeammate(groups, a, b))
    ensures !(RoomPropsSkill in properties && properties[RoomPropsSkill]) ==>
      (Team(properties, groups, a) == Team(properties, groups, b) <==> IsLandlord(groups, a) == IsLandlord(groups, b))
    ensures !(RoomPropsSkill in properties && properties[RoomPropsSkill]) ==>
      (Team(properties, groups, a) == "landlord" <==> IsLandlord(groups, a))
  {
    if RoomPropsSkill in properties && properties[RoomPropsSkill] {
      var x, y := Text.Itoa(GroupOf(groups, a)), Text.Itoa(GroupOf(groups, b));
      if "team" + x == "team" + y {
        assert x == ("team" + x)[4..] == ("team" + y)[4..] == y;
        Text.ItoaInjective(GroupOf(groups, a), GroupOf(groups, b));
      }
    }
  }

  /** A remaining-card counter read with Go's map default. */
  function MnemonicAt(mnemonic: map<int, int>, k: int): int {
    if k in mnemonic then mnemonic[k] else 0
  }

  /** Cards of key k in player p's hand (none for a player without one). */
  function HandCount(pokers: map<int, seq<Card>>, p: int, k: int): nat {
    if p in pokers then CountKey(pokers[p], k) else 0
  }

  /** Cards of key k held by the players ps together. */
  function HeldCount(ps: seq<int>, pokers: map<int, seq<Card>>, k: int): nat {
    if ps == [] then 0 else HandCount(pokers, ps[0], k) + HeldCount(ps[1..], pokers, k)
  }

  /** Card conservation: every counter equals the cards of that key still
      held by the players plus those still set aside. */
  ghost predicate Conserves(mnemonic: map<int, int>, ps: seq<int>, pokers: map<int, seq<Card>>, aside: seq<Card>) {
    forall k :: MnemonicAt(mnemonic, k) == HeldCount(ps, pokers, k) + CountKey(aside, k)
  }

  lemma {:induction false} HeldCountAgree(ps: seq<int>, m1: map<int, seq<Card>>, m2: map<int, seq<Card>>, k: int)
    requires forall q :: q in ps ==> HandCount(m1, q, k) == HandCount(m2, q, k)
    ensures HeldCount(ps, m1, k) == HeldCount(ps, m2, k)
  {
    if ps != [] {
      HeldCountAgree(ps[1..], m1, m2, k);
    }
  }

  /** The cards held by all seated players are those of one of them plus
      those of the others. */
  lemma {:induction false} HeldCountSplit(ps: seq<int>, pokers: map<int, seq<Card>>, p: int, k: int)
    requires Distinct(ps) && p in ps
    ensures HeldCount(ps, pokers, k) == HandCount(pokers, p, k) + HeldCount(ps, pokers - {p}, k)
  {
    if ps[0] == p {
      assert p !in ps[1..] by {
        forall j | 1 <= j < |ps| ensures ps[j] != p { }
      }
      HeldCountAgree(ps[1..], pokers, pokers - {p}, k);
    } else {
      HeldCountSplit(ps[1..], pokers, p, k);
    }
  }

  /** Replacing one seated player's hand changes the held count by the
      difference between the two hands. */
  lemma HeldCountUpdate(ps: seq<int>, pokers: map<int, seq<Card>>, p: int, hand: seq<Card>, k: int)
    requires Distinct(ps) && p in ps
    ensures HeldCount(ps, pokers[p := hand], k) + HandCount(pokers, p, k) == HeldCount(ps, pokers, k) + CountKey(hand, k)
  {
    HeldCountSplit(ps, pokers, p, k);
    HeldCountSplit(ps, pokers[p := hand], p, k);
    assert pokers[p := hand] - {p} == pokers - {p};
  }

  /** The seats of a game: player ids are non-zero and distinct (0 means
      "nobody" in the bookkeeping fields), exactly the seated players have
      a token queue, and every seated player has a hand. */
  ghost predicate Seating(players: seq<int>, queues: set<int>, hands: set<int>) {
    && |players| > 0 && Distinct(players) && 0 !in players
    && queues == (set p | p in players)
    && (forall p :: p in players ==> p in hands)
  }

  /** The game of a room: turn order, groups, one token queue per player,
      hands, wildcard keys, the set-aside stack, stake multiplier, bidding
      bookkeeping, the last accepted play and the remaining-card counters.
      The other fields of the server's game (decks, skills, play times,
      discards, rule set) are not used by the wildcard rule set. */
  class Game {
    var players: seq<int>
    var groups: map<int, int>
    var states: map<int, seq<Signal>>
    var closed: bool
    var pokers: map<int, seq<Card>>
    var universals: seq<int>
    var additional: seq<Card>
    var multiple: int
    var firstPlayer: int
    var lastPlayer: int
    var firstRob: int
    var lastRob: int
    var finalRob: bool
    var lastFaces: Option<Faces>
    var lastPokers: seq<Card>
    var mnemonic: map<int, int>
    var properties: map<string, bool>

    /** Player ids are non-zero and distinct (0 means "nobody" in the
        bookkeeping fields), every seated player has a token queue and a
        hand, at least one wildcard key is declared, and every bookkeeping
        id is 0 or a seated player. */
    ghost predicate Valid()
      reads this`players, this`states, this`pokers, this`universals,
            this`firstPlayer, this`lastPlayer, this`firstRob, this`lastRob
    {
      && Seating(players, states.Keys, pokers.Keys)
      && |universals| >= 1
      && (firstPlayer == 0 || firstPlayer in players)
      && (lastPlayer == 0 || lastPlayer in players)
      && (firstRob == 0 || firstRob in players)
      && (lastRob == 0 || lastRob in players)
    }

    /** The set-aside stack still counts as unplayed until the landlord
        takes it, which is when the second wildcard key is declared. */
    function SetAside(): seq<Card>
      reads this`universals, this`additional
    {
      if |universals| == 1 then additional else []
    }

    ghost predicate Conserved()
      reads this`mnemonic, this`players, this`pokers, this`universals, this`additional
    {
      Conserves(mnemonic, players, pokers, SetAside())
    }

    constructor (players: seq<int>, groups: map<int, int>, states: map<int, seq<Signal>>,
                 pokers: map<int, seq<Card>>, additional: seq<Card>, universals: seq<int>,
                 mnemonic: map<int, int>)
      ensures this.players == players && this.groups == groups && this.states == states
      ensures this.pokers == pokers && this.additional == additional
      ensures this.universals == universals && this.mnemonic == mnemonic
      ensures multiple == 1 && firstPlayer == 0 && lastPlayer == 0
      ensures firstRob == 0 && lastRob == 0 && !finalRob && !closed
      ensures lastFaces == None && lastPokers == [] && properties == map[]
    {
      this.players := players;
      this.groups := groups;
      this.states := states;
      this.pokers := pokers;
      this.additional := additional;
      this.universals := universals;
      this.mnemonic := mnemonic;
      multiple := 1;
      firstPlayer, lastPlayer, firstRob, lastRob := 0, 0, 0, 0;
      finalRob, closed := false, false;
      lastFaces, lastPokers, properties := None, [], map[];
    }

    /** Hands signal s to player p. */
    method Send(p: int, s: Signal)
      requires p in states
      modifies this`states
      ensures states == old(states)[p := old(states[p]) + [s]]
      ensures states.Keys == old(states).Keys
    {
      states := states[p := states[p] + [s]];
    }

    /** Hands signal s to every seated player. */
    method SendAll(s: Signal)
      requires Valid()
      modifies this`states
      ensures states.Keys == old(states).Keys
      ensures forall p :: p in states ==> states[p] == old(states[p]) + [s]
    {
      var i := 0;
      while i < |players|
        invariant 0 <= i <= |players|
        invariant states.Keys == old(states).Keys
        invariant forall p :: p in players ==> p in states
        invariant forall j :: 0 <= j < i ==> states[players[j]] == old(states[players[j]]) + [s]
        invariant forall p :: p in states && p !in players[..i] ==> states[p] == old(states[p])
      {
        states := states[players[i] := states[players[i]] + [s]];
        i := i + 1;
      }
      assert forall p :: p in states ==> p in players[..i];
    }

    /** Tears the game down: every token queue is closed. */
    method Close()
      modifies this`closed
      ensures closed
    {
      closed := true;
    }
  }
}
