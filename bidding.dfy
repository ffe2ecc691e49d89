/** The landlord bidding of the wildcard rule set (handleRob in
    state/laizi/laizi.go) as a pure transition on the bidding bookkeeping.
    A player holding the rob token either resolves the round (when it
    started the round and no final question is pending) or is asked
    whether it bids. */
module Bidding {
  import opened Model

  /** The bidding bookkeeping of a game: who started the round, who played
      last, the first and last bidders (0 for nobody), whether the first
      bidder's final question is pending, and the stake multiplier. */
  datatype Bids = Bids(firstPlayer: int, lastPlayer: int, firstRob: int, lastRob: int, finalRob: bool, multiple: int)

  /** Where the rob token goes after one step: everybody restarts, a
      landlord is crowned and gets the play token, or the rob token goes on. */
  datatype Handoff = Restart | Crown(landlord: int) | Ask(next: int)

  /** The holder resolves the round instead of being asked. */
  predicate Resolving(b: Bids, pid: int) {
    b.firstPlayer == pid && !b.finalRob
  }

  /** The bookkeeping names only seated players (or nobody), the first and
      last bidders are both set or both unset, and a final question is
      only pending when somebody bid. */
  ghost predicate Sane(players: seq<int>, b: Bids) {
    && (b.firstPlayer == 0 || b.firstPlayer in players)
    && (b.lastPlayer == 0 || b.lastPlayer in players)
    && (b.firstRob == 0 || b.firstRob in players)
    && (b.lastRob == 0 || b.lastRob in players)
    && (b.firstRob == 0 <==> b.lastRob == 0)
    && (b.finalRob ==> b.firstRob != 0)
  }

  /** The bookkeeping after pid answers: the first holder opens the round,
      and a bid records pid as last bidder (and first, if nobody bid yet)
      and doubles the stake. */
  function Answer(b: Bids, pid: int, accept: bool): (r: Bids)
    ensures r.finalRob == b.finalRob
    ensures r.firstPlayer == if b.firstPlayer == 0 then pid else b.firstPlayer
    ensures !accept ==> r == b.(firstPlayer := r.firstPlayer)
    ensures accept ==> r.lastRob == pid && r.multiple == 2 * b.multiple
    ensures accept ==> r.firstRob == if b.firstRob == 0 then pid else b.firstRob
  {
    var started := if b.firstPlayer == 0 then b.(firstPlayer := pid) else b;
    if accept
    then started.(firstRob := if started.firstRob == 0 then pid else started.firstRob, lastRob := pid, multiple := started.multiple * 2)
    else started
  }

  /** One rob-token step by pid; accept is pid's answer (a timeout counts
      as a refusal), ignored when pid resolves the round. */
  function RobStep(players: seq<int>, b: Bids, pid: int, accept: bool): (r: (Bids, Handoff))
    requires |players| > 0
    ensures Resolving(b, pid) && r.1.Ask? ==> r.0.finalRob
  {
    if Resolving(b, pid) then
      if b.firstRob == 0 then (b, Restart)
      else if b.firstRob == b.lastRob then (b.(firstPlayer := b.lastRob, lastPlayer := b.lastRob), Crown(b.lastRob))
      else (b.(finalRob := true), Ask(b.firstRob))
    else
      var bid := Answer(b, pid, accept);
      if bid.finalRob then (bid.(finalRob := false, firstRob := bid.lastRob), Ask(bid.firstPlayer))
      else (bid, Ask(NextPlayer(players, pid)))
  }

  /** What one step decides: a restart exactly when the opener finds no
      bid, a crowning of the last bidder exactly when the opener finds a
      single bidder, otherwise the token goes on; only a bid doubles the
      stake, and a bid makes the bidder the last bidder. */
  lemma RobStepOutcomes(players: seq<int>, b: Bids, pid: int, accept: bool)
    requires |players| > 0
    ensures var r := RobStep(players, b, pid, accept);
      && (r.1 == Restart <==> Resolving(b, pid) && b.firstRob == 0)
      && (r.1.Crown? <==> Resolving(b, pid) && b.firstRob != 0 && b.firstRob == b.lastRob)
      && (r.1.Crown? ==> r.1.landlord == b.lastRob && r.0.firstPlayer == r.0.lastPlayer == b.lastRob)
      && (Resolving(b, pid) && r.1.Ask? ==> r.1.next == b.firstRob)
      && r.0.multiple == (if !Resolving(b, pid) && accept then 2 * b.multiple else b.multiple)
      && (!Resolving(b, pid) && accept ==> r.0.lastRob == pid)
  {
  }

  /** One step from sane bookkeeping and a seated holder keeps the
      bookkeeping sane and crowns or asks a seated player. */
  lemma RobStepStaysSeated(players: seq<int>, b: Bids, pid: int, accept: bool)
    requires |players| > 0 && 0 !in players && pid in players && Sane(players, b)
    ensures var r := RobStep(players, b, pid, accept);
      && Sane(players, r.0)
      && (r.1.Crown? ==> r.1.landlord in players)
      && (r.1.Ask? ==> r.1.next in players)
  {
  }

  /** The bidding run from holder with the answers of the players that are
      asked, in order; stops at a restart, a crowning, or when the answers
      run out (then the token waits at the returned holder). */
  function Run(players: seq<int>, b: Bids, holder: int, answers: seq<bool>): (Bids, Handoff)
    requires |players| > 0
    decreases |answers|, if Resolving(b, holder) then 1 else 0
  {
    if Resolving(b, holder) then
      var step := RobStep(players, b, holder, false);
      if step.1.Ask? then Run(players, step.0, step.1.next, answers) else step
    else if answers == [] then (b, Ask(holder))
    else
      var step := RobStep(players, b, holder, answers[0]);
      if step.1.Ask? then Run(players, step.0, step.1.next, answers[1..]) else step
  }

  /** The seat m places after seat i in a ring of n seats, for m <= n. */
  function Ahead(n: int, i: int, m: int): int {
    if i + m < n then i + m else i + m - n
  }

  /** In turn order, the player after seat Ahead(n, i, m) sits at
      Ahead(n, i, m + 1). */
  lemma NextAhead(players: seq<int>, i: int, m: int)
    requires Distinct(players) && 0 <= i < |players| && 0 <= m < |players|
    ensures 0 <= Ahead(|players|, i, m) < |players| && 0 <= Ahead(|players|, i, m + 1) < |players|
    ensures NextPlayer(players, players[Ahead(|players|, i, m)]) == players[Ahead(|players|, i, m + 1)]
  {
    NextPlayerFollows(players, Ahead(|players|, i, m));
  }

  /** An answer by a player that does not resolve the round, with no
      final question pending, updates the bookkeeping and passes the token
      to the next player. */
  lemma AnswerPassesOn(players: seq<int>, b: Bids, holder: int, accept: bool, rest: seq<bool>)
    requires |players| > 0 && !Resolving(b, holder) && !b.finalRob
    ensures Run(players, b, holder, [accept] + rest) == Run(players, Answer(b, holder, accept), NextPlayer(players, holder), rest)
  {
    assert ([accept] + rest)[1..] == rest;
    assert RobStep(players, b, holder, accept) == (Answer(b, holder, accept), Ask(NextPlayer(players, holder)));
  }

  /** A refusal at the k-th seat after the opener, before the round is
      complete, passes the token to the next seat unchanged. */
  lemma RefusalStep(players: seq<int>, b: Bids, i: int, k: int, answers: seq<bool>)
    requires Distinct(players) && 0 !in players && 0 <= i < |players|
    requires b.firstPlayer == players[i] && !b.finalRob
    requires 1 <= k < |players| && |answers| > 0 && !answers[0]
    ensures Run(players, b, players[Ahead(|players|, i, k)], answers)
         == Run(players, b, players[Ahead(|players|, i, k + 1)], answers[1..])
  {
    var h := Ahead(|players|, i, k);
    assert players[h] != players[i];
    NextAhead(players, i, k);
    assert Answer(b, players[h], false) == b;
    assert answers == [false] + answers[1..];
    AnswerPassesOn(players, b, players[h], false, answers[1..]);
  }

  /** While the round's opener is not reached again, refusals pass the
      rob token on without touching the bookkeeping: from the k-th seat
      after the opener, e - k refusals bring it to the e-th. */
  lemma {:induction false} RefusalsPassOn(players: seq<int>, b: Bids, i: int, k: int, e: int, answers: seq<bool>)
    requires Distinct(players) && 0 !in players && 0 <= i < |players|
    requires b.firstPlayer == players[i] && !b.finalRob
    requires 1 <= k <= e <= |players| && e - k <= |answers|
    requires forall j :: 0 <= j < e - k ==> !answers[j]
    ensures Run(players, b, players[Ahead(|players|, i, k)], answers)
         == Run(players, b, players[Ahead(|players|, i, e)], answers[e - k..])
    decreases e - k
  {
    if k < e {
      RefusalStep(players, b, i, k, answers);
      RefusalsPassOn(players, b, i, k + 1, e, answers[1..]);
      assert answers[1..][e - (k + 1)..] == answers[e - k..];
    } else {
      assert answers[e - k..] == answers;
    }
  }

  /** A round in which every player refuses brings the token back to the
      opener, who restarts the game. */
  lemma AllRefuseRestarts(players: seq<int>, b: Bids, i: int, answers: seq<bool>)
    requires Distinct(players) && 0 !in players && 0 <= i < |players|
    requires b.firstPlayer == 0 && b.firstRob == 0 && !b.finalRob
    requires |answers| == |players| && forall k :: 0 <= k < |answers| ==> !answers[k]
    ensures Run(players, b, players[i], answers) == (b.(firstPlayer := players[i]), Restart)
  {
    var n := |players|;
    var started := b.(firstPlayer := players[i]);
    NextAhead(players, i, 0);
    assert answers == [false] + answers[1..];
    AnswerPassesOn(players, b, players[i], false, answers[1..]);
    assert Answer(b, players[i], false) == started;
    RefusalsPassOn(players, started, i, 1, n, answers[1..]);
    assert answers[1..][n - 1..] == [];
    assert Ahead(n, i, n) == i;
  }

  /** Once a single bid is on record, refusals up to the end of the round
      bring the token back to the opener, who crowns the bidder. */
  lemma RoundEndsWithCrown(players: seq<int>, bid: Bids, i: int, k: int, answers: seq<bool>)
    requires Distinct(players) && 0 !in players && 0 <= i < |players| && 1 <= k <= |players|
    requires bid.firstPlayer == players[i] && !bid.finalRob && bid.firstRob == bid.lastRob != 0
    requires |answers| == |players| - k && forall j :: 0 <= j < |answers| ==> !answers[j]
    ensures Run(players, bid, players[Ahead(|players|, i, k)], answers)
         == (bid.(firstPlayer := bid.lastRob, lastPlayer := bid.lastRob), Crown(bid.lastRob))
  {
    var n := |players|;
    RefusalsPassOn(players, bid, i, k, n, answers);
    assert answers[n - k..] == [];
    assert Ahead(n, i, n) == i;
    assert Run(players, bid, players[i], []) == RobStep(players, bid, players[i], false);
  }

  /** A round in which only the j-th player after the opener bids makes
      that player landlord at double stake. */
  lemma SoleBidderBecomesLandlord(players: seq<int>, b: Bids, i: int, j: int, answers: seq<bool>)
    requires Distinct(players) && 0 !in players && 0 <= i < |players| && 0 <= j < |players|
    requires b.firstPlayer == 0 && b.firstRob == 0 && !b.finalRob
    requires |answers| == |players| && answers[j] && forall k :: 0 <= k < |answers| && k != j ==> !answers[k]
    ensures var l := players[Ahead(|players|, i, j)];
      Run(players, b, players[i], answers)
        == (b.(firstPlayer := l, lastPlayer := l, firstRob := l, lastRob := l, multiple := 2 * b.multiple), Crown(l))
  {
    if j == 0 {
      var l := players[i];
      var bid := b.(firstPlayer := l, firstRob := l, lastRob := l, multiple := 2 * b.multiple);
      NextAhead(players, i, 0);
      assert answers == [true] + answers[1..];
      AnswerPassesOn(players, b, l, true, answers[1..]);
      assert Answer(b, l, true) == bid;
      RoundEndsWithCrown(players, bid, i, 1, answers[1..]);
    } else {
      LaterBidderBecomesLandlord(players, b, i, j, answers);
    }
  }

  /** SoleBidderBecomesLandlord when the bidder is not the opener. */
  lemma LaterBidderBecomesLandlord(players: seq<int>, b: Bids, i: int, j: int, answers: seq<bool>)
    requires Distinct(players) && 0 !in players && 0 <= i < |players| && 0 < j < |players|
    requires b.firstPlayer == 0 && b.firstRob == 0 && !b.finalRob
    requires |answers| == |players| && answers[j] && forall k :: 0 <= k < |answers| && k != j ==> !answers[k]
    ensures var l := players[Ahead(|players|, i, j)];
      Run(players, b, players[i], answers)
        == (b.(firstPlayer := l, lastPlayer := l, firstRob := l, lastRob := l, multiple := 2 * b.multiple), Crown(l))
  {
    var n := |players|;
    var l := players[Ahead(n, i, j)];
    var started := b.(firstPlayer := players[i]);
    var bid := started.(firstRob := l, lastRob := l, multiple := 2 * b.multiple);
    calc {
      Run(players, b, players[i], answers);
      { assert answers == [false] + answers[1..];
        NextAhead(players, i, 0);
        AnswerPassesOn(players, b, players[i], false, answers[1..]);
        assert Answer(b, players[i], false) == started; }
      Run(players, started, players[Ahead(n, i, 1)], answers[1..]);
      { RefusalsPassOn(players, started, i, 1, j, answers[1..]);
        assert answers[1..][j - 1..] == answers[j..]; }
      Run(players, started, l, answers[j..]);
      { assert l != players[i];
        NextAhead(players, i, j);
        assert answers[j..] == [true] + answers[j + 1..];
        AnswerPassesOn(players, started, l, true, answers[j + 1..]);
        assert Answer(started, l, true) == bid; }
      Run(players, bid, players[Ahead(n, i, j + 1)], answers[j + 1..]);
      { RoundEndsWithCrown(players, bid, i, j + 1, answers[j + 1..]); }
      (bid.(firstPlayer := bid.lastRob, lastPlayer := bid.lastRob), Crown(bid.lastRob));
    }
  }

  /** With two or more bidders the opener hands the first bidder a final
      question: accepting makes it landlord, refusing makes the last bidder
      landlord; either way the round ends at the opener. */
  lemma FinalQuestionDecides(players: seq<int>, b: Bids, accept: bool)
    requires |players| > 0
    requires b.firstPlayer != 0 && !b.finalRob
    requires b.firstRob != 0 && b.lastRob != 0 && b.firstRob != b.lastRob
    ensures var w := if accept then b.firstRob else b.lastRob;
      Run(players, b, b.firstPlayer, [accept])
        == (b.(firstPlayer := w, lastPlayer := w, firstRob := w, lastRob := w,
               multiple := if accept then 2 * b.multiple else b.multiple), Crown(w))
  {
    var w := if accept then b.firstRob else b.lastRob;
    var asked := b.(finalRob := true);
    assert RobStep(players, b, b.firstPlayer, false) == (asked, Ask(b.firstRob));
    var answered := asked.(lastRob := b.firstRob, multiple := 2 * b.multiple);
    var settled := (if accept then answered else asked).(finalRob := false, firstRob := w, lastRob := w);
    assert RobStep(players, asked, b.firstRob, accept) == (settled, Ask(b.firstPlayer));
    assert [accept][1..] == [];
    assert Run(players, settled, b.firstPlayer, []) == RobStep(players, settled, b.firstPlayer, false);
  }

  /** The bidding never names anybody outside the table: starting from
      sane bookkeeping and a seated holder, any run keeps the bookkeeping
      sane and crowns or asks a seated player. */
  lemma {:induction false} RunStaysSeated(players: seq<int>, b: Bids, holder: int, answers: seq<bool>)
    requires 0 !in players && |players| > 0 && holder in players && Sane(players, b)
    ensures var r := Run(players, b, holder, answers);
      && Sane(players, r.0)
      && (r.1.Crown? ==> r.1.landlord in players)
      && (r.1.Ask? ==> r.1.next in players)
    decreases |answers|, if Resolving(b, holder) then 1 else 0
  {
    if Resolving(b, holder) {
      var step := RobStep(players, b, holder, false);
      RobStepStaysSeated(players, b, holder, false);
      if step.1.Ask? {
        RunStaysSeated(players, step.0, step.1.next, answers);
      }
    } else if answers != [] {
      var step := RobStep(players, b, holder, answers[0]);
      RobStepStaysSeated(players, b, holder, answers[0]);
      RunStaysSeated(players, step.0, step.1.next, answers[1..]);
    }
  }
}
