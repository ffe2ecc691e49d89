/** The play step of the wildcard rule set (handlePlay in
    state/laizi/laizi.go): the holder of the play token answers with the
    aliases of the cards it plays, "p"/"pass" or "ls"/"v"; the answer is
    judged against the hand and the last accepted play, and an accepted
    play replaces the hand, updates the remaining-card counters and either
    ends the game or passes the token on. One prompt round is modelled. */
module Play {
  import opened Wrappers
  import opened Consts
  import opened Poker
  import opened Model
  import opened Database
  import opened Selection
  import Text

  /** How one answer is judged. */
  datatype Verdict =
    | Invalid(error: Error)            // refused; the player is prompted again
    | View                             // the player asked to see the table
    | Skip                             // a player who is not master passes
    | Accept(pick: Pick, faces: Faces) // the cards picked and the shape they are read as

  /** What one round of the prompt did. */
  datatype PlayOutcome = Rejected(error: Error) | Viewed | Passed(next: int) | Played(next: int) | Won

  /** The token holder must play (may not pass) when it made the last
      accepted play or when nobody has played yet. */
  predicate IsMaster(lastPlayer: int, pid: int) {
    pid == lastPlayer || lastPlayer == 0
  }

  /** The answer that is judged: a silent master plays the alias of its
      first card, a silent non-master passes, and the text is lower-cased. */
  function EffectiveAnswer(reply: Reply, master: bool, hand: seq<Card>, lib: Library): (ans: string)
    requires reply.Silent? && master ==> |hand| > 0
    ensures reply.Said? ==> |ans| == |reply.text|
    ensures reply.Silent? && !master ==> ans == "p"
    ensures reply.Silent? && master ==> |ans| == |lib.getAlias(hand[0].key)|
  {
    match reply
    case Said(text) => Text.ToLower(text)
    case Silent => if master then Text.ToLower(lib.getAlias(hand[0].key)) else Text.ToLower("p")
  }

  /** The position of the first shape, from index from on, that beats
      last; -1 when none does. */
  function FirstBeating(facesArr: seq<Faces>, last: Faces, lib: Library, from: nat): (r: int)
    requires from <= |facesArr|
    ensures r == -1 || from <= r < |facesArr|
    ensures r >= 0 ==> lib.compare(facesArr[r], last) && forall j :: from <= j < r ==> !lib.compare(facesArr[j], last)
    ensures r == -1 <==> forall j :: from <= j < |facesArr| ==> !lib.compare(facesArr[j], last)
    decreases |facesArr| - from
  {
    if from == |facesArr| then -1
    else if lib.compare(facesArr[from], last) then from
    else FirstBeating(facesArr, last, lib, from + 1)
  }

  /** The judgement of one effective answer ans, given the token holder's
      hand, whether it is master and the last accepted shape. */
  function Judge(hand: seq<Card>, master: bool, lastFaces: Option<Faces>, ans: string, lib: Library): (v: Verdict)
    ensures v.View? <==> ans == "ls" || ans == "v"
    ensures v.Skip? <==> !master && (ans == "p" || ans == "pass")
  {
    if ans == "" then Invalid(ErrorsPokersFacesInvalid)
    else if ans == "ls" || ans == "v" then View
    else if ans == "p" || ans == "pass" then
      if master then Invalid(ErrorsHaveToPlay) else Skip
    else match PickAll(Start(hand), AliasKeys(ans, lib))
      case None => Invalid(ErrorsPokersFacesInvalid)
      case Some(q) =>
        var facesArr := lib.parseFaces(q.sells);
        if facesArr == [] then Invalid(ErrorsPokersFacesInvalid)
        else if !master && lastFaces.Some? then
          var i := FirstBeating(facesArr, lastFaces.value, lib, 0);
          if i < 0 then Invalid(ErrorsPokersFacesInvalid) else Accept(q, facesArr[i])
        else Accept(q, facesArr[0])
  }

  /** The master may never pass: passing is refused, and so is silence
      only when its default play is refused. */
  lemma MasterCannotPass(hand: seq<Card>, lastFaces: Option<Faces>, ans: string, lib: Library)
    ensures Judge(hand, true, lastFaces, ans, lib) != Skip
    ensures ans == "p" || ans == "pass" ==> Judge(hand, true, lastFaces, ans, lib) == Invalid(ErrorsHaveToPlay)
  {
  }

  /** A player who is not master and stays silent passes. */
  lemma SilenceIsPass(hand: seq<Card>, lastFaces: Option<Faces>, lib: Library)
    ensures Judge(hand, false, lastFaces, EffectiveAnswer(Silent, false, hand, lib), lib) == Skip
  {
    assert EffectiveAnswer(Silent, false, hand, lib) == "p";
  }

  /** An answer holding an alias the library does not know is refused as
      an invalid shape. */
  lemma UnknownAliasIsInvalid(hand: seq<Card>, master: bool, lastFaces: Option<Faces>, ans: string, lib: Library)
    requires ans != "ls" && ans != "v" && ans != "p" && ans != "pass"
    requires exists i :: 0 <= i < |ans| && lib.getKey(ans[i]) == 0
    ensures Judge(hand, master, lastFaces, ans, lib) == Invalid(ErrorsPokersFacesInvalid)
  {
    var i :| 0 <= i < |ans| && lib.getKey(ans[i]) == 0;
    assert AliasKeys(ans, lib)[i] == 0;
    UnknownAliasRejects(Start(hand), AliasKeys(ans, lib));
  }

  /** An accepted play sells one card per alias, each showing the key asked
      for; loses no card of the hand (every key's cards are either kept or
      sold under their own key, and what is left in hand is the hand less
      one of its own cards per alias); is read as one of the shapes the library
      offers for the sold cards; and, unless the player is master or
      nothing was played yet, beats the last accepted shape. */
  lemma AcceptedPlay(hand: seq<Card>, master: bool, lastFaces: Option<Faces>, ans: string, lib: Library, k: int)
    requires Judge(hand, master, lastFaces, ans, lib).Accept?
    ensures var v := Judge(hand, master, lastFaces, ans, lib);
      && |v.pick.sells| == |ans|
      && (forall i :: 0 <= i < |ans| ==> v.pick.sells[i].key == lib.getKey(ans[i]))
      && CountKey(v.pick.normal, k) + CountKey(v.pick.wild, k) + Occurrences(v.pick.realKeys, k) == CountKey(hand, k)
      && multiset(v.pick.normal + v.pick.wild) <= multiset(hand)
      && |v.pick.normal + v.pick.wild| + |ans| == |hand|
      && v.faces in lib.parseFaces(v.pick.sells)
      && (!master && lastFaces.Some? ==> lib.compare(v.faces, lastFaces.value))
  {
    var keys := AliasKeys(ans, lib);
    var q := PickAll(Start(hand), keys).value;
    assert Judge(hand, master, lastFaces, ans, lib).pick == q;
    assert Start(hand).sells == [];
    PickAllLabels(Start(hand), keys);
    forall i | 0 <= i < |ans|
      ensures q.sells[i].key == lib.getKey(ans[i])
    {
      assert keys[i] == lib.getKey(ans[i]);
    }
    PickAllConserves(Start(hand), keys, k);
    StartLedger(hand, k);
    SplitConserves(hand);
    PickAllShrinks(Start(hand), keys);
  }

  /** An accepted play is the pick of the answer's aliases from the hand. */
  lemma AcceptedPick(hand: seq<Card>, master: bool, lastFaces: Option<Faces>, ans: string, lib: Library)
    requires Judge(hand, master, lastFaces, ans, lib).Accept?
    ensures PickAll(Start(hand), AliasKeys(ans, lib)) == Some(Judge(hand, master, lastFaces, ans, lib).pick)
  {
  }

  /** The hand left after an accepted play is empty exactly when the play
      used every card of the hand. */
  lemma WinIffHandUsedUp(hand: seq<Card>, master: bool, lastFaces: Option<Faces>, ans: string, lib: Library)
    requires Judge(hand, master, lastFaces, ans, lib).Accept?
    ensures var q := Judge(hand, master, lastFaces, ans, lib).pick;
      |q.normal + q.wild| == 0 <==> |ans| == |hand|
  {
    AcceptedPick(hand, master, lastFaces, ans, lib);
    PickAllShrinks(Start(hand), AliasKeys(ans, lib));
  }

  /** The loop over the parsed shapes: the first one that beats last. */
  method FindBeating(facesArr: seq<Faces>, last: Faces, lib: Library) returns (i: int)
    ensures i == FirstBeating(facesArr, last, lib, 0)
  {
    i := 0;
    while i < |facesArr| && !lib.compare(facesArr[i], last)
      invariant 0 <= i <= |facesArr|
      invariant FirstBeating(facesArr, last, lib, 0) == FirstBeating(facesArr, last, lib, i)
    {
      i := i + 1;
    }
    if i == |facesArr| {
      i := -1;
    }
  }

  /** The checks of one prompt round, in the order the server makes them. */
  method Decide(hand: seq<Card>, master: bool, lastFaces: Option<Faces>, ans: string, lib: Library) returns (v: Verdict)
    ensures v == Judge(hand, master, lastFaces, ans, lib)
  {
    if ans == "" {
      return Invalid(ErrorsPokersFacesInvalid);
    } else if ans == "ls" || ans == "v" {
      return View;
    } else if ans == "p" || ans == "pass" {
      if master {
        return Invalid(ErrorsHaveToPlay);
      }
      return Skip;
    }
    var pick := Select(hand, ans, lib);
    if pick.None? {
      return Invalid(ErrorsPokersFacesInvalid);
    }
    var facesArr := lib.parseFaces(pick.value.sells);
    if facesArr == [] {
      return Invalid(ErrorsPokersFacesInvalid);
    }
    if !master && lastFaces.Some? {
      var i := FindBeating(facesArr, lastFaces.value, lib);
      if i < 0 {
        return Invalid(ErrorsPokersFacesInvalid);
      }
      return Accept(pick.value, facesArr[i]);
    }
    return Accept(pick.value, facesArr[0]);
  }

  /** The counter loop of an accepted play: one decrement per sold card,
      under the key the card had in hand (Go's map default makes a missing
      counter start from 0). */
  method Forget(mnemonic: map<int, int>, realKeys: seq<int>) returns (m: map<int, int>)
    ensures forall k :: k in m <==> k in mnemonic || k in realKeys
    ensures forall k :: MnemonicAt(m, k) == MnemonicAt(mnemonic, k) - Occurrences(realKeys, k)
  {
    m := mnemonic;
    var i := 0;
    while i < |realKeys|
      invariant 0 <= i <= |realKeys|
      invariant forall k :: k in m <==> k in mnemonic || k in realKeys[..i]
      invariant forall k :: MnemonicAt(m, k) == MnemonicAt(mnemonic, k) - Occurrences(realKeys[..i], k)
    {
      var key := realKeys[i];
      assert realKeys[..i + 1] == realKeys[..i] + [key];
      forall k
        ensures Occurrences(realKeys[..i + 1], k) == Occurrences(realKeys[..i], k) + (if key == k then 1 else 0)
      {
        OccurrencesAppend(realKeys[..i], key, k);
      }
      m := m[key := MnemonicAt(m, key) - 1];
      i := i + 1;
    }
    assert realKeys[..i] == realKeys;
  }

  /** An accepted play keeps card conservation: the hand shrinks by the
      sold cards and each counter drops by the sold cards of its key. */
  lemma CommitConserves(mnemonic: map<int, int>, counted: map<int, int>, ps: seq<int>, pokers: map<int, seq<Card>>,
                        aside: seq<Card>, pid: int, keys: seq<int>)
    requires Distinct(ps) && pid in ps && pid in pokers
    requires PickAll(Start(pokers[pid]), keys).Some?
    requires forall k :: MnemonicAt(counted, k) == MnemonicAt(mnemonic, k) - Occurrences(PickAll(Start(pokers[pid]), keys).value.realKeys, k)
    requires Conserves(mnemonic, ps, pokers, aside)
    ensures var q := PickAll(Start(pokers[pid]), keys).value;
      Conserves(counted, ps, pokers[pid := q.normal + q.wild], aside)
  {
    var q := PickAll(Start(pokers[pid]), keys).value;
    forall k
      ensures MnemonicAt(counted, k) == HeldCount(ps, pokers[pid := q.normal + q.wild], k) + CountKey(aside, k)
    {
      HeldCountUpdate(ps, pokers, pid, q.normal + q.wild, k);
      CountKeyAppend(q.normal, q.wild, k);
      PickAllConserves(Start(pokers[pid]), keys, k);
      StartLedger(pokers[pid], k);
    }
  }

  /** An accepted play took effect between the old and the new state: pid
      holds what is left of its hand, the counters dropped by the sold
      cards, and pid, the shape and the sold cards are the last play. */
  twostate predicate Committed(game: Game, pid: int, q: Pick, faces: Faces)
    reads game
  {
    && game.pokers == old(game.pokers)[pid := q.normal + q.wild]
    && (forall k :: k in game.mnemonic <==> k in old(game.mnemonic) || k in q.realKeys)
    && (forall k :: MnemonicAt(game.mnemonic, k) == MnemonicAt(old(game.mnemonic), k) - Occurrences(q.realKeys, k))
    && game.lastPlayer == pid && game.lastFaces == Some(faces) && game.lastPokers == q.sells
  }

  /** The commit of an accepted play. */
  method Commit(game: Game, pid: int, q: Pick, faces: Faces, ghost keys: seq<int>)
    requires game.Valid() && pid in game.players
    modifies game`pokers, game`mnemonic, game`lastPlayer, game`lastFaces, game`lastPokers
    ensures game.Valid()
    ensures Committed(game, pid, q, faces)
    ensures old(game.Conserved()) && Picked(old(game.pokers[pid]), keys, q) ==> game.Conserved()
  {
    Recount(game, pid, q, keys);
    game.lastPlayer, game.lastFaces, game.lastPokers := pid, Some(faces), q.sells;
  }

  /** q is the pick of keys from hand. */
  ghost predicate Picked(hand: seq<Card>, keys: seq<int>, q: Pick) {
    PickAll(Start(hand), keys) == Some(q)
  }

  /** The hand and the counters after an accepted play q by pid; when q is
      the pick of keys from pid's hand, the ledger is kept. */
  method Recount(game: Game, pid: int, q: Pick, ghost keys: seq<int>)
    requires game.Valid() && pid in game.players
    modifies game`pokers, game`mnemonic
    ensures game.Valid()
    ensures game.pokers == old(game.pokers)[pid := q.normal + q.wild]
    ensures forall k :: k in game.mnemonic <==> k in old(game.mnemonic) || k in q.realKeys
    ensures forall k :: MnemonicAt(game.mnemonic, k) == MnemonicAt(old(game.mnemonic), k) - Occurrences(q.realKeys, k)
    ensures old(game.Conserved()) && Picked(old(game.pokers[pid]), keys, q) ==> game.Conserved()
  {
    var counted := Forget(game.mnemonic, q.realKeys);
    ghost var aside := game.SetAside();
    if game.Conserved() && Picked(game.pokers[pid], keys, q) {
      CommitConserves(game.mnemonic, counted, game.players, game.pokers, aside, pid, keys);
    }
    game.pokers, game.mnemonic := game.pokers[pid := q.normal + q.wild], counted;
    assert game.SetAside() == aside;
  }

  /** The play token went to p: its queue got the signal s, no other
      queue changed. */
  twostate predicate Signalled(game: Game, p: int, s: Signal)
    reads game
  {
    p in old(game.states) && game.states == old(game.states)[p := old(game.states[p]) + [s]]
  }

  /** The game's hands, counters and last play are as they were. */
  twostate predicate Unplayed(game: Game)
    reads game
  {
    && game.pokers == old(game.pokers) && game.mnemonic == old(game.mnemonic)
    && game.lastPlayer == old(game.lastPlayer) && game.lastFaces == old(game.lastFaces)
    && game.lastPokers == old(game.lastPokers)
  }

  /** The game of room roomId ended: the room, when registered, is back to
      waiting without a game, and every player got the waiting signal. */
  twostate predicate Ended(reg: Registry, game: Game, roomId: int)
    reads reg, game
  {
    && (roomId in old(reg.rooms) ==> reg.rooms == old(reg.rooms)[roomId := old(reg.rooms[roomId]).(game := None, state := Waiting)])
    && (roomId !in old(reg.rooms) ==> reg.rooms == old(reg.rooms))
    && game.states.Keys == old(game.states).Keys
    && (forall p :: p in game.states ==> game.states[p] == old(game.states[p]) + [StateWaiting])
  }

  /** What the verdict v did to the game and the rooms, and the outcome o
      it reports for the token holder pid. */
  twostate predicate Applied(reg: Registry, game: Game, roomId: int, pid: int, v: Verdict, o: PlayOutcome)
    reads reg, game
  {
    match v
    case Invalid(error) => o == Rejected(error) && unchanged(game) && unchanged(reg)
    case View => o == Viewed && unchanged(game) && unchanged(reg)
    case Skip =>
      && |game.players| > 0 && o == Passed(NextPlayer(game.players, pid))
      && Unplayed(game) && unchanged(reg) && Signalled(game, o.next, StatePlay)
    case Accept(q, faces) =>
      && Committed(game, pid, q, faces)
      && if |q.normal + q.wild| == 0 then o == Won && Ended(reg, game, roomId)
         else
           && |game.players| > 0 && o == Played(NextPlayer(game.players, pid))
           && unchanged(reg) && Signalled(game, o.next, StatePlay)
  }

  /** Hands the play token to the player after pid. */
  method PassPlayToken(game: Game, pid: int) returns (next: int)
    requires game.Valid() && pid in game.players
    modifies game`states
    ensures game.Valid() && next == NextPlayer(game.players, pid)
    ensures Signalled(game, next, StatePlay)
  {
    next := NextPlayer(game.players, pid);
    game.Send(next, StatePlay);
  }

  /** The winner's room goes back to waiting and every player is told so. */
  method EndRound(reg: Registry, game: Game, roomId: int)
    requires reg.Valid() && game.Valid()
    modifies game`states, reg`rooms
    ensures reg.Valid() && game.Valid()
    ensures Ended(reg, game, roomId)
  {
    reg.EndGame(roomId);
    game.SendAll(StateWaiting);
  }

  /** An accepted play: commit it, then end the game when the hand is
      used up or hand the play token on. */
  method Finish(reg: Registry, game: Game, roomId: int, pid: int, q: Pick, faces: Faces, ghost keys: seq<int>) returns (o: PlayOutcome)
    requires reg.Valid() && game.Valid() && pid in game.players
    modifies game`pokers, game`mnemonic, game`lastPlayer, game`lastFaces, game`lastPokers, game`states, reg`rooms
    ensures reg.Valid() && game.Valid()
    ensures Applied(reg, game, roomId, pid, Accept(q, faces), o)
    ensures old(game.Conserved()) && Picked(old(game.pokers[pid]), keys, q) ==> game.Conserved()
  {
    Commit(game, pid, q, faces, keys);
    o := Conclude(reg, game, roomId, pid, |q.normal + q.wild| == 0);
  }

  /** After a commit: a winner ends the game, otherwise the play token
      goes to the next player. */
  method Conclude(reg: Registry, game: Game, roomId: int, pid: int, won: bool) returns (o: PlayOutcome)
    requires reg.Valid() && game.Valid() && pid in game.players
    modifies game`states, reg`rooms
    ensures reg.Valid() && game.Valid()
    ensures won ==> o == Won && Ended(reg, game, roomId)
    ensures !won ==> o == Played(NextPlayer(game.players, pid)) && unchanged(reg) && Signalled(game, o.next, StatePlay)
  {
    if won {
      EndRound(reg, game, roomId);
      o := Won;
    } else {
      var next := PassPlayToken(game, pid);
      o := Played(next);
    }
  }

  /** Carries out the verdict v for the token holder pid. */
  method Apply(reg: Registry, game: Game, roomId: int, pid: int, v: Verdict, ghost keys: seq<int>) returns (o: PlayOutcome)
    requires reg.Valid() && game.Valid() && pid in game.players
    modifies game`pokers, game`mnemonic, game`lastPlayer, game`lastFaces, game`lastPokers, game`states, reg`rooms
    ensures reg.Valid() && game.Valid()
    ensures Applied(reg, game, roomId, pid, v, o)
    ensures old(game.Conserved()) && (v.Accept? ==> Picked(old(game.pokers[pid]), keys, v.pick)) ==> game.Conserved()
  {
    match v
    case Invalid(error) =>
      o := Rejected(error);
    case View =>
      o := Viewed;
    case Skip =>
      var next := PassPlayToken(game, pid);
      o := Passed(next);
    case Accept(q, faces) =>
      o := Finish(reg, game, roomId, pid, q, faces, keys);
  }

  /** handlePlay, one prompt round for the token holder pid of the game
      run by room roomId: the answer (or the default for silence) is
      judged against the hand as it was and the last accepted play, and
      the verdict is carried out. An invalid answer or a request to view
      the table changes nothing (the server prompts again); a pass hands
      the play token to the next player; an accepted play is committed and
      either wins the game (the room goes back to waiting and every player
      gets the waiting signal) or hands the play token on. Whatever the
      verdict, the card ledger is kept. */
  method HandlePlay(reg: Registry, game: Game, roomId: int, pid: int, reply: Reply, lib: Library) returns (o: PlayOutcome)
    requires reg.Valid() && game.Valid() && pid in game.players
    requires reply.Silent? && IsMaster(game.lastPlayer, pid) ==> |game.pokers[pid]| > 0
    modifies game`pokers, game`mnemonic, game`lastPlayer, game`lastFaces, game`lastPokers, game`states, reg`rooms
    ensures reg.Valid() && game.Valid()
    ensures Applied(reg, game, roomId, pid,
                    Judge(old(game.pokers[pid]), IsMaster(old(game.lastPlayer), pid), old(game.lastFaces),
                          EffectiveAnswer(reply, IsMaster(old(game.lastPlayer), pid), old(game.pokers[pid]), lib), lib), o)
    ensures old(game.Conserved()) ==> game.Conserved()
  {
    var master := IsMaster(game.lastPlayer, pid);
    var ans := EffectiveAnswer(reply, master, game.pokers[pid], lib);
    var v := Decide(game.pokers[pid], master, game.lastFaces, ans, lib);
    if v.Accept? {
      AcceptedPick(game.pokers[pid], master, game.lastFaces, ans, lib);
    }
    o := Apply(reg, game, roomId, pid, v, AliasKeys(ans, lib));
  }
}
