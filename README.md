# Wildcard card-game server: rooms, seating and the "laizi" turn engine

This project models, in Dafny, the core of a multiplayer text card server
(ratel-online). Three parts of the server are modelled:

- **The registry** (`database/database.go`). It holds connected players, rooms, each
  room's member set and the room id counter. Its operations are connecting,
  creating and deleting rooms, listing rooms by id, joining and leaving, going
  offline, the periodic reaper, and broadcasting.
- **The shared data model** (`database/model.go`). It covers players, rooms and their
  whitelisted properties, and a running game. The game helpers are turn order
  (`NextPlayer`, `PrevPlayer`), grouping (`IsTeammate`, `IsLandlord`, `Team`)
  and `Player.Offline`.
- **The wildcard rule set** (`state/laizi/laizi.go`). It covers card ranking and
  straights, dealing (`InitGame`, `resetGame`), landlord bidding (`handleRob`),
  playing cards with wildcards (`handlePlay`), and the remaining-card counter
  the game view shows.

Modules, one per file:

| module | models |
|---|---|
| `Wrappers` | `Option`, `Outcome` (pass or error) and `Result` |
| `Consts` | error values, room states, game type, room property keys |
| `Text` | ASCII lower-casing and `strconv.Itoa` |
| `Poker` | stand-ins for the external card library. They give the card, the hand shape (`Faces`), and the library functions the play step calls (alias to key, key to alias, shape parsing, shape comparison) as a `Library` value. |
| `Rules` | `Value`, `IsStraight` and `StraightBoundary` (1..12) of the wildcard rule set |
| `Model` | `Player` and `Room` values, the `Game` class, turn order, teams, the card ledger |
| `Database` | the `Registry` class and its operations |
| `Bidding` | the bookkeeping of one rob-token step (`RobStep`) and of a whole bidding round (`Run`) |
| `Selection` | turning an answer's aliases into sold cards, using wildcards as stand-ins |
| `Laizi` | `InitGame`, `resetGame`, the remaining-card view, `handleRob` |
| `Play` | `handlePlay` |

Go pointers to rooms and players become map entries that the registry's
methods reassign. The game is a class whose fields the turn handlers update
in place. Each player's buffered token channel is a queue of signals in
`Game.states`. Closing the channels (`deleteGame`) sets `Game.closed`. A
room lock or a concurrent map section becomes one method call.

The card ledger is a central invariant. Every remaining-card counter
(`Mnemonic`) equals the cards of that key still in the players' hands plus
those still set aside for the landlord (`Model.Conserves`). A fresh deal
establishes it, crowning a landlord keeps it, and an accepted play keeps it.
With this ledger, the "Surplus" row of the game view is exactly the
cards the viewing player cannot see.

## Model

| member | source | states |
|---|---|---|
| Rules.Value | state/laizi/laizi.go:31-40 | every key 1..15 ranks within 1..15 |
| Rules.IsStraight | state/laizi/laizi.go:42-57 | a straight needs a positive group size, at least two ranks, and ends at rank 12 or lower |
| Rules.ValueFollowsGameOrder | state/laizi/laizi.go:31-40 | ranks number the keys in game order 3..K, A, 2, small joker, big joker as 1..15 |
| Rules.ValueInjective | state/laizi/laizi.go:31-40 | no two keys share a rank |
| Rules.StraightIsConsecutiveRun | state/laizi/laizi.go:42-57 | on increasing rank values, a straight holds exactly for a consecutive run ending at most at 12, with at least 5 singles, 3 pairs or 2 triples or larger groups, and never for count <= 0 |
| Rules.StraightWithinBoundary | state/laizi/laizi.go:42-61 | every straight starting at the lower boundary lies within StraightBoundary's 1..12 |
| Rules.IncreasingSpan | state/laizi/laizi.go:43 | in an increasing run the value span is at least the position span |
| Text.ToLower | state/laizi/laizi.go:164 | each character is lowered, and the length is kept |
| Text.Itoa | database/model.go:292 | a non-empty rendering with a leading minus exactly for negative numbers |
| Text.ItoaInjective | database/model.go:290-292 | distinct group numbers render to distinct strings |
| Poker.Normals | state/laizi/laizi.go:233-239 | the hand split keeps only non-wildcards |
| Poker.Wilds | state/laizi/laizi.go:233-239 | the hand split keeps only wildcards |
| Poker.SplitConserves | state/laizi/laizi.go:233-239 | the normal and wildcard parts together are the hand, as a multiset |
| Poker.SplitConservesCounts | state/laizi/laizi.go:233-239 | the same, counted key by key |
| Poker.SetOaa | state/laizi/laizi.go:144-147 | marking wildcards keeps the hand's length |
| Poker.SetOaaMarks | state/laizi/laizi.go:144-147 | each card stays in place and is a wildcard exactly when its key is declared |
| Poker.SetOaaKeepsCounts | state/laizi/laizi.go:144-147 | marking wildcards changes no key count |
| Model.GetProperties | database/model.go:218-232 | every property that was set is listed, whether true or false, with the value GetProperty reads; every key reading true is listed |
| Model.IndexOf | database/model.go:273 | the first position of x, or -1 exactly when x is absent |
| Model.NextPlayer | database/model.go:272-275 | the result is seated; after the last seat comes the first; an unseated id gets the first player |
| Model.NextPlayerIsSeatArithmetic | database/model.go:272-275 | the model equals the source's `players[(IndexOf(players, curr) + 1) % n]` for every input |
| Model.NextPlayerFollows | database/model.go:272-275 | with distinct players, the player after seat i is seat i + 1, or seat 0 after the last |
| Model.GroupOf | database/model.go:282-288 | a player with no recorded group is in group 0 |
| Model.PrevPlayer | database/model.go:277-280 | as written: a seated player gets itself back, an unseated one the last player |
| Model.PrevPlayerIsNotPrevious | database/model.go:277-280 | with two or more players, the as-written result differs from the intended one |
| Model.PrevPlayerIntended | database/model.go:277-280 | corrected: the result is seated and NextPlayer of it is curr |
| Model.IsTeammate | database/model.go:282-284 | every player is its own teammate |
| Model.IsLandlord | database/model.go:286-288 | only a player with a recorded group can be landlord |
| Model.Team | database/model.go:290-300 | the label is "landlord" exactly for the landlord when the skill property is off |
| Model.TeammateIsEquivalence | database/model.go:282-284 | being teammates is reflexive, symmetric and transitive |
| Model.TeamLabelsAgreeWithGroups | database/model.go:282-300 | under the skill property, labels agree exactly for teammates. Otherwise they agree exactly when both or neither is landlord, and "landlord" is the landlord's label |
| Model.HeldCountSplit | state/laizi/laizi.go:407-417 | the cards held by all seated players are one player's plus the others' |
| Model.HeldCountUpdate | state/laizi/laizi.go:300 | replacing one hand moves the held count by the difference of the two hands |
| Model.Game.constructor | database/model.go:246-270 | a game starts with stake 1, nobody recorded in the bidding or play fields, and no last play |
| Model.Game.Send | state/laizi/laizi.go:148 | a signal is appended to exactly one player's queue |
| Model.Game.SendAll | state/laizi/laizi.go:313-315 | every seated player's queue gets the signal |
| Model.Game.Close | database/database.go:72-78 | the game's queues are closed |
| Database.InsertId | database/database.go:85-87 | inserting keeps ids ascending and adds exactly the new id |
| Database.SortIds | database/database.go:80-89 | the ids come out ascending, exactly the given ones |
| Database.ListRooms | database/database.go:80-89 | the listed rooms are sorted by id and are exactly the registered ones |
| Database.RejoinBreaksMemberCount | database/database.go:150-154 | as written, a rejoining member makes the room's count one more than its members |
| Database.JoinAsWritten | database/database.go:150-154 | the source's success branch as written: the count goes up by one and the player joins the member set (its effect is stated by RejoinBreaksMemberCount) |
| Database.Registry.constructor | database/database.go:18-22 | the registry starts empty with the id counter at 0 |
| Database.Registry.Connected | database/database.go:35-46 | a (re)connecting player gets a fresh online record in no room, and nothing else changes |
| Database.Registry.CreateRoom | database/database.go:48-62 | a new waiting room of the classic type gets the next id, above every earlier one, with an empty member set |
| Database.Registry.DeleteRoom | database/database.go:64-78 | the room and its member set are unregistered, and its game's queues are closed |
| Database.Registry.GetRooms | database/database.go:80-89 | all registered rooms, sorted by ascending id |
| Database.Registry.AnyOnline | database/database.go:212-219 | true exactly when some member is online |
| Database.Registry.Deliver | database/database.go:240-245 | one message to each registered, non-excluded member |
| Database.Registry.Broadcast | database/database.go:230-246 | nothing for an unknown room; otherwise members get the ">> "-prefixed text and the room's activity time is refreshed |
| Database.Registry.BroadcastObject | database/database.go:253-269 | members get the payload and no state changes, so activity is not refreshed |
| Database.Registry.JoinRoom | database/database.go:117-160 | the checks run in the source's order: unknown player, unknown room, running room, full room, wrong password, each with its error. On success the player joins and the player's room is set. The member count follows the corrected AddMember (see Findings), so it equals the member set's size. The activity time is refreshed once the room is found |
| Database.Registry.AddMember | database/database.go:150-154 | corrected success branch: the member count is the size of the member set |
| Database.Registry.Depart | database/database.go:175-187 | a member leaves, its room id is cleared and the count drops. A leaving creator hands the room to a remaining member |
| Database.Registry.Leave | database/database.go:171-192 | leaveRoom, stated as the new state in full (Left): an unknown player changes nothing. The player's room id is cleared. A room left empty is deleted with its member set and its game closed. Otherwise the room keeps its other fields, its count is the remaining members' number, its activity time is refreshed, and a leaving creator hands it to a remaining member. No other room or player changes |
| Database.Registry.LeaveRoom | database/database.go:162-169 | an unregistered room id changes nothing; a registered one is left as Leave states, in full |
| Database.Registry.RoomCancel | database/database.go:206-224 | a room idle for over 24 hours, or with no online member, is deleted; otherwise nothing changes |
| Database.Registry.Stale | database/database.go:206-224 | a room is stale when idle for over 24 hours or without an online member (stated through RoomCancel and Sweep) |
| Database.Registry.Offline | database/database.go:194-204 | an unknown room changes nothing. Otherwise a waiting room loses the player as Leave states. The room then survives exactly when it is neither idle for over 24 hours nor without an online member. A surviving room keeps its fields except count, activity time and a handed-over creator; a reaped one is removed with its member set and its game closed. No other room, member set or player changes, and nobody's online flag changes |
| Database.Registry.PlayerOffline | database/model.go:42-56 | the player's record becomes offline (and leaves a waiting room, clearing its room id); no other player changes. The room survives exactly when another member is online, with its count, activity time and creator updated as Offline states; otherwise it is removed with its member set and its game closed. No other room changes |
| Database.Registry.SetProperty | database/model.go:211-216 | only a whitelisted key is stored. GetProperty then reads the new value, and GetProperties lists the key with that value whether it is true or false. Any other key leaves the room as it was |
| Database.Registry.GetRoom | database/database.go:91-100 | a room exactly for a registered id, with its own id and a count equal to its members |
| Database.Registry.GetPlayer | database/database.go:102-107 | a player exactly for a known id, with its own id |
| Database.Registry.EndGame | state/laizi/laizi.go:306-312 | a registered room drops its game and waits; an unregistered id changes nothing |
| Database.Registry.Sweep | database/database.go:24-33 | the reaper removes exactly the stale rooms and leaves the others as they were |
| Bidding.Answer | state/laizi/laizi.go:155-173 | the first holder opens the round. A bid records the first and last bidder and doubles the stake; a refusal changes nothing else |
| Bidding.RobStep | state/laizi/laizi.go:120-182 | when the opener is reached again, the step never asks without the final-question flag |
| Bidding.RobStepOutcomes | state/laizi/laizi.go:120-182 | restart exactly when the opener finds no bid. A crown exactly when one bidder stands, naming that bidder. Otherwise the token is handed on, with the final question going to the first bidder |
| Bidding.RobStepStaysSeated | state/laizi/laizi.go:120-182 | from sane bookkeeping, a step names only seated players |
| Bidding.NextAhead | database/model.go:272-275 | turn order walks the ring one seat at a time |
| Bidding.AnswerPassesOn | state/laizi/laizi.go:155-180 | an answer that does not resolve the round records the answer and passes the token to the next player |
| Bidding.RefusalStep | state/laizi/laizi.go:171-180 | a refusal before the opener is reached again only moves the token one seat |
| Bidding.RefusalsPassOn | state/laizi/laizi.go:171-180 | a run of refusals moves the token seat by seat |
| Bidding.AllRefuseRestarts | state/laizi/laizi.go:120-131 | a round in which every player refuses ends in a restart |
| Bidding.RoundEndsWithCrown | state/laizi/laizi.go:132-148 | with a single bid on record, refusals to the end of the round crown that bidder |
| Bidding.SoleBidderBecomesLandlord | state/laizi/laizi.go:120-182 | a round with exactly one bid makes that bidder landlord, with the stake doubled |
| Bidding.LaterBidderBecomesLandlord | state/laizi/laizi.go:120-182 | the same when the bidder is not the opener |
| Bidding.FinalQuestionDecides | state/laizi/laizi.go:149-177 | with two or more bidders, the first bidder's final answer decides: a yes keeps it, a no gives the crown to the last bidder |
| Bidding.Run | state/laizi/laizi.go:120-182 | a whole bidding round from a holder over the answers given (its properties are the Bidding lemmas above) |
| Bidding.RunStaysSeated | state/laizi/laizi.go:120-182 | a whole bidding run names only seated players |
| Selection.LastOfKey | state/laizi/laizi.go:261-262 | the last card of the key, or -1 exactly when there is none |
| Selection.Start | state/laizi/laizi.go:230-239 | nothing is sold yet, and the normal cards and wildcards together are as many as the hand's cards (as a multiset they are the hand, by Poker.SplitConserves) |
| Selection.Take | state/laizi/laizi.go:242-263 | one alias: an unknown alias is refused. A normal card of the key is sold if there is one. Otherwise, unless the key is a joker or no wildcard is left, the first wildcard is relabelled and sold, recording its real key |
| Selection.TakeConserves | state/laizi/laizi.go:248-263 | a taken card moves from the hand to the sold cards; no key's ledger changes |
| Selection.TakeKeepsCards | state/laizi/laizi.go:248-263 | the hand left after taking one card is a sub-multiset of the hand before |
| Selection.TakeWildConserves | state/laizi/laizi.go:253-258 | the same when a wildcard stands in |
| Selection.PickAll | state/laizi/laizi.go:240-264 | the alias loop: each key is taken in turn, and the first key that cannot be taken refuses the play. Its meaning is stated by the PickAll lemmas below |
| Selection.PickAllExtends | state/laizi/laizi.go:242-264 | a successful pick extends the sold cards by one per alias |
| Selection.PickAllLabels | state/laizi/laizi.go:242-264 | each sold card shows the key asked for, in order |
| Selection.UnknownAliasRejects | state/laizi/laizi.go:243-247 | an unknown alias anywhere rejects the play |
| Selection.NormalsSuffice | state/laizi/laizi.go:248-262 | enough normal cards means the pick succeeds without touching the wildcards |
| Selection.PickAllConserves | state/laizi/laizi.go:242-264 | a successful pick loses and invents no card: key by key, and as a multiset the cards left in the hand are among the hand's cards |
| Selection.PickAllShrinks | state/laizi/laizi.go:294-298 | the hand shrinks by exactly one card per alias |
| Selection.StartLedger | state/laizi/laizi.go:233-239 | before any pick, the ledger is the hand |
| Selection.AliasKeys | state/laizi/laizi.go:242-243 | one key per alias character |
| Selection.Select | state/laizi/laizi.go:230-264 | the split and alias loops compute PickAll from the fresh split |
| Laizi.NewMnemonic | state/laizi/laizi.go:338-344 | counters for exactly keys 1..15: 4 × sets for 1..13 and sets for each joker |
| Laizi.DealConserves | state/laizi/laizi.go:345-357 | dealing one deck to the seats, with the last stack set aside, establishes the ledger |
| Laizi.HeldCountOfDeal | state/laizi/laizi.go:345-349 | seats holding the first stacks hold those stacks' cards |
| Laizi.Seat | state/laizi/laizi.go:345-349 | each seat gets an empty queue, group 0 and its stack |
| Laizi.InitGame | state/laizi/laizi.go:325-362 | a deal not of n + 1 stacks fails with ErrorsGamePlayersInvalid. Otherwise a fresh game holds the room's members in the given order, with the hands dealt and the last stack set aside, one wildcard key and stake 1. Exactly the chosen player holds the rob token, and the ledger holds |
| Laizi.Redeal | state/laizi/laizi.go:369-372 | seat i gets stack i and no other hand changes |
| Laizi.DealHands | state/laizi/laizi.go:365-379 | fresh hands and counters for a full deck |
| Laizi.ClearBidding | state/laizi/laizi.go:380-387 | no groups, nobody recorded, stake 1, one new wildcard key |
| Laizi.ResetGameAsWritten | state/laizi/laizi.go:364-390 | resetGame as written: fresh hands and counters, but the old set-aside stack is kept |
| Laizi.StaleStackBreaksLedger | state/laizi/laizi.go:364-390 | against a fresh deal's counters, the kept stack keeps the ledger only if it has the fresh stack's key counts |
| Laizi.ResetGame | state/laizi/laizi.go:364-390 | corrected resetGame: as written, and the fresh deal's last stack is set aside, so the ledger holds |
| Laizi.SurplusIsUnseenCards | state/laizi/laizi.go:407-417 | the surplus a player sees is the cards in the other hands plus the set-aside stack, and is never negative |
| Laizi.Surplus | state/laizi/laizi.go:407-421 | the counter of a key less the viewer's own cards of it (its meaning is stated by SurplusIsUnseenCards) |
| Laizi.MarkWildcards | state/laizi/laizi.go:144-147 | every hand is re-marked with the declared wildcard keys |
| Laizi.CrownedHands | state/laizi/laizi.go:142-147 | crowning keeps every hand's cards in order and appends the stack to the landlord's, re-marked |
| Laizi.CrownConserves | state/laizi/laizi.go:142-147 | crowning keeps the ledger with nothing set aside |
| Laizi.CrownHands | state/laizi/laizi.go:142-147 | the landlord takes the stack and a second wildcard key is declared |
| Laizi.CrownLandlord | state/laizi/laizi.go:132-148 | the landlord opens play in group 1, takes the stack and gets the play token |
| Laizi.OpenPlay | state/laizi/laizi.go:139-141 | the landlord is first and last player and joins group 1 |
| Laizi.RestartRound | state/laizi/laizi.go:122-131 | no bid: a fresh deal through the corrected resetGame (see Findings), so the ledger holds, and every player is told to reset; a bad deal fails and changes nothing |
| Laizi.PassRobToken | state/laizi/laizi.go:149-151 | the new bookkeeping is recorded and the rob token goes to the named player |
| Laizi.RecordBids | state/laizi/laizi.go:165-176 | the game's bidding fields become the given bookkeeping |
| Laizi.Accepts | state/laizi/laizi.go:160-164 | a reply is a bid exactly when it is "y" or "Y"; silence counts as no |
| Laizi.HandleRob | state/laizi/laizi.go:120-182 | handleRob does what RobStep decides on the reply: restart with a fresh deal, crown the landlord, or hand the token on. The restart uses the corrected resetGame (Laizi.ResetGame, see Findings) |
| Laizi.RobStepStaysOpen | state/laizi/laizi.go:120-182 | a step names only seated players |
| Play.EffectiveAnswer | state/laizi/laizi.go:202-212 | a typed answer is lower-cased. On a timeout the master plays its first card's alias and anyone else passes |
| Play.IsMaster | state/laizi/laizi.go:186 | the token holder must play when it made the last accepted play or nobody has played yet |
| Play.FirstBeating | state/laizi/laizi.go:275-287 | the first parsed shape that beats the last play, or -1 exactly when none does |
| Play.Judge | state/laizi/laizi.go:213-290 | the verdict is View exactly for "ls" and "v", and Skip exactly for a non-master's "p" or "pass" |
| Play.MasterCannotPass | state/laizi/laizi.go:219-222 | the master's pass is refused with ErrorsHaveToPlay and is never a skip |
| Play.SilenceIsPass | state/laizi/laizi.go:203-208 | a silent non-master passes |
| Play.UnknownAliasIsInvalid | state/laizi/laizi.go:242-247 | an unknown alias is refused with ErrorsPokersFacesInvalid |
| Play.AcceptedPick | state/laizi/laizi.go:230-264 | an accepted verdict's pick is the pick of the answer's keys from the hand |
| Play.AcceptedPlay | state/laizi/laizi.go:230-290 | an accepted play sells one card per alias showing the key asked for and loses no card. The hand left is a sub-multiset of the hand and is smaller by exactly the number of aliases. Its shape is one of the parsed ones and beats the last play unless the player is master |
| Play.WinIffHandUsedUp | state/laizi/laizi.go:294-304 | the hand left is empty exactly when the play used every card |
| Play.FindBeating | state/laizi/laizi.go:275-287 | the shape loop finds the first beating shape |
| Play.Decide | state/laizi/laizi.go:213-290 | the checks of one prompt round, in order, give the verdict Judge defines |
| Play.Forget | state/laizi/laizi.go:291-293 | each counter drops by the number of sold cards whose real key it is |
| Play.Recount | state/laizi/laizi.go:291-300 | the hand becomes the pick's remainder, each counter drops by the sold cards' real keys, and the ledger is kept |
| Play.CommitConserves | state/laizi/laizi.go:291-300 | an accepted play keeps the ledger |
| Play.Commit | state/laizi/laizi.go:291-303 | the hand, counters and last play are updated as committed, and a pick made from the hand keeps the ledger |
| Play.PassPlayToken | state/laizi/laizi.go:318-320 | the play token goes to the next player |
| Play.EndRound | state/laizi/laizi.go:305-316 | the room goes back to waiting without a game, and every player gets the waiting signal |
| Play.Conclude | state/laizi/laizi.go:304-321 | a win ends the game; otherwise the registry is unchanged and the next player gets the play token |
| Play.Finish | state/laizi/laizi.go:291-321 | an accepted play is committed, keeping the ledger. An emptied hand wins and ends the game; otherwise the next player gets the token |
| Play.Apply | state/laizi/laizi.go:213-321 | a refused or view answer changes nothing. A pass hands the token on. An accepted play commits and wins or hands on. Whichever happens, the ledger is kept |
| Play.HandlePlay | state/laizi/laizi.go:184-323 | one prompt round of handlePlay does what its verdict on the effective answer says, and keeps the card ledger |

## Left out

- Network I/O, text rendering and messages are not modelled. This covers prompts, broadcasts' wording, the game view except its Surplus row, the JSON encoding and the log.
- Broadcasts are modelled as the map of messages they deliver.
- The turn steps' own broadcasts (`service.broadcast` in laizi.go:128, 138, 158, 170, 172, 225, 305 and 319) are messages only. The model does not refresh the room's activity time for them. If `service.broadcast` reaches the registry's Broadcast (database/database.go:230-246), the source refreshes it on every turn step. A stale-room check in the model can then see an older activity time than the source would. Laizi.HandleRob takes no registry. Play.HandlePlay changes the registry only when a win ends the game. Only Database.Registry.Broadcast refreshes `activeTime`.
- The service package (`service.GetPlayer`, `service.broadcast`, `GetRoomPlayers`) is not part of this model. Its lookups map to the Database registry. Its broadcasts from the turn steps are messages only, as stated above.
- Locks, goroutines and channel blocking are not modelled. A room lock is one method call, and a token channel is an unbounded queue.
- The clock is a `now` parameter, and a day is 86400 time units.
- `rand.Intn` and `poker.Random` become parameters. `poker.Distribute` is the `deal` and `sets` parameters. The rule set's `Reserved` flag (always true, laizi.go:63-65) only tells Distribute to deal the extra stack, which InitGame's stack-count check takes as given.
- The external card library (alias and key tables, `ParseFaces`, `Compare`, card descriptions) is a `Library` value with no further properties.
- Hand ordering (`SortByOaaValue`) and Go's random map iteration order are left out. Hands keep the order the model builds them in. So the card a master plays on timeout is the model's first card, not the sorted first card.
- The slice aliasing of the wildcard relabelling (`universalPokers[0].Key = key`) is not modelled. The sold card is a relabelled copy, and its real key is recorded. The card library's `Pokers` element type is not part of this model. If its elements are pointers, the relabelling writes through to the card in the player's hand.
- Play.HandlePlay: when an answer made a wildcard stand in for a key and the play is then refused (no shape parsed, or no shape beats the last play, laizi.go:265-286), the source's hand can keep that wildcard relabelled as the requested key. This happens if the library's cards are shared by pointer. The model leaves the game unchanged on a refused play. Its `Invalid` clause and its ledger clause `old(game.Conserved()) ==> game.Conserved()` hold only because the relabelling is not modelled. With write-through, the counters (and so the Surplus view and later `realSellKeys`) would no longer match the hands.
- Play.Apply: the same for its `Invalid` case and its ledger clause.
- Text.ToLower lowers ASCII letters only, whereas `strings.ToLower` also folds other Unicode letters.
- Play.HandlePlay models one prompt round. The re-prompt loop after a refused or view answer is the caller calling again, and the shrinking timeout is not modelled.
- Play.HandlePlay requires a non-empty hand for a silent master, because the source would index an empty hand and panic.
- Laizi.InitGame requires a valid rob-token index whenever the deal has one stack per member plus one. For a room without members and a one-stack deal, `rand.Intn(0)` would panic, so that input is excluded.
- Laizi.HandleRob states the ledger through Laizi.CrownConserves and Laizi.RestartRound rather than in its own ensures for the crown branch.
- Laizi.HandleRob: its restart branch uses the corrected resetGame (Laizi.ResetGame) instead of the as-written one. The as-written version keeps the stale set-aside stack and is Laizi.ResetGameAsWritten (see Findings).
- Laizi.RestartRound: uses the corrected resetGame for the same reason. The as-written one is stated by Laizi.StaleStackBreaksLedger.
- Database.Registry.JoinRoom: its success branch uses the corrected member count (Database.Registry.AddMember) instead of the as-written `room.Players++`, which is Database.JoinAsWritten (see Findings).
- Game.states is only appended to, by Send and SendAll. Taking a signal off a queue happens in the `Next` state loop, which is not modelled. The `Next` state loop, the `stateReset` handler and the `Exit` hook of the rule set are not modelled. They only dispatch signals to handleRob and handlePlay.
- Score, skills, play times, discards, robots and the other rule sets' game fields are not modelled.
- Player connection handling (`Listening`, `AskForString` internals) is not modelled. A prompt's result is the `Reply` value.
- A room's `MaxPlayer` of 0 is documented as unlimited, but `JoinRoom` rejects every join when it is 0. The code is followed.
- `Player.Offline` closes the connection and packet channel. Only its online flag and room effects are modelled.
- Room.GetProperty has no contract of its own. Its meaning is stated through Model.GetProperties and Database.Registry.SetProperty.

## Findings

| source | as written | input that shows it | evidently intended | confidence | as-written member | corrected member |
|---|---|---|---|---|---|---|
| database/database.go:150-154 | `room.Players++` even when the player is already in the member set | a member who went offline in a running room (membership kept), then joins the same room again after the game ends: the set stays the same size, the count grows by one | the count tracks the member set's size | not executed | Database.RejoinBreaksMemberCount | Database.Registry.AddMember |
| database/model.go:277-280 | `(idx+len)%len` is `idx` itself, so `PrevPlayer` returns its argument | players [1, 2, 3], curr 2 returns 2 | the seat before curr: 1 | not executed | Model.PrevPlayerIsNotPrevious | Model.PrevPlayerIntended |
| state/laizi/laizi.go:364-390 | resetGame re-deals the hands and resets the counters but keeps the old `Additional` stack | a restart after nobody bids, where the fresh deal's last stack has other keys than the old one: the landlord later takes the stale stack, and the counters no longer match the cards in play | the fresh deal's last stack becomes the set-aside stack | not executed | Laizi.StaleStackBreaksLedger | Laizi.ResetGame |
