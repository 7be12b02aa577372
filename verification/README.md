# ft_transcendence match bookkeeping and tournament bracket, in Dafny

This project models the sequential core of the ft_transcendence Pong site:

- the paddle movement rule of the backend `GameService`;
- the per-match record `MatchService`;
- the two matchmaking registries, `MatchesManagerService` and the older `MatchesService`;
- the admission decision and socket handlers of the `/match` WebSocket route, which is wired to the older registry;
- the local tournament page, which exists as a DOM page and as a React component with identical handlers;
- the four-name player form of the tournament page.

Each handler of the source runs to completion on Node's event loop, so each
operation is one pure state transition. Sends and socket closes are values
(`Protocol.Frame`) appended to an outbox, in the order the source performs them.

A JavaScript `Map` iterates in insertion order, so a registry is a sequence
of `(key, value)` entries (`OrderedMap`). `randomUUID()` becomes a parameter
that must not already be a key. A `Date` stamp becomes a boolean `started` in
`MatchService`; in the older registry, which stamps every match on creation,
it becomes a count of `initMatch` stamps. JavaScript `trim` is modelled with
the whitespace set of ECMA-262 (`Text`). Truthiness is written out where the
source relies on it: `!playerName` is "absent or empty", and `matchup.winner`
is "present and non-empty".

Modules and files:

| module | file | models |
|---|---|---|
| `Maybe` | maybe.dfy | `Option` |
| `Sequences` | sequences.dfy | subsequences, distinctness, `new Set(s)`, `filter` |
| `Text` | text.dfy | `String.prototype.trim` |
| `Protocol` | protocol.dfy | players, JSON messages, frames, close codes 1008/1011 |
| `OrderedMap` | ordered_map.dfy | `Map.get`, `set`, `delete`, first-match iteration |
| `Game` | game.dfy | `GameService` |
| `MatchService` | match_service.dfy | `MatchService` |
| `MatchesManager` | matches_manager.dfy | `MatchesManagerService` |
| `Matches` | matches.dfy | `MatchesService` |
| `Gateway` | gateway.dfy | `ws/match.ts` |
| `PlayersSelection` | players_selection.dfy | `PlayersSelection.ts` and `.tsx` |
| `Tournament` | tournament.dfy | `pages/Tournament.ts` and `Tournament.tsx` |

The model follows the code where it behaves in ways a reader might not expect:

- A paddle moves after `endGame`; `updatePaddle` never reads `isEnded`.
- `endMatch` has no guard; a second call broadcasts again and overwrites the winner.
- The older registry lets a newcomer join an ended match that has one player left.
- A whitespace-only player name passes the presence check, because the check runs before `trim`. It is admitted under the empty name.
- The `Joined` frame carries the untrimmed query name, while the connection is registered under the trimmed one.
- The `!matchId` test refuses an empty match id with 1011 only after the player has joined that match, so the player stays in the registry.

`MatchesManagerService` calls `match.getIsStarted()` and `match.initMatch(isSinglePlayer)`.
`MatchService` defines neither the method nor the parameter. The model reads
them as "has been initialised" (`init != null`) and the argument-less `initMatch()`.

## Model

| member | source | states |
|---|---|---|
| Game.NewGame | backend/src/services/GameService.ts:42-49 | both paddles vertically centred (y = 200), left at x = 0, right flush with the right wall (x = 990), ball at the field centre with zero velocity, score 0–0, not ended |
| Game.UpdatePaddle | backend/src/services/GameService.ts:51-63 | the moved paddle ends in [0, 400] from any prior y; an unclamped step is exactly −20 for up and +20 for down; below 0 it lands on 0 and past 400 on 400; its x, the other paddle, the ball, the score and the end flag are unchanged |
| Game.EndGame | backend/src/services/GameService.ts:65-67 | sets the end flag and touches nothing else |
| Game.EndGameIdempotent | backend/src/services/GameService.ts:65-67 | ending twice is ending once |
| Game.EndGameCommutesWithMove | backend/src/services/GameService.ts:51-67 | moves are not gated by the end flag: ending then moving equals moving then ending |
| Game.UpDownRoundTrip | backend/src/services/GameService.ts:53-61 | an unclamped up step is undone by a down step, and vice versa |
| Game.RunKeepsInvariant | backend/src/services/GameService.ts:51-63 | any sequence of moves keeps both paddles on the 20-step grid within [0, 400], keeps their x and leaves ball, score and end flag alone |
| Game.ReachablePaddlesOnGrid | backend/src/services/GameService.ts:42-63 | from the constructor, every reachable paddle y is a multiple of 20 in [0, 400] |
| MatchService.NewMatch | backend/src/services/MatchService.ts:11-19 | a new match has its id, no players, no init mark and no winner |
| MatchService.AddPlayer | backend/src/services/MatchService.ts:21-23 | the player goes last; the existing players keep their order; nothing else changes |
| MatchService.WithoutName | backend/src/services/MatchService.ts:44 | the filter keeps exactly the players with another name, and drops as many players as have that name |
| MatchService.RemovePlayer | backend/src/services/MatchService.ts:41-46 | returns true iff some player has the name; false leaves the match as it was; true removes every player with that name, exactly as many as carry it, and keeps all others |
| MatchService.RemovePlayerKeepsOrder | backend/src/services/MatchService.ts:44 | the kept players stay in their relative order |
| MatchService.AddRemoveRoundTrip | backend/src/services/MatchService.ts:21-46 | adding a player with a fresh name and removing that name gives back the original match, with true |
| MatchService.InitMatch | backend/src/services/MatchService.ts:48-51 | marks the match started and leaves id, players and winner unchanged |
| MatchService.EndMatch | backend/src/services/MatchService.ts:53-61 | one winner frame per current player, in list order, and the winner is recorded; players and init mark unchanged |
| MatchService.EndMatchTwice | backend/src/services/MatchService.ts:53-61 | a second end broadcasts again to every player and overwrites the winner |
| OrderedMap.Set | backend/src/services/MatchesManagerService.ts:33-36 | `Map.set`: the key now maps to the value and all other lookups are unchanged; a new key is appended, an existing key is replaced in place; unique keys stay unique |
| OrderedMap.Get | backend/src/services/MatchesManagerService.ts:39 | `Map.get`: found exactly when some entry has the key, and then the value is that entry's |
| OrderedMap.SetTwice | backend/src/services/MatchesManagerService.ts:33-44 | setting a key twice equals setting it once to the second value |
| OrderedMap.SetKeys | backend/src/services/MatchesManagerService.ts:33-36 | `Map.set` keeps the iteration order of the keys, and appends a key that was absent at the end |
| OrderedMap.Delete | backend/src/services/MatchesManagerService.ts:77 | `Map.delete`: the key is gone and every other lookup is unchanged |
| OrderedMap.DeleteShape | backend/src/services/MatchesService.ts:95 | the remaining entries keep their order; keys stay unique; exactly one entry goes when the key is present; an absent key changes nothing |
| OrderedMap.DeleteAfterSet | backend/src/services/MatchesService.ts:90-95 | setting a key and then deleting it leaves the same table as deleting it straight away |
| OrderedMap.FirstWhere | backend/src/services/MatchesManagerService.ts:25-30 | the first entry in insertion order whose value satisfies the test, or none when no entry does |
| MatchesManager.AddPlayer | backend/src/services/MatchesManagerService.ts:8-52 | a single-player request appends a new started match holding only that player and returns its id; a duel request appends the player (under the chosen id) to the chosen match, starts it exactly when it then has two players, keeps its match id and winner (a new match has the fresh id and no winner), and changes no other match; the keys keep their insertion order, with a new match's id appended last |
| MatchesManager.DuelJoinsFirstOpen | backend/src/services/MatchesManagerService.ts:25-36 | a duel request joins the first unstarted match in insertion order; with none, a new match is appended under the fresh id |
| MatchesManager.GetMatch | backend/src/services/MatchesManagerService.ts:54-56 | found exactly when some entry has that id, and then it is that entry's match |
| MatchesManager.RemovePlayer | backend/src/services/MatchesManagerService.ts:62-84 | false and no change for an unknown match or name; otherwise true, and the match is deleted if it had only that name, or keeps its id, loses exactly the players with that name, is ended with its first remaining player as winner and broadcast to the remaining players; other matches unchanged; a deletion drops just that entry and keeps the others in order, otherwise the key order is unchanged |
| MatchesManager.EmptyValid | backend/src/services/MatchesManagerService.ts:6 | the empty map the service starts with meets the registry invariant |
| MatchesManager.AddPlayerKeepsValid | backend/src/services/MatchesManagerService.ts:16-51 | the registry invariant (unique keys; each match has 1 or 2 players filed under its own id; an unstarted match has exactly one) survives every join |
| MatchesManager.RemovePlayerKeepsValid | backend/src/services/MatchesManagerService.ts:62-84 | the same invariant survives every removal |
| MatchesManager.DuelOpensNewMatch | backend/src/services/MatchesManagerService.ts:33-49 | with no open match, a duel request appends a new unstarted match holding just that player |
| MatchesManager.DuelPairing | backend/src/services/MatchesManagerService.ts:25-49 | two successive duel requests with no open match share one match, the first joiner at index 0, started when the second arrives |
| MatchesManager.JoinSoleOpen | backend/src/services/MatchesManagerService.ts:25-49 | when the open one-player match is the last entry and every earlier match has started, a duel request joins it and starts it |
| MatchesManager.SinglePlayerIsolation | backend/src/services/MatchesManagerService.ts:16-22 | two single-player requests get different matches; the second leaves the first's match untouched |
| Matches.InitMatch | backend/src/services/MatchesService.ts:55-64 | re-stamps the match under the id; an unknown id changes nothing; other matches and the key order unchanged |
| Matches.AddPlayer | backend/src/services/MatchesService.ts:19-53 | the player is appended under the returned id; a new match is created only under the fresh id; a reused match had room and keeps its winner; the stamp count rises exactly when the match reaches two players; other matches unchanged; the keys keep their insertion order, with a new match's id appended last |
| Matches.JoinsFirstWithRoom | backend/src/services/MatchesService.ts:23-37 | a join goes to the first match in insertion order with fewer than two players; with none, a new match is appended |
| Matches.JoinReusesEndedMatch | backend/src/services/MatchesService.ts:23-50 | in a registry holding only a match whose opponent left (one player, winner set), the next newcomer joins that match and it keeps its old winner |
| Matches.IndexOfName | backend/src/services/MatchesService.ts:82-85 | `findIndex`: the first position holding the name, or none exactly when no player has it |
| Matches.EndMatch | backend/src/services/MatchesService.ts:104-118 | one winner frame per player of the match, in order, and the winner is recorded; an unknown id does nothing; the key order is unchanged |
| Matches.RemovePlayer | backend/src/services/MatchesService.ts:74-102 | false and no change for an unknown match or name; otherwise true, only the first player with that name is removed, and the match is deleted if empty or ended with the first remaining player as winner and broadcast; a deletion drops just that entry and keeps the others in order, otherwise the key order is unchanged |
| Matches.RemovePlayerSplices | backend/src/services/MatchesService.ts:80-102 | for a present name, the first holder of the name is spliced out of the stored list: an emptied match is deleted with nothing sent; otherwise the match stays in place with its stamp count, the rest in order, the first of them as winner, and each of them gets the winner frame |
| Matches.AddPlayerKeepsValid | backend/src/services/MatchesService.ts:23-50 | the invariant (unique keys; every match holds 1 or 2 players filed under its id) survives every join |
| Matches.RemovePlayerKeepsValid | backend/src/services/MatchesService.ts:74-102 | the same invariant survives every removal |
| Gateway.Connect | backend/src/ws/match.ts:14-33 | an absent or empty name closes with 1008 "Player name is required" and changes nothing; a trimmed name already connected closes with 1008 "Player already connected" and changes nothing; otherwise the player joins exactly the match the registry's join picks, and unless that id is empty (refused with 1011 after the join) the trimmed name is registered and the first frame carries the match id and the untrimmed name |
| Gateway.BlankNameAdmittedAsEmpty | backend/src/ws/match.ts:16-33 | a non-empty name made only of whitespace is admitted under the empty name, whenever the join yields a non-empty match id |
| Gateway.OnMessage | backend/src/ws/match.ts:35-37 | an inbound message changes nothing and sends nothing |
| Gateway.OnClose | backend/src/ws/match.ts:39-42 | the registry becomes the one the older registry's removal gives; for a present name the first holder is spliced out: an emptied match is deleted with nothing sent, otherwise it stays in place with its stamp count and the key order, the remaining players in order, the first of them as winner, each sent a winner frame; other matches stay; the name leaves `connections`; an unknown match or name changes only `connections` |
| Gateway.OnError | backend/src/ws/match.ts:44-49 | the same as close, followed by a 1011 "Socket error" close of the socket |
| Gateway.HandlersKeepRegistryValid | backend/src/ws/match.ts:25-47 | admission, close and error keep the older registry's invariant |
| Text.Trim | frontend/src/components/tournament/PlayersSelection.ts:42-49 | `trim`: the input is a whitespace-only prefix, then the result, then a whitespace-only suffix |
| Text.TrimEnds | frontend/src/components/tournament/PlayersSelection.ts:42-49 | a non-empty trimmed string neither starts nor ends with whitespace |
| Text.TrimEmptyIffBlank | frontend/src/components/tournament/PlayersSelection.ts:42 | a string trims to "" exactly when it is all whitespace |
| Text.TrimIdempotent | frontend/src/components/tournament/PlayersSelection.ts:49 | trimming a trimmed name changes nothing |
| Sequences.ElementsSizeIffDistinct | frontend/src/components/tournament/PlayersSelection.ts:50-52 | `new Set(s).size === s.length` exactly when `s` has no duplicates |
| Sequences.Filter | frontend/src/components/tournament/PlayersSelection.ts:42 | `filter` keeps only accepted elements drawn from the input, keeps every accepted element of the input, and keeps everything exactly when everything is accepted |
| PlayersSelection.SetPlayer | frontend/src/components/tournament/PlayersSelection.tsx:12-16 | input i takes the new value; the other inputs and the length are unchanged |
| PlayersSelection.NonBlank | frontend/src/components/tournament/PlayersSelection.ts:42 | keeps only non-blank entries; keeps all of them exactly when none is blank |
| PlayersSelection.Validate | frontend/src/components/tournament/PlayersSelection.ts:41-58 | whatever is accepted is four distinct names, each non-empty and already trimmed |
| PlayersSelection.ValidateFourInputs | frontend/src/components/tournament/PlayersSelection.tsx:18-36 | on the four-input form: rejected as incomplete iff some entry is blank; accepted iff all are filled in and pairwise different after trimming; the accepted names are the trimmed inputs in input order |
| PlayersSelection.InitialRejected | frontend/src/components/tournament/PlayersSelection.tsx:10-24 | pressing Start on the untouched form is rejected as incomplete |
| PlayersSelection.PaddedDuplicateRejected | frontend/src/components/tournament/PlayersSelection.ts:49-55 | "Bob" next to " Bob" on a filled-in form is rejected as a duplicate |
| PlayersSelection.BlankCheckFirst | frontend/src/components/tournament/PlayersSelection.ts:44-55 | two blank entries are reported as incomplete, not as a duplicate |
| PlayersSelection.EditsKeepFourInputs | frontend/src/components/tournament/PlayersSelection.ts:20-31 | any sequence of per-index edits keeps the form at four inputs |
| Tournament.StartTournament | frontend/src/pages/Tournament.ts:68-85 | the matchups are exactly match-1 between the first two names and match-2 between the last two, each name in its slot, on the matchups step |
| Tournament.StartMatch | frontend/src/components/tournament/Tournament.tsx:54-57 | the chosen matchup becomes current on the game step; the matchups stay |
| Tournament.MatchWinner | frontend/src/pages/Tournament.ts:93-116 | no current matchup: no change; otherwise the current id's matchup gains the winner, the current matchup is cleared, the step returns to matchups, and the final between the first two winners is appended exactly when every matchup is decided |
| Tournament.HandleWinner | frontend/src/components/tournament/Tournament.tsx:84-87 | the result step with the given champion; matchups stay |
| Tournament.SelectWinner | frontend/src/pages/Tournament.ts:50-55 | a pick in the final ends the tournament with that champion and leaves the matchups; any other pick records the winner on the current id's matchups, clears the current matchup and returns to the matchups step, and appends exactly one matchup, the final between the winners of the first two, exactly when every matchup is then decided |
| Tournament.Act | frontend/src/pages/Tournament.ts:45-63 | every action the page offers keeps the page in a well-formed state: two named semifinals, winners drawn from their players, and a final exactly when both semifinals are decided |
| Tournament.PickKeepsWellFormed | frontend/src/pages/Tournament.ts:93-116 | clicking a player of the current game keeps the page well formed and never reaches the case where `handleMatchWinner` would read a missing second matchup |
| Tournament.Run | frontend/src/components/tournament/Tournament.tsx:95-104 | every session of offered actions from a well-formed state stays well formed |
| Tournament.ChampionWonEveryRound | frontend/src/pages/Tournament.ts:105-122 | on the result step, each semifinal winner is one of its players, the final pits the two semifinal winners, and the champion is a finalist |
| Tournament.SemifinalWon | frontend/src/components/tournament/Tournament.tsx:59-69 | playing a semifinal while the other is undecided records its winner and changes nothing else |
| Tournament.LastSemifinalWon | frontend/src/components/tournament/Tournament.tsx:59-81 | deciding the second semifinal appends the final between the two winners |
| Tournament.FinalWon | frontend/src/components/tournament/Tournament.tsx:84-100 | playing the final routes its winner to the result step |
| Tournament.PlayThrough | frontend/src/pages/Tournament.ts:45-122 | an accepted form followed by the two semifinals and the final ends with the final's winner as champion, the two decided semifinals and the final, whose winner stays unrecorded in the matchups |

## Left out

- Ball physics, collisions, scoring, an AI opponent and a tick loop do not exist in `GameService.ts`. Its `BALL_SPEED` constant is declared and never read, so the model has no counterpart for it.
- WebSocket I/O, JSON encoding, Fastify wiring (`server.ts`) and `console` logging are left out. Sends and closes are outbox frames.
- `randomUUID()` is a parameter that must not be a key yet; `new Date()` is a boolean (`MatchService`) or a stamp count (`MatchesService`).
- Getters that hand out live references (`getInit`, `getWinner`, `getPlayers`, `getAllMatches`, `MatchesService.getMatch`, `getGameState`) are not separate operations. `getPlayersLength` is `|players|`, used directly where the registries test it. Aliasing through those references is not modelled.
- DOM and React rendering, titles, the matchup cards, the game buttons, the winner screen, confetti, `lib/utils.ts` and the terminal client are left out. Their only effect on the bracket (Start Match on undecided matchups only, the two player buttons) is the `Tournament.Enabled` predicate.
- The `maxLength: 20` attribute of the name inputs is a browser limit on typing and is not modelled.
- Concurrency is not modelled: each Node handler runs to completion.
- The inbound message payload of the socket is ignored by the source and carries no structure in the model.
- Tournament.MatchWinner: requires that recording the winner does not complete a list of fewer than two matchups, where the source would fail reading `undefined`. No page state reaches that case (`Tournament.PickKeepsWellFormed`).
- The `null` result of both registries' `addPlayer` after a failed lookup cannot occur once the fresh id is new; the contracts state that it never occurs. The 1011 "Failed to create or join match" close of the socket route is still reached when the join yields the empty match id `""`, which `!matchId` treats as missing.
- The React component and the DOM page of the tournament share one model, because their handlers are identical.
