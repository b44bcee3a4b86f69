# BopBash server core in Dafny

BopBash is a multiplayer "name that tune" game. Players join a game built
from a Spotify playlist. In each round they hear a track preview and guess
the track. A correct guess scores more the sooner it arrives. This project
models the server's game logic as pure functions over immutable data, and
proves properties of that model.

What is modelled:

- **The game session** (`Session`, `Rounds`, `Scoring`, from server/Game.ts).
  It covers joining, leaving, readying and unreadying, and the readiness
  policy (everyone ready starts the game; more than half ready arms an
  auto-start timer). It also covers guesses and their score, chat, and the
  round loop run by `start()`. Finally it covers `end()` and the rematch.
  The timers and the round-ending promise become events of `Session.Step`.
  Each event can only happen while its timer is live.
- **The game manager** (`Registry`, from server/GameManager.ts). It holds the
  tables of active games, players and player-to-game mappings. Each player
  record is shared between the player table and the player's game. The model
  keeps a copy in each place. `Registry.Consistent` states that the copies
  agree, and every operation is proved to preserve it. The proof covers
  runs in which no game that has left the registry fires a timer (see
  "## Left out"). `generateNewGameId` tests its draw with `in` on a `Map`.
  That test never sees the map's keys, so a colliding id is never redrawn,
  and the model replaces the older game, as the code does.
- **The legacy game and driver** (`LegacyGame`, `LegacyDriver`, from
  server/game.ts and server/gameDriver.ts). Here games and players are
  objects that refer to each other. They live in heaps indexed by object
  identity, and `LegacyDriver.WellFormed` is the heap invariant. Two
  consequences of the shared objects are proved:
  - A player who joins a second game stays in the first game's table, and
    stopping the first game clears their active game.
  - A killed player stays listed in their games.
- **Utilities**:
  - `ObservableMap`, a `Map` that fires callbacks on `set` and `delete`
    (utils/ObservableMap.ts).
  - `AudioStream`, a stream that loops one audio buffer (server/AudioStream.ts).
  - `arraySum` (shared/utils.ts).

Randomness is an explicit key stream. `Random.Shuffle` and `Random.SampleSize`
choose positions by successive keys, so every permutation is reachable. The
preview lookup of the Spotify catalog is an oracle from track ids to optional
URLs. The clock is an `int` parameter.

## Model

| member | source | states |
|---|---|---|
| Rounds.Normalised | server/Game.ts:50-57 | each option that is missing or outside its [min, max] becomes its default; options in range are kept |
| Rounds.NormalisedKeepsInRange | server/Game.ts:50-57 | an in-range option set is left unchanged by the clamping |
| Rounds.NormalisedDefaults | server/Game.ts:52-56 | an option that is missing, below its min or above its max takes the default |
| Rounds.Viable | server/Game.ts:89 | the viable tracks are exactly the non-null, non-local playlist tracks |
| Rounds.Choose | server/Game.ts:93-104 | the selection loop keeps at most numRounds tracks, each with a non-empty preview URL, and keeps none only when none has one |
| Rounds.ChooseIsPrefix | server/Game.ts:94-104 | the loop keeps the first numRounds tracks that have a preview, or all of them when there are fewer |
| Rounds.UniqFrom | server/Game.ts:114 | `uniqBy(…, "id")` (`UniqBy`, which starts with no id taken) keeps one track from the input for each id not already taken: the ids are distinct and there is one per such id |
| Rounds.UniqByAfterAnswer | server/Game.ts:114 | putting the answer first and dropping it leaves the other viable tracks with distinct ids, none with the answer's id |
| Rounds.JoinSnoc | server/Game.ts:118 | `join(", ")` of the artist names puts the separator between consecutive parts only: adding a part adds the separator and that part |
| Rounds.MakeChoices | server/Game.ts:109-123 | the choice list holds the answer exactly once, has pairwise distinct ids, and has 1 + min(numChoices − 1, number of other distinct ids) entries |
| Rounds.CreateRound | server/Game.ts:107-130 | a round has the track's id, its preview URL, maxDuration = roundDuration·1000, and choices only in a CHOICES game |
| Rounds.Pad | server/Game.ts:140-145 | padding reaches exactly numRounds when short, keeps the original rounds first, and only repeats existing rounds |
| Rounds.GenerateRounds | server/Game.ts:84-150 | it fails with "No valid rounds" exactly when numRounds ≤ 0 or no viable track has a preview; otherwise exactly numRounds rounds, all drawn from the built rounds and covering every one of them, and unpadded when enough tracks were chosen |
| Rounds.ChooseSub | server/Game.ts:93-104 | the selection loop takes each track at most as often as the shuffled list holds it |
| Rounds.ChosenFromPlaylist | server/Game.ts:89-104 | the chosen tracks come from the viable playlist tracks, each at most as often as the playlist lists it, so a playlist without repeats gives distinct chosen tracks |
| Rounds.NoPlayableCandidate | server/Game.ts:89-104 | no shuffled candidate has a preview exactly when no viable track has one |
| Rounds.GeneratedRoundsArePlayable | server/Game.ts:84-150 | every generated round names a viable track with a preview, carries its non-empty URL and the configured duration, and has choices exactly in a CHOICES game |
| Random.Shuffle | server/Game.ts:89 | a shuffle is a permutation: the same elements, each as often as in the input |
| Random.SampleIndices | server/Game.ts:117 | a sample takes n, clamped to [0, length], distinct positions |
| Random.SampleSize | server/Game.ts:117 | `sampleSize` returns n elements, n clamped to [0, length], taken from distinct positions: no element more often than the input holds it |
| Scoring.MathRound | server/Game.ts:343 | `Math.round` of a quotient: the nearest integer, halves rounded up |
| Scoring.GuessPoints | server/Game.ts:340-343 | a wrong guess scores 0; a correct one scores the rounded share that the remaining time (`TimeRemaining`: round length minus elapsed time plus three countdown steps) is of the round, in thousandths, and a zero-length round scores no finite number |
| Scoring.PointsNonIncreasing | server/Game.ts:342-343 | a later correct guess never scores more |
| Scoring.EarlyGuessFullPoints | server/Game.ts:342-343 | a correct guess within the three countdown steps scores at least 1000 |
| Scoring.LateGuessNoPoints | server/Game.ts:342-343 | a correct guess after the round and countdown are over scores at most 0 |
| Session.NewGame | server/Game.ts:38-58 | a new game is pending, with no players, rounds, chat or current round, and clamped options |
| Session.NewInstance | server/Game.ts:70-74 | `newInstance` fails exactly when round generation fails, and otherwise yields a valid pending game holding the generated rounds |
| Session.NewPlayer | server/Game.ts:561-565 | a new player is in no game |
| Session.GetPlayer | server/Game.ts:160-166 | a player is found exactly when they are in the table with a record naming this game; otherwise "not in game" |
| Session.SetReady | server/Game.ts:230 | readying changes only the player's ready flag |
| Session.ReadyAll | server/Game.ts:283 | readying everyone keeps the members and sets each member's flag |
| Session.ReadyIds | server/Game.ts:267 | the ready players are exactly the members whose flag is set |
| Session.AllReadyMeansEveryone | server/Game.ts:267-268 | "all ready" (ready count = player count) holds exactly when every member is ready |
| Session.NobodyIsAllReady | server/Game.ts:268-269 | with no players, everyone is ready and more-than-half is not |
| Session.StartRound | server/Game.ts:469-494 | starting round i unreadies everyone, publishes round i without its answer, stamps its start time, and changes no other entry of the round list |
| Session.Resolve | server/Game.ts:446-453 | ending the round being played reveals its track id and readies everyone; with no round playing, nothing changes |
| Session.End | server/Game.ts:392-424 | ending an ended game is a no-op; otherwise the game ends and a rematch is due exactly when players remain |
| Session.Start | server/Game.ts:430-462 | starting a game with rounds makes it active, unready, playing round 0; a game without rounds ends at once |
| Session.CheckReadiness | server/Game.ts:266-304 | pending and all ready starts the game; pending with more than half ready arms the auto-start; otherwise it disarms; active and all ready ends the round; ended does nothing |
| Session.ArmsOnlyFromUnarmed | server/Game.ts:278-288 | the auto-start timer is armed only by a pending game with more than half but not all ready |
| Session.RoundTimeout | server/Game.ts:490-493 | the round timer ends only the round it was set for |
| Session.PostRoundDone | server/Game.ts:443-461 | after the scoreboard pause the next round starts only if the game is still active and rounds remain; otherwise the game ends |
| Session.AutoStartFire | server/Game.ts:281-287 | the auto-start timer readies everyone and re-checks readiness |
| Session.AutoStartFireStarts | server/Game.ts:281-287 | when it fires on a pending game with rounds, the game starts at round 0 |
| Session.RematchFire | server/Game.ts:404-421 | the rematch gives every member a fresh record, regenerates the rounds and sets the game back to pending |
| Session.GuessError | server/Game.ts:317-338 | a guess is refused, in this order, for a non-member, a ready player, a round index other than the current one, a missing round, or a round already guessed (a slot past the end of the scores counts as guessed); each refusal is stated for exactly the inputs that reach it |
| Session.Scored | server/Game.ts:346-349 | scoring fills only that player's slot for that round and readies only that player |
| Session.SubmitGuess | server/Game.ts:315-360 | a guess succeeds exactly when no refusal applies; it reports correctness against the round's track and the decayed score |
| Session.GuessChangesOneSlot | server/Game.ts:336-346 | an accepted guess fills a slot that was empty and changes no other slot |
| Session.AddPlayer | server/Game.ts:173-193 | the joining player gets a fresh unready record sized to the rounds, and one join line is added to the chat |
| Session.ForcedGuess | server/Game.ts:184-186 | joining an active game submits an empty guess on the current round; a refused forced guess changes nothing |
| Session.JoinActiveSkipsRound | server/Game.ts:184-186 | a player joining an active game has guessed the current round and is ready |
| Session.RemovePlayer | server/Game.ts:201-218 | leaving is refused for non-members; otherwise only that player is removed, their record is cleared, and one leave line is added |
| Session.SetPlayerReady | server/Game.ts:226-260 | ready/unready is refused for non-members; otherwise it sets the flag and re-checks readiness |
| Session.SubmitChat | server/Game.ts:368-377 | chat is refused for non-members; otherwise exactly one message from the player is added, cut to the length limit in characters |
| Common.Prefix | server/Game.ts:373 | `substring(0, n)`, read as a cut by characters: the first min(length, n) characters of the content |
| Common.PrefixAgreesOnBmp | server/Game.ts:373 | the cut by characters gives the same UTF-16 code units as JavaScript's cut by code units whenever the characters kept lie in the Basic Multilingual Plane |
| Common.PrefixDiffersAboveBmp | server/Game.ts:373 | beyond that plane the two cuts differ: a one-unit cut of one astral character keeps it whole here and half of its surrogate pair in JavaScript |
| Session.LastReadyStarts | server/Game.ts:266-277 | the last pending player to ready up starts the game |
| Session.LastLeaveStartsPendingGame | server/Game.ts:201-218 | when the last player leaves a pending game, the empty game starts |
| Session.GuessAcceptedAfterRematch | server/Game.ts:404-421 | after a rematch the stale current round still accepts guesses |
| Session.RematchedMember | server/Game.ts:404-421 | after a rematch a member has a fresh record, the game is pending, the current round is kept and the round count is unchanged |
| Session.GuessOpen | server/Game.ts:317-338 | an unready member guessing the current round with an empty slot passes every guard |
| Session.Step | server/Game.ts:173-494 | timer and join events never fail |
| Session.StepKeepsMembers | server/Game.ts:226-494 | events other than join and leave keep the member set and the id |
| Session.StepValid | server/Game.ts:173-494 | every event preserves the session invariant |
| Session.AddPlayerValid | server/Game.ts:173-193 | joining preserves the session invariant |
| Session.RemovePlayerValid | server/Game.ts:201-218 | leaving preserves the session invariant |
| Session.SubmitGuessValid | server/Game.ts:315-360 | a guess preserves the session invariant |
| Session.CheckReadinessValid | server/Game.ts:266-304 | the readiness check preserves the session invariant |
| Session.RematchValid | server/Game.ts:404-421 | the rematch preserves the session invariant, including when regeneration fails |
| Session.PostRoundDoneValid | server/Game.ts:443-461 | the round loop preserves the session invariant |
| Registry.EmptyRegistry | server/GameManager.ts:21-26 | the empty tables are consistent |
| Registry.GetPlayer | server/GameManager.ts:35-41 | a player is found exactly when registered; otherwise "Unable to find player" |
| Registry.GetGame | server/GameManager.ts:50-56 | a game is found exactly when registered; otherwise "Unable to find game" |
| Registry.GetPlayerActiveGame | server/GameManager.ts:65-71 | no mapping or an empty one gives "no active game"; otherwise the game lookup of the mapped id |
| Registry.MemberActiveGame | server/GameManager.ts:65-71 | in a consistent registry a member's active game is the game they are in |
| Registry.OneGamePerPlayer | server/GameManager.ts:182-196 | in a consistent registry a player is a member of at most one game |
| Registry.Joinable | server/GameManager.ts:78-81 | the listed games are exactly the public, pending ones |
| Registry.GenerateNewGameId | server/GameManager.ts:88-94 | an id is the six upper-case hex digits of three bytes |
| Registry.GameIdInjective | server/GameManager.ts:91 | different bytes give different ids |
| Registry.GameIdSurvivesUpper | server/GameManager.ts:184 | upper-casing a generated id leaves it unchanged, so `addPlayerToGame` finds it |
| Registry.Hex | server/GameManager.ts:91 | `toString('hex')` writes two lower-case digits per byte, high nibble first |
| Registry.ToUpper | server/GameManager.ts:91 | `toUpperCase` keeps the length and maps each ASCII lower-case letter to its capital, leaving every other character |
| Registry.GenerateNewPlayerId | server/GameManager.ts:101-107 | the id is the first draw that is not a registered player |
| Registry.RegisterNewPlayer | server/GameManager.ts:116-126 | exactly one player is added, under a fresh id and in no game, and consistency is kept |
| Registry.GenerateNewGame | server/GameManager.ts:156-174 | a generation error registers nothing; otherwise the new game is stored under its id, replacing any game with that id |
| Registry.GenerateNewGameConsistent | server/GameManager.ts:156-174 | creating a game keeps the registry consistent, including when it replaces a game with the same id |
| Registry.RemovePlayerFromGame | server/GameManager.ts:203-226 | an unknown player is an error. A player whose record names no game has only the record cleared, and keeps their mapping. Otherwise a game that is not registered, or that does not list the player, is an error. On success the player's mapping is dropped and their record cleared; what else stays is `Registry.RemovalFrame` |
| Registry.RemovalFrame | server/GameManager.ts:203-226 | a successful removal only shrinks game tables, changes no game but the one the record names, and changes no player record but the leaver's and that game's members' |
| Registry.RemoveMember | server/GameManager.ts:203-226 | removing a member takes them out of their game, stops the game if it empties, and keeps consistency |
| Registry.AddPlayerToGame | server/GameManager.ts:182-196 | an unknown player or game (after upper-casing) is an error; otherwise the player leaves any old game and joins the new one, mapped to it; what the join leaves alone is `Registry.JoinFrame` |
| Registry.JoinConsistent | server/GameManager.ts:182-196 | joining keeps the registry consistent |
| Registry.JoinFrame | server/GameManager.ts:182-196 | a join changes only the game left, the game joined, their members and the player; the player's mapping names the game joined and no other mapping changes |
| Registry.DetachConsistent | server/GameManager.ts:186-187 | the removal inside a join, with its failure swallowed, leaves the player registered, in no registered game, and the registry consistent |
| Registry.DetachFrame | server/GameManager.ts:186-187 | that removal changes only the game the player's record names and its members, and no mapping but the player's |
| Registry.RejoinSoleGameDangles | server/GameManager.ts:186-222 | rejoining a game of which one is the only member stops that game first, so the player ends mapped to an unregistered game |
| Registry.StopEmptyGame | server/GameManager.ts:245 | dropping a game removes only that entry |
| Registry.StopGame | server/GameManager.ts:233-248 | an unknown game is an error; otherwise every member is removed, in no game and unmapped, the game is dropped, other games and players are untouched, and consistency is kept |
| Registry.KillPlayer | server/GameManager.ts:255-265 | an unknown player is an error; otherwise the player leaves their game and is dropped; what else stays is `Registry.KillFrame` |
| Registry.KillFrame | server/GameManager.ts:255-265 | killing drops exactly that player; games only shrink, no game but the one the record names changes, no other mapping changes, and no player outside that game changes |
| Registry.KillConsistent | server/GameManager.ts:255-265 | killing a player keeps the registry consistent |
| Registry.PlayEvent | server/Game.ts:226-494 | an event on a registered game replaces only that game and keeps the mappings |
| Registry.PlayFrame | server/Game.ts:226-494 | the event's game members take their records from the updated game, and every other player keeps theirs |
| Registry.PlayKeepsPlayers | server/Game.ts:226-494 | in a consistent registry an event neither adds nor drops a player |
| Registry.PlayedConsistent | server/Game.ts:226-494 | an event on a registered game keeps the registry consistent |
| LegacyGame.NewPlayer | server/game.ts:115-120 | a new legacy player is not ready, in no game, and has been sent nothing |
| LegacyGame.LeaveGame | server/game.ts:148-153 | afterwards the player is in no game; GAME_OVER is sent only if they had a game; a player in no game is unchanged, so leaving is idempotent |
| LegacyGame.Kill | server/game.ts:159-165 | a killed player leaves their game under the same GAME_OVER rule |
| LegacyGame.GenerateRounds | server/game.ts:46-70 | a null track is an error; otherwise at most desiredNumRounds rounds, each from a non-local track whose preview URL is non-empty and carried by the round |
| LegacyGame.ShortfallMeansExhausted | server/game.ts:55-69 | fewer rounds than asked only when every non-local track with a preview already has a round, so there is no padding |
| LegacyGame.PlayableComplete | server/game.ts:56-66 | every track that has a preview is kept when the loop runs to the end of the list |
| LegacyGame.NewInstance | server/game.ts:31-35 | a new legacy game has no players and the generated rounds, or fails exactly on a null track |
| LegacyGame.AddPlayer | server/game.ts:77-83 | a player id already in the table is refused; otherwise exactly that entry is added |
| LegacyGame.Stop | server/game.ts:89-94 | every player in the table ends in no game, with GAME_OVER sent to those who had one and name and readiness kept; other players are untouched |
| LegacyGame.StopMembersInNoGame | server/game.ts:91-93 | each listed player is in no game after the stop |
| LegacyGame.Start | server/game.ts:100-104 | every player in the table is sent GAME_START with the rounds' preview URLs; nothing else changes |
| LegacyGame.PreviewUrls | server/game.ts:102 | the URLs sent are the rounds' preview URLs, one per round, in order |
| LegacyGame.StartThenStop | server/game.ts:89-104 | starting changes no player's game, and a started then stopped game has sent each listed player GAME_START then GAME_OVER |
| LegacyDriver.EmptyDriver | server/gameDriver.ts:12-13 | the empty dictionaries are well formed |
| LegacyDriver.GenerateNewGameId | server/gameDriver.ts:20-26 | the id is the first drawn six-digit upper-case hex id that is not an active game |
| LegacyDriver.GenerateNewPlayerId | server/gameDriver.ts:33-39 | the id is the first draw that is not an active player |
| LegacyDriver.RegisterNewPlayer | server/gameDriver.ts:47-57 | exactly one new player object is registered, under the fresh id; well-formedness is kept |
| LegacyDriver.GenerateNewGame | server/gameDriver.ts:66-90 | a null track registers nothing; otherwise one new empty game is registered under a fresh id; well-formedness is kept |
| LegacyDriver.LifetimeTimer | server/gameDriver.ts:74-77 | when the lifetime timer fires, the game registered under the timed game's id is stopped |
| LegacyDriver.EmptyGameTimer | server/gameDriver.ts:80-85 | the empty-game timer stops the game only if its table is empty when it fires |
| LegacyDriver.TimersWellFormed | server/gameDriver.ts:74-85 | either timer firing keeps the heap well formed |
| LegacyDriver.MissingMessages | server/gameDriver.ts:114-120 | one message per missing item, the game before the player, and none when both are found |
| LegacyDriver.AddPlayerToGame | server/gameDriver.ts:98-123 | a missing game or player gives the messages naming each, with no change; a duplicate is refused; otherwise the player is in the game's table and the game is their active game, and nothing else changes |
| LegacyDriver.AddPlayerToGameWellFormed | server/gameDriver.ts:98-111 | joining keeps the heap well formed |
| LegacyDriver.StopGame | server/gameDriver.ts:143-146 | the id is dropped; each player in the game's table leaves it, with GAME_OVER sent if they had a game, and every other player object is unchanged; an unknown id changes nothing |
| LegacyDriver.StopGameWellFormed | server/gameDriver.ts:143-146 | stopping keeps the heap well formed |
| LegacyDriver.KillPlayer | server/gameDriver.ts:149-152 | the player leaves their game and is dropped; an unknown id changes nothing |
| LegacyDriver.KillPlayerWellFormed | server/gameDriver.ts:149-152 | killing keeps the heap well formed |
| LegacyDriver.StaleTableEndsNewerGame | server/gameDriver.ts:107-110 | a player who joined a newer game is still listed by the old one, and stopping the old game clears their active game while the newer game still lists them |
| LegacyDriver.KilledPlayerStaysListed | server/gameDriver.ts:149-152 | killing a player leaves every game table unchanged |
| ObservableMap.New | utils/ObservableMap.ts:10-14 | a new map is empty and has fired nothing |
| ObservableMap.Get | utils/ObservableMap.ts:6 | the inherited `get` finds a value exactly for a stored key, and it is the stored value |
| ObservableMap.Set | utils/ObservableMap.ts:16-20 | `set` stores the value, leaves other keys alone, and fires `onSet` exactly once when present, overwrites included |
| ObservableMap.Delete | utils/ObservableMap.ts:22-29 | `delete` reports whether the key was present, removes it, and fires `onDelete` only for a removed truthy value |
| ObservableMap.DeleteAbsentIsNoOp | utils/ObservableMap.ts:22-29 | deleting an absent key changes nothing and fires nothing |
| ObservableMap.SetThenDelete | utils/ObservableMap.ts:16-29 | a set followed by a delete of the same key leaves the entries without that key and fires one delete with the stored value when truthy |
| AudioStream.New | server/AudioStream.ts:8-12 | without a buffer the stream holds 44100 zero bytes; the offset starts at 0 |
| AudioStream.SetSilence | server/AudioStream.ts:14-16 | the buffer becomes 44100 zero bytes and the offset is kept |
| AudioStream.Read | server/AudioStream.ts:23-33 | for a non-empty buffer the chunk has length in [size, 2·size), continues the buffer cyclically from the offset, and leaves the offset at (offset + length) mod buffer length; exactly size bytes when no wrap is needed |
| ArraySum.Sum | shared/utils.ts:8-10 | an empty array throws; otherwise the exact sum of the integer entries, with null entries counted as 0 |
| ArraySum.Reduce | shared/utils.ts:9 | `reduce` without a seed fails exactly on an empty array and returns the single element of a one-element array |
| ArraySum.FoldIsTotal | shared/utils.ts:9 | the reduction equals the null-as-zero sum |
| ArraySum.SingletonSum | shared/utils.ts:9 | [x] sums to x, or 0 for null |
| ArraySum.AllNullSum | shared/utils.ts:9 | a non-empty all-null array sums to 0 |

## Left out

- Sockets and broadcasting: `broadcastUpdate`, `getState`, `sendUpdate`, `connect`, `disconnect` and `establishPlayerConnection` are transport. The legacy outbox only records the updates handed to `sendUpdate`.
- Legacy `startGame` in gameDriver.ts: its body is empty, so it changes nothing and has no member.
- Timers and promises are events. A stale timer (one that was cleared, or a round promise that already resolved) is not an event. The microtask gap between resolving a round and its continuation is not modelled.
- Concurrency between requests: every call runs to completion before the next one. This includes the `await` between drawing a new game id and registering the game.
- Spotify: the preview lookup is an oracle. A lookup that fails counts as "no URL". The legacy code writes the URL onto the shared track object; the model keeps it only in the rounds.
- Randomness: lodash `shuffle`/`sampleSize`, `crypto.randomBytes` and `uuidv4` are key or draw streams. The id loops assume some draw is fresh. Base64 and uuid formatting are not modelled; those ids are drawn strings.
- Floating point: `Math.round` is integer rounding of an exact quotient, and `roundDuration * 1000` is exact.
- ArraySum.Sum: the entries are integers and the sum is exact, while the server adds JavaScript doubles. The two agree only for integer entries whose partial sums stay within 2^53 in magnitude. Fractional entries (`arraySum([0.1, 0.2])` gives `0.30000000000000004`), rounding of larger sums, and `NaN` or infinite entries, which propagate, are not modelled.
- Map iteration order: `Registry.StopGame` takes the member order as a parameter, since the model's maps do not record insertion order.
- The callbacks of the `ObservableMap`s in GameManager.ts: the tables are created without callbacks, so they are plain maps in `Registry`.
- Registry.ToUpper: `toUpperCase` is modelled for ASCII only. JavaScript also maps other letters, some to several characters: `'ﬀ'` (U+FB00) becomes `"FF"`, so joining `"ﬀ1234"` reaches game `FF1234` in the server, while the model leaves the character as it is and reports that the game cannot be found.
- The unused constant `MAX_EMPTY_GAME_LIFETIME` in GameManager.ts.
- Property names inherited from `Object.prototype` (`"constructor"`, `"__proto__"`) used as ids in the legacy dictionaries.
- Process behaviour after an unhandled promise rejection. A swallowed error from an un-awaited call keeps the state it left.
- `AudioStream.setMP3` (an HTTP download), and the ui/ client, authentication and routing code.
- The username checks of the controller: player names are unconstrained.
- AudioStream.Read: a read of positive size from an empty buffer never returns in the server, so that case is excluded by its precondition.
- Registry.StopGame: the exact tables after the stop are stated only for a consistent registry. The call of `end()` on the dropped game object is not applied: the object is unregistered and has no members left, so what it still does belongs to the detached games below.
- Timers of detached games: a game object that is no longer registered keeps its live timers and its round loop in the server. This happens to a game replaced under its own id by `generateNewGame`, and to a game stopped while a join adds its only member back. When such a timer fires it can write to player records that a registered game shares: it can unready a player, ready them, or give them a rematch record sized to the detached game's rounds. The model has events only for registered games (`Registry.PlayEvent`), so `Registry.Consistent` is proved for runs in which no detached game's timer fires. A rematch record whose size differs from the player's registered game would break `Session.Valid`.
- Session.SubmitChat: the message is cut after `maxChatLength` characters, while `substring` counts UTF-16 code units. The two agree when the characters kept lie in the Basic Multilingual Plane (`Common.PrefixAgreesOnBmp`). Otherwise JavaScript keeps fewer characters and can split a surrogate pair (`Common.PrefixDiffersAboveBmp`), which a Dafny string cannot hold.
- Non-integer numbers: the game options and round numbers are integers here. In the server they are JavaScript numbers, so a fraction inside an option's bounds passes the clamp. For example, `numRounds` 2.5 makes the selection loop take 3 tracks. `NaN` and infinities are not modelled either.
- Session.StartRound: the model's rounds are values, so the start time stamped on round i is not seen by its repeats. In the server, padding pushes the same `Round` objects again, so the stamp also lands on every repeat of round i. The difference is not observable in this model: a repeat's own start stamps it again before any guess on it can be scored.
