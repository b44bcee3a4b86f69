/**
 * The older registry of server/gameDriver.ts: two dictionaries from ids to
 * live objects (`activeGames`, `activePlayers`) over the heaps of game and
 * player objects. A heap is a sequence indexed by object identity and only
 * ever grows: an object dropped from a dictionary stays in its heap, since
 * other objects may still refer to it.
 */
module LegacyDriver {
  import opened Common
  import opened Rounds
  import LegacyGame
  import Registry

  type Ref = LegacyGame.Ref

  datatype Driver = Driver(
    games: seq<LegacyGame.Game>,       // every game object created
    players: seq<LegacyGame.Player>,   // every player object created
    activeGames: map<string, Ref>,
    activePlayers: map<string, Ref>)

  function EmptyDriver(): (d: Driver)
    ensures WellFormed(d) && d.activeGames == map[] && d.activePlayers == map[]
  {
    Driver([], [], map[], map[])
  }

  /** Every reference points at an allocated object. */
  ghost predicate Allocated(d: Driver) {
    && (forall id :: id in d.activeGames ==> d.activeGames[id] < |d.games|)
    && (forall id :: id in d.activePlayers ==> d.activePlayers[id] < |d.players|)
    && (forall g, k :: 0 <= g < |d.games| && k in d.games[g].players ==> d.games[g].players[k] < |d.players|)
    && (forall p :: 0 <= p < |d.players| && d.players[p].activeGame.Some? ==> d.players[p].activeGame.value < |d.games|)
  }

  /** The dictionaries and game tables are keyed by the id of the object they hold. */
  ghost predicate Keyed(d: Driver)
    requires Allocated(d)
  {
    && (forall id :: id in d.activeGames ==> d.games[d.activeGames[id]].id == id)
    && (forall id :: id in d.activePlayers ==> d.players[d.activePlayers[id]].id == id)
    && (forall g, k :: 0 <= g < |d.games| && k in d.games[g].players ==> d.players[d.games[g].players[k]].id == k)
  }

  /** A player's active game lists that player in its table. */
  ghost predicate Agrees(d: Driver)
    requires Allocated(d)
  {
    forall p :: 0 <= p < |d.players| && d.players[p].activeGame.Some? ==>
      var g := d.players[p].activeGame.value;
      d.players[p].id in d.games[g].players && d.games[g].players[d.players[p].id] == p
  }

  ghost predicate WellFormed(d: Driver) {
    Allocated(d) && Keyed(d) && Agrees(d)
  }

  // ---------------------------------------------------------------------
  // Ids and registration

  /** `generateNewGameId`: draw three random bytes as upper-case hex until the id is not an active game. */
  method GenerateNewGameId(d: Driver, draws: seq<seq<byte>>) returns (id: string)
    requires forall k :: 0 <= k < |draws| ==> |draws[k]| == 3
    requires exists k :: 0 <= k < |draws| && Registry.GenerateNewGameId(draws[k]) !in d.activeGames
    ensures id !in d.activeGames && |id| == 6
    ensures exists k ::
      && 0 <= k < |draws| && Registry.GenerateNewGameId(draws[k]) == id
      && forall j :: 0 <= j < k ==> Registry.GenerateNewGameId(draws[j]) in d.activeGames
  {
    var ids := seq(|draws|, k requires 0 <= k < |draws| => Registry.GenerateNewGameId(draws[k]));
    var w :| 0 <= w < |draws| && Registry.GenerateNewGameId(draws[w]) !in d.activeGames;
    assert ids[w] !in d.activeGames.Keys;
    var k := FirstUnused(ids, d.activeGames.Keys);
    id := ids[k];
    assert forall j :: 0 <= j < k ==> ids[j] == Registry.GenerateNewGameId(draws[j]);
  }

  /** `generateNewPlayerId`: draw encoded random ids until one is not an active player. */
  method GenerateNewPlayerId(d: Driver, draws: seq<string>) returns (id: string)
    requires exists k :: 0 <= k < |draws| && draws[k] !in d.activePlayers
    ensures id !in d.activePlayers
    ensures exists k :: 0 <= k < |draws| && draws[k] == id && forall j :: 0 <= j < k ==> draws[j] in d.activePlayers
  {
    var k := FirstUnused(draws, d.activePlayers.Keys);
    id := draws[k];
  }

  /** The retry loop shared by both id generators: the first draw not already in use. */
  method FirstUnused(draws: seq<string>, used: set<string>) returns (k: nat)
    requires exists m :: 0 <= m < |draws| && draws[m] !in used
    ensures k < |draws| && draws[k] !in used
    ensures forall j :: 0 <= j < k ==> draws[j] in used
  {
    k := 0;
    while draws[k] in used
      invariant k < |draws|
      invariant forall j :: 0 <= j < k ==> draws[j] in used
      invariant exists m :: k <= m < |draws| && draws[m] !in used
      decreases |draws| - k
    {
      k := k + 1;
    }
  }

  /** `registerNewPlayer`: one new player object, registered under a fresh id; nothing else changes. */
  method RegisterNewPlayer(d: Driver, name: string, draws: seq<string>) returns (d': Driver, p: Ref)
    requires exists k :: 0 <= k < |draws| && draws[k] !in d.activePlayers
    ensures p == |d.players| && |d'.players| == p + 1 && d'.players[..p] == d.players
    ensures var id := d'.players[p].id;
      && id !in d.activePlayers
      && d'.players[p] == LegacyGame.NewPlayer(id, name)
      && d'.activePlayers == d.activePlayers[id := p]
    ensures d'.games == d.games && d'.activeGames == d.activeGames
    ensures WellFormed(d) ==> WellFormed(d')
  {
    var id := GenerateNewPlayerId(d, draws);
    p := |d.players|;
    d' := d.(players := d.players + [LegacyGame.NewPlayer(id, name)], activePlayers := d.activePlayers[id := p]);
    if WellFormed(d) {
      RegisteredPlayerWellFormed(d, d', id, name);
    }
  }

  lemma RegisteredPlayerWellFormed(d: Driver, d': Driver, id: string, name: string)
    requires WellFormed(d) && id !in d.activePlayers
    requires d' == d.(players := d.players + [LegacyGame.NewPlayer(id, name)],
                      activePlayers := d.activePlayers[id := |d.players|])
    ensures WellFormed(d')
  {
    assert forall p :: 0 <= p < |d.players| ==> d'.players[p] == d.players[p];
  }

  // ---------------------------------------------------------------------
  // Games

  /**
   * `generateNewGame`: draw a fresh id, build the game and register it; a
   * generation error propagates and nothing is registered. The two timers it
   * arms are the events `LifetimeTimer` and `EmptyGameTimer`.
   */
  method GenerateNewGame(d: Driver, idDraws: seq<seq<byte>>, playlist: Playlist, numRounds: int,
                         preview: Preview, keys: seq<nat>) returns (res: Result<(Driver, Ref)>)
    requires forall k :: 0 <= k < |idDraws| ==> |idDraws[k]| == 3
    requires exists k :: 0 <= k < |idDraws| && Registry.GenerateNewGameId(idDraws[k]) !in d.activeGames
    ensures res.Err? <==> LegacyGame.HasNullTrack(playlist.items)
    ensures res.Err? ==> res.error == NullTrack
    ensures res.Ok? ==>
      var d' := res.value.0;
      var g := res.value.1;
      && g == |d.games| && |d'.games| == g + 1 && d'.games[..g] == d.games
      && d'.games[g].id !in d.activeGames && |d'.games[g].id| == 6
      && d'.games[g].players == map[] && d'.games[g].playlist == playlist
      && d'.games[g].rounds == LegacyGame.GenerateRounds(playlist, numRounds, preview, keys).value
      && d'.activeGames == d.activeGames[d'.games[g].id := g]
      && d'.players == d.players && d'.activePlayers == d.activePlayers
      && (WellFormed(d) ==> WellFormed(d'))
  {
    var id := GenerateNewGameId(d, idDraws);
    var made := LegacyGame.NewInstance(id, playlist, numRounds, preview, keys);
    if made.Err? {
      return Err(made.error);
    }
    var g := |d.games|;
    var d' := d.(games := d.games + [made.value], activeGames := d.activeGames[id := g]);
    if WellFormed(d) {
      NewGameWellFormed(d, d', made.value);
    }
    res := Ok((d', g));
  }

  lemma NewGameWellFormed(d: Driver, d': Driver, game: LegacyGame.Game)
    requires WellFormed(d) && game.players == map[] && game.id !in d.activeGames
    requires d' == d.(games := d.games + [game], activeGames := d.activeGames[game.id := |d.games|])
    ensures WellFormed(d')
  {
    assert forall g :: 0 <= g < |d.games| ==> d'.games[g] == d.games[g];
  }

  /** `stopGame(id)`: the game's players leave their games and the id is dropped; an unknown id changes nothing. */
  function StopGame(d: Driver, gameId: string): (d': Driver)
    ensures d'.activeGames == d.activeGames - {gameId}
    ensures gameId !in d.activeGames ==> d' == d
    ensures |d'.players| == |d.players|
    ensures gameId in d.activeGames && d.activeGames[gameId] < |d.games| ==>
      var g := d.games[d.activeGames[gameId]];
      forall k :: k in g.players && g.players[k] < |d.players| ==> d'.players[g.players[k]].activeGame.None?
    ensures d'.games == d.games && d'.activePlayers == d.activePlayers
    ensures forall p :: 0 <= p < |d.players| ==>
      d'.players[p].id == d.players[p].id &&
      (d'.players[p] == d.players[p] || d'.players[p].activeGame.None?)
    ensures gameId in d.activeGames && d.activeGames[gameId] < |d.games| ==>
      var g := d.games[d.activeGames[gameId]];
      forall p :: 0 <= p < |d.players| ==>
        d'.players[p] == if p in LegacyGame.Members(g) then LegacyGame.LeaveGame(d.players[p]) else d.players[p]
  {
    if gameId in d.activeGames && d.activeGames[gameId] < |d.games| then
      var g := d.games[d.activeGames[gameId]];
      var players' := LegacyGame.Stop(g, d.players);
      assert forall k :: k in g.players && g.players[k] < |d.players| ==> players'[g.players[k]].activeGame.None? by {
        forall k | k in g.players && g.players[k] < |d.players| ensures players'[g.players[k]].activeGame.None? {
          LegacyGame.StopMembersInNoGame(g, d.players, k);
        }
      }
      d.(players := players', activeGames := d.activeGames - {gameId})
    else
      d.(activeGames := d.activeGames - {gameId})
  }

  lemma StopGameWellFormed(d: Driver, gameId: string)
    requires WellFormed(d)
    ensures WellFormed(StopGame(d, gameId))
  {
    var d' := StopGame(d, gameId);
    forall p | 0 <= p < |d'.players| && d'.players[p].activeGame.Some?
      ensures d'.players[p] == d.players[p]
    {
    }
  }

  /** The lifetime timer: whatever game is registered under the timed game's id is stopped. */
  function LifetimeTimer(d: Driver, g: Ref): (d': Driver)
    requires g < |d.games|
    ensures d.games[g].id !in d'.activeGames
    ensures d'.activeGames == d.activeGames - {d.games[g].id}
  {
    StopGame(d, d.games[g].id)
  }

  /** The empty-game timer: stops the game only if its table is empty when the timer fires. */
  function EmptyGameTimer(d: Driver, g: Ref): (d': Driver)
    requires g < |d.games|
    ensures |d.games[g].players| > 0 ==> d' == d
    ensures |d.games[g].players| == 0 ==> d'.activeGames == d.activeGames - {d.games[g].id}
    ensures d'.games == d.games
  {
    if |d.games[g].players| <= 0 then StopGame(d, d.games[g].id) else d
  }

  /** Either timer firing keeps the heap well formed. */
  lemma TimersWellFormed(d: Driver, g: Ref)
    requires WellFormed(d) && g < |d.games|
    ensures WellFormed(LifetimeTimer(d, g)) && WellFormed(EmptyGameTimer(d, g))
  {
    StopGameWellFormed(d, d.games[g].id);
  }

  // ---------------------------------------------------------------------
  // Joining and leaving

  /** The error message lines for the ids that were not found, game first. */
  function MissingMessages(d: Driver, playerId: string, gameId: string): (m: seq<string>)
    ensures |m| <= 2
    ensures m == [] <==> gameId in d.activeGames && playerId in d.activePlayers
    ensures gameId !in d.activeGames ==> m[0] == "Unable to find game " + gameId
    ensures playerId !in d.activePlayers ==> m[|m| - 1] == "Unable to find player " + playerId
  {
    (if gameId !in d.activeGames then ["Unable to find game " + gameId] else [])
    + (if playerId !in d.activePlayers then ["Unable to find player " + playerId] else [])
  }

  /**
   * `addPlayerToGame`: both ids must be active; the player is added to the
   * game's table and the game becomes the player's active game. On any
   * error no modelled state changes (the socket is attached before a
   * duplicate is refused, but sockets are not part of this model).
   */
  function AddPlayerToGame(d: Driver, playerId: string, gameId: string): (res: Result<Driver>)
    requires Allocated(d)
    ensures res.Err? && res.error.MissingItems? <==> gameId !in d.activeGames || playerId !in d.activePlayers
    ensures res.Err? && res.error.MissingItems? ==> res.error.messages == MissingMessages(d, playerId, gameId)
    ensures gameId in d.activeGames && playerId in d.activePlayers ==>
      var g, p := d.activeGames[gameId], d.activePlayers[playerId];
      && (res.Err? <==> d.players[p].id in d.games[g].players)
      && (res.Err? ==> res.error == DuplicatePlayer)
      && (res.Ok? ==>
            && |res.value.games| == |d.games| && |res.value.players| == |d.players|
            && d.players[p].id in res.value.games[g].players && res.value.games[g].players[d.players[p].id] == p
            && res.value.players[p].activeGame == Some(g)
            && (forall q :: 0 <= q < |d.games| && q != g ==> res.value.games[q] == d.games[q])
            && (forall q :: 0 <= q < |d.players| && q != p ==> res.value.players[q] == d.players[q])
            && res.value.activeGames == d.activeGames && res.value.activePlayers == d.activePlayers)
  {
    if gameId in d.activeGames && playerId in d.activePlayers then
      var g, p := d.activeGames[gameId], d.activePlayers[playerId];
      var player := d.players[p];
      match LegacyGame.AddPlayer(d.games[g], player, p)
      case Err(e) => Err(e)
      case Ok(game') =>
        Ok(d.(games := d.games[g := game'], players := d.players[p := player.(activeGame := Some(g))]))
    else
      Err(MissingItems(MissingMessages(d, playerId, gameId)))
  }

  lemma AddPlayerToGameWellFormed(d: Driver, playerId: string, gameId: string)
    requires WellFormed(d) && AddPlayerToGame(d, playerId, gameId).Ok?
    ensures WellFormed(AddPlayerToGame(d, playerId, gameId).value)
  {
    var d' := AddPlayerToGame(d, playerId, gameId).value;
    var g, p := d.activeGames[gameId], d.activePlayers[playerId];
    var id := d.players[p].id;
    assert id !in d.games[g].players;
    assert d'.games[g].players == d.games[g].players[id := p];
    assert d'.players[p] == d.players[p].(activeGame := Some(g));
    forall g0, k | 0 <= g0 < |d'.games| && k in d'.games[g0].players
      ensures d'.games[g0].players[k] < |d'.players| && d'.players[d'.games[g0].players[k]].id == k
    {
      if g0 != g || k != id {
        assert d'.games[g0].players[k] == d.games[g0].players[k];
      }
    }
    forall q | 0 <= q < |d'.players| && d'.players[q].activeGame.Some?
      ensures var h := d'.players[q].activeGame.value;
        h < |d'.games| && d'.players[q].id in d'.games[h].players && d'.games[h].players[d'.players[q].id] == q
    {
      if q != p {
        var h := d.players[q].activeGame.value;
        assert d.players[q].id in d.games[h].players;
        if h == g {
          assert d.players[q].id != id;
        }
      }
    }
  }

  /** `killPlayer(id)`: the player leaves their game and the id is dropped; an unknown id changes nothing. */
  function KillPlayer(d: Driver, playerId: string): (d': Driver)
    ensures d'.activePlayers == d.activePlayers - {playerId}
    ensures playerId !in d.activePlayers ==> d' == d
    ensures |d'.players| == |d.players|
    ensures playerId in d.activePlayers && d.activePlayers[playerId] < |d.players| ==>
      var p := d.activePlayers[playerId];
      && d'.players[p].activeGame.None?
      && d'.players[p].outbox == d.players[p].outbox + (if d.players[p].activeGame.Some? then [LegacyGame.GameOver] else [])
      && (forall q :: 0 <= q < |d.players| && q != p ==> d'.players[q] == d.players[q])
    ensures forall q :: 0 <= q < |d.players| ==> d'.players[q].id == d.players[q].id
    ensures d'.games == d.games && d'.activeGames == d.activeGames
  {
    if playerId in d.activePlayers && d.activePlayers[playerId] < |d.players| then
      var p := d.activePlayers[playerId];
      d.(players := d.players[p := LegacyGame.Kill(d.players[p])], activePlayers := d.activePlayers - {playerId})
    else
      d.(activePlayers := d.activePlayers - {playerId})
  }

  lemma KillPlayerWellFormed(d: Driver, playerId: string)
    requires WellFormed(d)
    ensures WellFormed(KillPlayer(d, playerId))
  {
  }

  // ---------------------------------------------------------------------
  // Consequences of the shared objects

  /**
   * Joining a second game does not take the player out of the first game's
   * table, so stopping the first game later also ends the player's
   * membership in the second: their active game is cleared while the second
   * game still lists them.
   */
  lemma StaleTableEndsNewerGame(d: Driver, oldId: string, k: string)
    requires WellFormed(d) && oldId in d.activeGames
    requires k in d.games[d.activeGames[oldId]].players
    requires var p := d.games[d.activeGames[oldId]].players[k];
      d.players[p].activeGame.Some? && d.players[p].activeGame.value != d.activeGames[oldId]
    ensures var p := d.games[d.activeGames[oldId]].players[k];
      var newer := d.players[p].activeGame.value;
      && StopGame(d, oldId).players[p].activeGame.None?
      && k in StopGame(d, oldId).games[newer].players
      && StopGame(d, oldId).games[newer].players[k] == p
  {
  }

  /** A killed player stays in the table of every game that listed them. */
  lemma KilledPlayerStaysListed(d: Driver, playerId: string, g: Ref, k: string)
    requires g < |d.games| && k in d.games[g].players
    ensures KillPlayer(d, playerId).games[g].players[k] == d.games[g].players[k]
  {
  }
}
