/**
 * The older game objects of server/game.ts. Games and players are objects
 * that refer to each other, so the model keeps them in heaps indexed by a
 * `Ref` (the object's identity): a game's player table maps player ids to
 * player references, and a player's `activeGame` is a game reference.
 * Sending an update is recorded in the player's outbox; whether a socket
 * delivers it is not part of this model.
 */
module LegacyGame {
  import opened Common
  import opened Rounds
  import Random

  /** The identity of a game or player object. */
  type Ref = nat

  /** The updates the legacy player is sent. */
  datatype Update = GameStart(urls: seq<string>) | GameOver

  datatype Player = Player(id: string, name: string, isReady: bool, activeGame: Option<Ref>, outbox: seq<Update>)

  /** A legacy round: the track and the preview URL to play. */
  datatype LegacyRound = LegacyRound(trackId: string, previewUrl: string)

  datatype Game = Game(id: string, playlist: Playlist, players: map<string, Ref>, rounds: seq<LegacyRound>)

  // ---------------------------------------------------------------------
  // Players

  /** `new Player(id, name)`: not ready, in no game, nothing sent yet. */
  function NewPlayer(id: string, name: string): (p: Player)
    ensures p.id == id && p.name == name
    ensures !p.isReady && p.activeGame.None? && p.outbox == []
  {
    Player(id, name, false, None, [])
  }

  /**
   * `leaveGame()`: GAME_OVER is sent when the player had a game, and the
   * player is left in no game. A player in no game is returned unchanged,
   * so leaving twice is the same as leaving once.
   */
  function LeaveGame(p: Player): (p': Player)
    ensures p'.activeGame.None?
    ensures p'.outbox == p.outbox + (if p.activeGame.Some? then [GameOver] else [])
    ensures p'.id == p.id && p'.name == p.name && p'.isReady == p.isReady
    ensures p.activeGame.None? ==> p' == p
  {
    if p.activeGame.Some? then p.(activeGame := None, outbox := p.outbox + [GameOver])
    else p
  }

  /** `kill()`, its state part: the player leaves their game; closing the socket is transport. */
  function Kill(p: Player): (p': Player)
    ensures p'.activeGame.None?
    ensures p'.outbox == p.outbox + (if p.activeGame.Some? then [GameOver] else [])
    ensures p'.id == p.id && p'.name == p.name
  {
    LeaveGame(p)
  }

  // ---------------------------------------------------------------------
  // Rounds

  /** The round for a chosen track: its id and its preview URL (`previewURL ?? ""`). */
  function RoundOf(t: Track, preview: Preview): LegacyRound {
    LegacyRound(t.id, preview(t.id).GetOr(""))
  }

  function RoundsOf(ts: seq<Track>, preview: Preview): (r: seq<LegacyRound>)
    ensures |r| == |ts|
    ensures forall i :: 0 <= i < |ts| ==> r[i] == RoundOf(ts[i], preview)
  {
    seq(|ts|, i requires 0 <= i < |ts| => RoundOf(ts[i], preview))
  }

  /** Some playlist item has no track: reading `is_local` of it throws. */
  predicate HasNullTrack(items: seq<Option<Track>>) {
    exists i :: 0 <= i < |items| && items[i].None?
  }

  /**
   * `generateRounds(desiredNumRounds)`: the rounds are rebuilt from nothing
   * out of the shuffled non-local tracks, keeping the first ones whose
   * preview lookup gave a non-empty URL, at most `desiredNumRounds` of them.
   * Fewer rounds, or none, is not an error; only a missing track is.
   */
  function GenerateRounds(playlist: Playlist, desired: int, preview: Preview, keys: seq<nat>): (r: Result<seq<LegacyRound>>)
    ensures r.Err? <==> HasNullTrack(playlist.items)
    ensures r.Err? ==> r.error == NullTrack
    ensures r.Ok? ==> |r.value| <= Max(desired, 0)
    ensures r.Ok? ==> forall i :: 0 <= i < |r.value| ==>
      exists t :: t in Viable(playlist.items) && HasPreview(t, preview) && r.value[i] == LegacyRound(t.id, preview(t.id).value)
  {
    if HasNullTrack(playlist.items) then Err(NullTrack)
    else
      var chosen := Choose(Random.Shuffle(Viable(playlist.items), keys), desired, preview);
      var rs := RoundsOf(chosen, preview);
      assert forall i :: 0 <= i < |rs| ==> chosen[i] in Viable(playlist.items) && rs[i] == LegacyRound(chosen[i].id, preview(chosen[i].id).value);
      Ok(rs)
  }

  /** Every track of `s` that has a preview is kept by the reference selection. */
  lemma {:induction false} PlayableComplete(s: seq<Track>, preview: Preview)
    ensures forall t :: t in s && HasPreview(t, preview) ==> t in Playable(s, preview)
    decreases |s|
  {
    if |s| > 0 {
      PlayableComplete(s[1..], preview);
      forall t | t in s && HasPreview(t, preview) ensures t in Playable(s, preview) {
        if t != s[0] {
          assert t in s[1..];
        }
      }
    }
  }

  /**
   * Fewer rounds than asked for only when the playlist ran out: then every
   * non-local track with a preview has a round.
   */
  lemma ShortfallMeansExhausted(playlist: Playlist, desired: int, preview: Preview, keys: seq<nat>, t: Track)
    requires GenerateRounds(playlist, desired, preview, keys).Ok?
    requires |GenerateRounds(playlist, desired, preview, keys).value| < desired
    requires t in Viable(playlist.items) && HasPreview(t, preview)
    ensures RoundOf(t, preview) in GenerateRounds(playlist, desired, preview, keys).value
  {
    var s := Random.Shuffle(Viable(playlist.items), keys);
    var chosen := Choose(s, desired, preview);
    var p := Playable(s, preview);
    ChooseIsPrefix(s, desired, preview);
    assert chosen == p;
    PlayableComplete(s, preview);
    assert t in chosen;
    var i :| 0 <= i < |chosen| && chosen[i] == t;
    assert RoundsOf(chosen, preview)[i] == RoundOf(t, preview);
  }

  // ---------------------------------------------------------------------
  // Games

  /** `Game.newInstance(id, playlist, n)`: a game with no players and freshly generated rounds. */
  function NewInstance(id: string, playlist: Playlist, desired: int, preview: Preview, keys: seq<nat>): (r: Result<Game>)
    ensures r.Err? <==> HasNullTrack(playlist.items)
    ensures r.Ok? ==> r.value.id == id && r.value.playlist == playlist && r.value.players == map[]
    ensures r.Ok? ==> r.value.rounds == GenerateRounds(playlist, desired, preview, keys).value
  {
    match GenerateRounds(playlist, desired, preview, keys)
    case Err(e) => Err(e)
    case Ok(rs) => Ok(Game(id, playlist, map[], rs))
  }

  /** `addPlayer(player)`: a player id already in the table is refused; otherwise exactly that entry is added. */
  function AddPlayer(g: Game, p: Player, pref: Ref): (r: Result<Game>)
    ensures r.Err? <==> p.id in g.players
    ensures r.Err? ==> r.error == DuplicatePlayer
    ensures r.Ok? ==> r.value.players.Keys == g.players.Keys + {p.id} && r.value.players[p.id] == pref
    ensures r.Ok? ==> forall k :: k in g.players ==> r.value.players[k] == g.players[k]
    ensures r.Ok? ==> r.value.id == g.id && r.value.rounds == g.rounds && r.value.playlist == g.playlist
  {
    if p.id in g.players then Err(DuplicatePlayer)
    else Ok(g.(players := g.players[p.id := pref]))
  }

  /** The player objects in a game's table. */
  function Members(g: Game): set<Ref> {
    set k | k in g.players :: g.players[k]
  }

  /**
   * `stop()`: every player in the table leaves their game. Leaving is
   * idempotent and touches only that player, so the order of the walk does
   * not matter. The game's own table is left as it is.
   */
  function Stop(g: Game, heap: seq<Player>): (heap': seq<Player>)
    ensures |heap'| == |heap|
    ensures forall r :: 0 <= r < |heap| && r in Members(g) ==>
      heap'[r].activeGame.None? && heap'[r].id == heap[r].id &&
      heap'[r].outbox == heap[r].outbox + (if heap[r].activeGame.Some? then [GameOver] else [])
    ensures forall r :: 0 <= r < |heap| && r in Members(g) ==>
      heap'[r].name == heap[r].name && heap'[r].isReady == heap[r].isReady
    ensures forall r :: 0 <= r < |heap| && r !in Members(g) ==> heap'[r] == heap[r]
  {
    seq(|heap|, r requires 0 <= r < |heap| => if r in Members(g) then LeaveGame(heap[r]) else heap[r])
  }

  /**
   * `start()`: every player in the table is sent GAME_START with the
   * rounds' preview URLs; nothing else about any player changes.
   */
  function Start(g: Game, heap: seq<Player>): (heap': seq<Player>)
    ensures |heap'| == |heap|
    ensures forall r :: 0 <= r < |heap| && r in Members(g) ==>
      heap'[r] == heap[r].(outbox := heap[r].outbox + [GameStart(PreviewUrls(g.rounds))])
    ensures forall r :: 0 <= r < |heap| && r !in Members(g) ==> heap'[r] == heap[r]
  {
    seq(|heap|, r requires 0 <= r < |heap| =>
      if r in Members(g) then heap[r].(outbox := heap[r].outbox + [GameStart(PreviewUrls(g.rounds))]) else heap[r])
  }

  /** The URLs `start()` sends, one per round and in round order. */
  function PreviewUrls(rounds: seq<LegacyRound>): (urls: seq<string>)
    ensures |urls| == |rounds| && forall i :: 0 <= i < |rounds| ==> urls[i] == rounds[i].previewUrl
  {
    seq(|rounds|, i requires 0 <= i < |rounds| => rounds[i].previewUrl)
  }

  /**
   * A started game that is then stopped has sent each listed player, who
   * was in a game, GAME_START followed by GAME_OVER; starting changes no
   * player's game.
   */
  lemma StartThenStop(g: Game, heap: seq<Player>, r: Ref)
    requires r < |heap| && r in Members(g) && heap[r].activeGame.Some?
    ensures Start(g, heap)[r].activeGame == heap[r].activeGame
    ensures Stop(g, Start(g, heap))[r].outbox == heap[r].outbox + [GameStart(PreviewUrls(g.rounds)), GameOver]
  {
  }

  lemma StopMembersInNoGame(g: Game, heap: seq<Player>, k: string)
    requires k in g.players && g.players[k] < |heap|
    ensures Stop(g, heap)[g.players[k]].activeGame.None?
  {
    assert g.players[k] in Members(g);
  }

  /** Stopping a game twice sends nothing more the second time. */
  lemma StopTwice(g: Game, heap: seq<Player>)
    ensures Stop(g, Stop(g, heap)) == Stop(g, heap)
  {
  }
}
