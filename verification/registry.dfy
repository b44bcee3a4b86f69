/**
 * The registry of server/GameManager.ts: the active games, the active
 * players and which game each player is in. In the server a player object
 * is shared between the player table and its game; here the player table
 * holds a copy that every operation writes back from the game it touched,
 * and `Consistent` states that the copies agree. The three tables are
 * `ObservableMap`s created without callbacks, so they are plain maps here.
 */
module Registry {
  import opened Common
  import opened Rounds
  import Session

  datatype Registry = Registry(
    games: map<string, Session.Game>,
    players: map<string, Session.Player>,
    playerGames: map<string, string>)   // player id to the id of the player's game

  /** `pid` is in the player table of the registered game `gid`. */
  predicate MemberOf(r: Registry, gid: string, pid: string) {
    gid in r.games && pid in r.games[gid].players
  }

  /** A registered game: keyed by its non-empty id and keeping the session invariant. */
  predicate GameOk(gid: string, g: Session.Game) {
    gid != "" && g.id == gid && Session.Valid(g)
  }

  /** The member `pid` of game `gid` is a registered player with the same record, mapped to that game. */
  predicate Registered(r: Registry, gid: string, pid: string)
    requires MemberOf(r, gid, pid)
  {
    && pid in r.players && r.players[pid] == r.games[gid].players[pid]
    && pid in r.playerGames && r.playerGames[pid] == gid
  }

  /** The registry invariant. */
  ghost predicate Consistent(r: Registry) {
    && (forall gid :: gid in r.games ==> GameOk(gid, r.games[gid]))
    && (forall gid, pid :: MemberOf(r, gid, pid) ==> Registered(r, gid, pid))
    && (forall pid :: pid in r.players ==> r.players[pid].id == pid)
  }

  function EmptyRegistry(): (r: Registry)
    ensures Consistent(r) && r.games == map[] && r.players == map[]
  {
    Registry(map[], map[], map[])
  }

  /** A player belongs to at most one registered game. */
  lemma OneGamePerPlayer(r: Registry, g1: string, g2: string, pid: string)
    requires Consistent(r) && MemberOf(r, g1, pid) && MemberOf(r, g2, pid)
    ensures g1 == g2
  {
    assert Registered(r, g1, pid) && Registered(r, g2, pid);
  }

  /** The game a member's record names is the registered game they are in. */
  lemma MemberRecordNamesGame(r: Registry, gid: string, pid: string)
    requires Consistent(r) && MemberOf(r, gid, pid)
    ensures r.players[pid].info.Some? && r.players[pid].info.value.gameId == gid
  {
    assert Registered(r, gid, pid) && GameOk(gid, r.games[gid]);
    assert Session.MembersValid(r.games[gid]);
  }

  // ---------------------------------------------------------------------
  // Lookups

  /** `getPlayer`. */
  function GetPlayer(r: Registry, pid: string): (res: Result<Session.Player>)
    ensures res.Ok? <==> pid in r.players
    ensures res.Ok? ==> res.value == r.players[pid]
    ensures res.Err? ==> res.error == PlayerNotFound
  {
    if pid in r.players then Ok(r.players[pid]) else Err(PlayerNotFound)
  }

  /** `getGame`. */
  function GetGame(r: Registry, gid: string): (res: Result<Session.Game>)
    ensures res.Ok? <==> gid in r.games
    ensures res.Ok? ==> res.value == r.games[gid]
    ensures res.Err? ==> res.error == GameNotFound
  {
    if gid in r.games then Ok(r.games[gid]) else Err(GameNotFound)
  }

  /** `getPlayerActiveGame`: an absent or empty mapping is reported before the game lookup. */
  function GetPlayerActiveGame(r: Registry, pid: string): (res: Result<Session.Game>)
    ensures pid !in r.playerGames || r.playerGames[pid] == "" ==> res == Err(NoActiveGame)
    ensures pid in r.playerGames && r.playerGames[pid] != "" ==> res == GetGame(r, r.playerGames[pid])
  {
    if pid !in r.playerGames || r.playerGames[pid] == "" then Err(NoActiveGame)
    else GetGame(r, r.playerGames[pid])
  }

  /** In a consistent registry a member's active game is the game they are in. */
  lemma MemberActiveGame(r: Registry, gid: string, pid: string)
    requires Consistent(r) && MemberOf(r, gid, pid)
    ensures GetPlayerActiveGame(r, pid) == Ok(r.games[gid])
  {
    assert Registered(r, gid, pid) && GameOk(gid, r.games[gid]);
  }

  /** `getGameStates`: the joinable games, those both public and pending. */
  function Joinable(r: Registry): (ids: set<string>)
    ensures forall gid :: gid in ids <==>
      gid in r.games && r.games[gid].visibility == Session.Public && r.games[gid].status == Session.Pending
  {
    set gid | gid in r.games && r.games[gid].visibility == Session.Public && r.games[gid].status == Session.Pending
  }

  // ---------------------------------------------------------------------
  // Identifiers

  const LowerHexDigits: string := "0123456789abcdef"
  const UpperHexDigits: string := "0123456789ABCDEF"

  /** `Buffer.toString('hex')`: two lower-case digits per byte, high nibble first. */
  function Hex(bytes: seq<byte>): (s: string)
    ensures |s| == 2 * |bytes|
    ensures forall i :: 0 <= i < |bytes| ==>
      s[2 * i] == LowerHexDigits[bytes[i] as int / 16] && s[2 * i + 1] == LowerHexDigits[bytes[i] as int % 16]
  {
    if bytes == [] then []
    else
      var b := bytes[0] as int;
      [LowerHexDigits[b / 16], LowerHexDigits[b % 16]] + Hex(bytes[1..])
  }

  /** `toUpperCase` on one character; only ASCII letters are mapped. */
  function UpperChar(c: char): (u: char)
    ensures 'a' <= c <= 'z' ==> u as int == c as int - 32
    ensures !('a' <= c <= 'z') ==> u == c
  {
    if 'a' <= c <= 'z' then (c as int - 32) as char else c
  }

  /** `String.prototype.toUpperCase`, ASCII letters only. */
  function ToUpper(s: string): (u: string)
    ensures |u| == |s|
    ensures forall i :: 0 <= i < |s| ==> u[i] == UpperChar(s[i])
  {
    seq(|s|, i requires 0 <= i < |s| => UpperChar(s[i]))
  }

  lemma UpperHexDigit(d: nat)
    requires d < 16
    ensures UpperChar(LowerHexDigits[d]) == UpperHexDigits[d]
  {
  }

  /**
   * `generateNewGameId`: three random bytes as upper-case hex. The retry
   * test `newGameId in activeGames` looks at the map object's properties,
   * not its keys, so it never retries and the first draw is the id.
   */
  function GenerateNewGameId(bytes: seq<byte>): (id: string)
    requires |bytes| == 3
    ensures |id| == 6 && id != ""
    ensures forall i :: 0 <= i < 3 ==>
      id[2 * i] == UpperHexDigits[bytes[i] as int / 16] && id[2 * i + 1] == UpperHexDigits[bytes[i] as int % 16]
  {
    var h := Hex(bytes);
    var id := ToUpper(h);
    forall i | 0 <= i < 3
      ensures id[2 * i] == UpperHexDigits[bytes[i] as int / 16] && id[2 * i + 1] == UpperHexDigits[bytes[i] as int % 16]
    {
      UpperHexDigit(bytes[i] as int / 16);
      UpperHexDigit(bytes[i] as int % 16);
    }
    id
  }

  /** Different bytes give different game ids. */
  lemma {:induction false} GameIdInjective(a: seq<byte>, b: seq<byte>)
    requires |a| == 3 && |b| == 3 && GenerateNewGameId(a) == GenerateNewGameId(b)
    ensures a == b
  {
    var id := GenerateNewGameId(a);
    forall i | 0 <= i < 3
      ensures a[i] == b[i]
    {
      var x, y := a[i] as int, b[i] as int;
      assert UpperHexDigits[x / 16] == UpperHexDigits[y / 16] == id[2 * i];
      assert UpperHexDigits[x % 16] == UpperHexDigits[y % 16] == id[2 * i + 1];
      HexDigitsDistinct(x / 16, y / 16);
      HexDigitsDistinct(x % 16, y % 16);
      assert x == 16 * (x / 16) + x % 16;
    }
  }

  lemma HexDigitsDistinct(d: nat, e: nat)
    requires d < 16 && e < 16 && UpperHexDigits[d] == UpperHexDigits[e]
    ensures d == e
  {
  }

  /** A generated game id is unchanged by the upper-casing `addPlayerToGame` applies. */
  lemma GameIdSurvivesUpper(bytes: seq<byte>)
    requires |bytes| == 3
    ensures ToUpper(GenerateNewGameId(bytes)) == GenerateNewGameId(bytes)
  {
    var id := GenerateNewGameId(bytes);
    forall i | 0 <= i < 3
      ensures UpperChar(id[2 * i]) == id[2 * i] && UpperChar(id[2 * i + 1]) == id[2 * i + 1]
    {
      UpperDigitFixed(bytes[i] as int / 16);
      UpperDigitFixed(bytes[i] as int % 16);
    }
    forall k | 0 <= k < 6
      ensures ToUpper(id)[k] == id[k]
    {
      assert k == 2 * (k / 2) || k == 2 * (k / 2) + 1;
    }
  }

  lemma UpperDigitFixed(d: nat)
    requires d < 16
    ensures UpperChar(UpperHexDigits[d]) == UpperHexDigits[d]
  {
  }

  /**
   * `generateNewPlayerId`: the first of the drawn UUIDs that is not a
   * registered player's id. The source draws until one is fresh; the draws
   * are given, and one of them is fresh.
   */
  method GenerateNewPlayerId(r: Registry, draws: seq<string>) returns (id: string)
    requires exists k :: 0 <= k < |draws| && draws[k] !in r.players
    ensures id !in r.players
    ensures exists k :: 0 <= k < |draws| && draws[k] == id && forall j :: 0 <= j < k ==> draws[j] in r.players
  {
    var k := 0;
    while draws[k] in r.players
      invariant 0 <= k < |draws|
      invariant forall j :: 0 <= j < k ==> draws[j] in r.players
      invariant exists m :: k <= m < |draws| && draws[m] !in r.players
      decreases |draws| - k
    {
      k := k + 1;
    }
    id := draws[k];
  }

  /** `registerNewPlayer`: a new player in no game under a fresh id; nothing else changes. */
  method RegisterNewPlayer(r: Registry, name: string, draws: seq<string>) returns (r': Registry, p: Session.Player)
    requires exists k :: 0 <= k < |draws| && draws[k] !in r.players
    ensures p.id !in r.players && p.name == name && p.info.None?
    ensures r' == r.(players := r.players[p.id := p])
    ensures Consistent(r) ==> Consistent(r')
  {
    var id := GenerateNewPlayerId(r, draws);
    p := Session.NewPlayer(id, name);
    r' := r.(players := r.players[id := p]);
    if Consistent(r) {
      forall h, m | MemberOf(r', h, m) ensures Registered(r', h, m) {
        assert Registered(r, h, m);
      }
    }
  }

  // ---------------------------------------------------------------------
  // Games

  /**
   * `generateNewGame`: create the game under a generated id and register
   * it; a generation error propagates and nothing is registered. A game
   * already registered under the same id is replaced.
   */
  function GenerateNewGame(r: Registry, idBytes: seq<byte>, playlist: Playlist, gameType: GameType,
                           visibility: Session.Visibility, options: Options, table: OptionTable,
                           preview: Preview, draws: Draws): (res: Result<(Registry, string)>)
    requires |idBytes| == 3
    ensures var gid := GenerateNewGameId(idBytes);
      var made := Session.NewInstance(gid, playlist, gameType, visibility, options, table, preview, draws);
      && (res.Err? <==> made.Err?)
      && (res.Ok? ==> res.value == (r.(games := r.games[gid := made.value]), gid))
  {
    var gid := GenerateNewGameId(idBytes);
    match Session.NewInstance(gid, playlist, gameType, visibility, options, table, preview, draws)
    case Err(e) => Err(e)
    case Ok(g) => Ok((r.(games := r.games[gid := g]), gid))
  }

  /** The id of the game a player's record names; the empty id when the record is null. */
  function NamedGame(p: Session.Player): string {
    if p.info.Some? then p.info.value.gameId else ""
  }

  /**
   * `removePlayerFromGame`: when the player's record names a game (a
   * non-empty id), remove the player from it, drop their mapping, and stop
   * the game if it is left empty; a game that cannot be found or does not
   * list the player is an error. In every case that does not fail, the
   * player's record is cleared; the mapping of a player whose record names
   * no game is left as it is.
   */
  function RemovePlayerFromGame(r: Registry, pid: string, cfg: Session.Config, now: int): (res: Result<Registry>)
    ensures pid !in r.players ==> res == Err(PlayerNotFound)
    ensures pid in r.players && NamedGame(r.players[pid]) == "" ==>
      && res.Ok? && res.value.games == r.games && res.value.playerGames == r.playerGames
      && res.value.players == r.players[pid := r.players[pid].(info := None)]
    ensures pid in r.players && NamedGame(r.players[pid]) != "" && NamedGame(r.players[pid]) !in r.games ==>
      res == Err(GameNotFound)
    ensures pid in r.players && NamedGame(r.players[pid]) != "" && NamedGame(r.players[pid]) in r.games ==>
      (res.Err? <==> !Session.IsMember(r.games[NamedGame(r.players[pid])], pid)) && (res.Err? ==> res.error == NotInGame)
    ensures res.Ok? ==> r.players.Keys <= res.value.players.Keys && res.value.games.Keys <= r.games.Keys
    ensures res.Ok? ==> res.value.players[pid].info.None?
    ensures res.Ok? && NamedGame(r.players[pid]) != "" ==> res.value.playerGames == r.playerGames - {pid}
  {
    if pid !in r.players then Err(PlayerNotFound)
    else
      var p := r.players[pid];
      if p.info.None? || p.info.value.gameId == "" then
        Ok(r.(players := r.players[pid := p.(info := None)]))
      else
        var gid := p.info.value.gameId;
        if gid !in r.games then Err(GameNotFound)
        else
          match Session.RemovePlayer(r.games[gid], pid, cfg, now)
          case Err(e) => Err(e)
          case Ok((g', q)) => Ok(AfterRemoval(r, gid, pid, g', q))
  }

  /**
   * A removal that succeeds changes only the game the player's record
   * names: no other game, and no player outside that game but the player.
   */
  lemma RemovalFrame(r: Registry, pid: string, cfg: Session.Config, now: int)
    ensures var res := RemovePlayerFromGame(r, pid, cfg, now);
      res.Ok? ==>
        var left := NamedGame(r.players[pid]);
        && (forall h :: h in res.value.games ==> res.value.games[h].players.Keys <= r.games[h].players.Keys)
        && (forall h :: h in r.games && h != left ==> h in res.value.games && res.value.games[h] == r.games[h])
        && (forall q :: q in r.players && q != pid && !MemberOf(r, left, q) ==> res.value.players[q] == r.players[q])
  {
    var res := RemovePlayerFromGame(r, pid, cfg, now);
    if res.Ok? && NamedGame(r.players[pid]) != "" {
      var gid := NamedGame(r.players[pid]);
      var g', q := Session.RemovePlayer(r.games[gid], pid, cfg, now).value.0, Session.RemovePlayer(r.games[gid], pid, cfg, now).value.1;
      assert res.value == AfterRemoval(r, gid, pid, g', q);
      RemovalFrameOf(r, gid, pid, g', q);
    }
  }

  /** The frame of `AfterRemoval`, given the keys of the game left. */
  lemma RemovalFrameOf(r: Registry, gid: string, pid: string, g': Session.Game, q: Session.Player)
    requires gid in r.games && g'.players.Keys == r.games[gid].players.Keys - {pid}
    ensures var r' := AfterRemoval(r, gid, pid, g', q);
      && (forall h :: h in r'.games ==> r'.games[h].players.Keys <= r.games[h].players.Keys)
      && (forall h :: h in r.games && h != gid ==> h in r'.games && r'.games[h] == r.games[h])
      && (forall m :: m in r.players && m != pid && !MemberOf(r, gid, m) ==> r'.players[m] == r.players[m])
  {
    RemovalShrinksGames(r, gid, pid, g', q);
    RemovalKeepsOtherGames(r, gid, pid, g', q);
    RemovalKeepsOtherPlayers(r, gid, pid, g', q);
  }

  lemma RemovalShrinksGames(r: Registry, gid: string, pid: string, g': Session.Game, q: Session.Player)
    requires gid in r.games && g'.players.Keys == r.games[gid].players.Keys - {pid}
    ensures var r' := AfterRemoval(r, gid, pid, g', q);
      forall h :: h in r'.games ==> r'.games[h].players.Keys <= r.games[h].players.Keys
  {
  }

  lemma RemovalKeepsOtherGames(r: Registry, gid: string, pid: string, g': Session.Game, q: Session.Player)
    requires gid in r.games
    ensures var r' := AfterRemoval(r, gid, pid, g', q);
      forall h :: h in r.games && h != gid ==> h in r'.games && r'.games[h] == r.games[h]
  {
  }

  lemma RemovalKeepsOtherPlayers(r: Registry, gid: string, pid: string, g': Session.Game, q: Session.Player)
    requires gid in r.games && g'.players.Keys == r.games[gid].players.Keys - {pid}
    ensures var r' := AfterRemoval(r, gid, pid, g', q);
      forall m :: m in r.players && m != pid && !MemberOf(r, gid, m) ==> r'.players[m] == r.players[m]
  {
    forall m | m in r.players && m != pid && !MemberOf(r, gid, m) ensures m !in g'.players {
    }
  }

  /** A member of a registered game is removed from exactly that game; every other game and player is untouched. */
  lemma RemoveMember(r: Registry, gid: string, pid: string, cfg: Session.Config, now: int)
    requires Consistent(r) && MemberOf(r, gid, pid)
    ensures var res := RemovePlayerFromGame(r, pid, cfg, now);
      && res.Ok?
      && var r' := res.value;
      && Consistent(r')
      && (gid in r'.games <==> r.games[gid].players.Keys != {pid})
      && (gid in r'.games ==> r'.games[gid].players.Keys == r.games[gid].players.Keys - {pid})
      && (forall h :: h in r.games && h != gid ==> h in r'.games && r'.games[h] == r.games[h])
      && (forall q :: q in r.players && q != pid && !MemberOf(r, gid, q) ==> r'.players[q] == r.players[q])
      && r'.players[pid] == r.players[pid].(info := None)
      && r'.players.Keys == r.players.Keys
      && r'.playerGames == r.playerGames - {pid}
  {
    var g := r.games[gid];
    var g', q := RemoveMemberShape(r, gid, pid, cfg, now);
    AfterRemovalFacts(r, gid, pid, g', q);
  }

  /** The registry after member `pid` left game `gid`, which became `g'`. */
  function AfterRemoval(r: Registry, gid: string, pid: string, g': Session.Game, q: Session.Player): Registry {
    var r1 := Registry(r.games[gid := g'], (r.players + g'.players)[pid := q], r.playerGames - {pid});
    if |g'.players| == 0 then r1.(games := r1.games - {gid}) else r1
  }

  lemma RemoveMemberShape(r: Registry, gid: string, pid: string, cfg: Session.Config, now: int)
      returns (g': Session.Game, q: Session.Player)
    requires Consistent(r) && MemberOf(r, gid, pid)
    ensures Session.Valid(g') && g'.id == gid && g'.players.Keys == r.games[gid].players.Keys - {pid}
    ensures RemovePlayerFromGame(r, pid, cfg, now) == Ok(AfterRemoval(r, gid, pid, g', q))
    ensures q == r.players[pid].(info := None)
  {
    MemberRecordNamesGame(r, gid, pid);
    var g := r.games[gid];
    assert GameOk(gid, g) && Registered(r, gid, pid);
    Session.RemovePlayerValid(g, pid, cfg, now);
    g', q := Session.RemovePlayer(g, pid, cfg, now).value.0, Session.RemovePlayer(g, pid, cfg, now).value.1;
  }

  lemma AfterRemovalFacts(r: Registry, gid: string, pid: string, g': Session.Game, q: Session.Player)
    requires Consistent(r) && MemberOf(r, gid, pid)
    requires Session.Valid(g') && g'.id == gid && g'.players.Keys == r.games[gid].players.Keys - {pid}
    requires q == r.players[pid].(info := None)
    ensures var r' := AfterRemoval(r, gid, pid, g', q);
      && Consistent(r')
      && (gid in r'.games <==> r.games[gid].players.Keys != {pid})
      && (gid in r'.games ==> r'.games[gid].players.Keys == r.games[gid].players.Keys - {pid})
      && (forall h :: h in r.games && h != gid ==> h in r'.games && r'.games[h] == r.games[h])
      && (forall q' :: q' in r.players && q' != pid && !MemberOf(r, gid, q') ==> r'.players[q'] == r.players[q'])
      && r'.players[pid] == r.players[pid].(info := None)
      && r'.players.Keys == r.players.Keys
      && r'.playerGames == r.playerGames - {pid}
  {
    assert Registered(r, gid, pid);
    forall m | m in g'.players ensures m in r.players {
      assert MemberOf(r, gid, m) && Registered(r, gid, m);
    }
    AfterRemovalTables(r, gid, pid, g', q);
    assert Session.MembersValid(g');
    RemovedConsistent(r, gid, pid, g', q);
  }

  lemma AfterRemovalTables(r: Registry, gid: string, pid: string, g': Session.Game, q: Session.Player)
    requires gid in r.games && pid in r.games[gid].players && pid in r.players
    requires g'.players.Keys == r.games[gid].players.Keys - {pid} && g'.players.Keys <= r.players.Keys
    requires q == r.players[pid].(info := None)
    ensures var r' := AfterRemoval(r, gid, pid, g', q);
      && (gid in r'.games <==> r.games[gid].players.Keys != {pid})
      && (gid in r'.games ==> r'.games[gid].players.Keys == r.games[gid].players.Keys - {pid})
      && (forall h :: h in r.games && h != gid ==> h in r'.games && r'.games[h] == r.games[h])
      && (forall q' :: q' in r.players && q' != pid && !MemberOf(r, gid, q') ==> r'.players[q'] == r.players[q'])
      && r'.players[pid] == r.players[pid].(info := None)
      && r'.players.Keys == r.players.Keys
      && r'.playerGames == r.playerGames - {pid}
  {
    var r1 := Registry(r.games[gid := g'], (r.players + g'.players)[pid := q], r.playerGames - {pid});
    assert r1.players.Keys == r.players.Keys;
    assert g'.players.Keys == {} <==> r.games[gid].players.Keys == {pid};
    assert |g'.players| == 0 <==> g'.players.Keys == {};
    forall q' | q' in r.players && q' != pid && !MemberOf(r, gid, q') ensures r1.players[q'] == r.players[q'] {
      assert q' !in g'.players;
    }
    if |g'.players| == 0 {
      assert AfterRemoval(r, gid, pid, g', q) == r1.(games := r1.games - {gid});
    } else {
      assert AfterRemoval(r, gid, pid, g', q) == r1;
    }
  }

  lemma RemovedConsistent(r: Registry, gid: string, pid: string, g': Session.Game, q: Session.Player)
    requires Consistent(r) && MemberOf(r, gid, pid)
    requires Session.Valid(g') && g'.id == gid && g'.players.Keys == r.games[gid].players.Keys - {pid}
    requires forall m :: m in g'.players ==> g'.players[m].id == m
    requires q.id == pid
    ensures var r1 := Registry(r.games[gid := g'], (r.players + g'.players)[pid := q], r.playerGames - {pid});
      Consistent(r1) && Consistent(r1.(games := r1.games - {gid}))
  {
    var r1 := Registry(r.games[gid := g'], (r.players + g'.players)[pid := q], r.playerGames - {pid});
    var r2 := r1.(games := r1.games - {gid});
    assert GameOk(gid, r.games[gid]);
    forall h | h in r1.games ensures GameOk(h, r1.games[h]) {
      if h != gid {
        assert GameOk(h, r.games[h]);
      }
    }
    forall h, m | MemberOf(r1, h, m) ensures Registered(r1, h, m) {
      assert MemberOf(r, h, m);
      assert Registered(r, h, m);
      if h != gid && m in g'.players {
        assert MemberOf(r, gid, m);
        OneGamePerPlayer(r, h, gid, m);
      }
    }
    forall h, m | MemberOf(r2, h, m) ensures Registered(r2, h, m) {
      assert MemberOf(r1, h, m);
    }
    forall m | m in r1.players ensures r1.players[m].id == m {
      if m in g'.players && m != pid {
        assert MemberOf(r, gid, m);
      }
    }
  }

  /**
   * `addPlayerToGame`: look up the player and the upper-cased game id,
   * remove the player from their current game (a failure there is
   * swallowed), add them and record the mapping. When the player was the
   * only member of that same game, the removal stops and unregisters it,
   * and the player is added to the detached, ended game object: their
   * record and mapping then name a game that is no longer registered.
   */
  function AddPlayerToGame(r: Registry, pid: string, gameId: string, cfg: Session.Config, now: int): (res: Result<Registry>)
    ensures pid !in r.players ==> res == Err(PlayerNotFound)
    ensures pid in r.players && ToUpper(gameId) !in r.games ==> res == Err(GameNotFound)
    ensures res.Ok? <==> pid in r.players && ToUpper(gameId) in r.games
    ensures res.Ok? ==> var gid := ToUpper(gameId);
      && pid in res.value.players && res.value.players[pid].info.Some?
      && res.value.players[pid].info.value.gameId == r.games[gid].id
      && pid in res.value.playerGames
      && (gid in res.value.games ==> res.value.playerGames[pid] == res.value.games[gid].id)
  {
    if pid !in r.players then Err(PlayerNotFound)
    else
      var gid := ToUpper(gameId);
      if gid !in r.games then Err(GameNotFound)
      else
        var G := r.games[gid];
        var r1 := match RemovePlayerFromGame(r, pid, cfg, now) case Ok(x) => x case Err(_) => r;
        var p := r1.players[pid];
        if gid in r1.games then
          var g' := Session.AddPlayer(r1.games[gid], p, cfg, now);
          Ok(Registry(r1.games[gid := g'], (r1.players + g'.players)[pid := g'.players[p.id]], r1.playerGames[pid := g'.id]))
        else
          Ok(r1.(players := r1.players[pid := p.(info := Some(Session.ActiveInfo(G.id, false, Nulls(|G.rounds|))))],
                 playerGames := r1.playerGames[pid := G.id]))
  }

  /** `stopGame` for a game with no members: it is ended and unregistered. */
  function StopEmptyGame(r: Registry, gid: string): (res: Result<Registry>)
    ensures gid !in r.games ==> res == Err(GameNotFound)
    ensures res.Ok? ==> res.value == r.(games := r.games - {gid})
  {
    if gid !in r.games then Err(GameNotFound) else Ok(r.(games := r.games - {gid}))
  }

  /**
   * `stopGame`: remove every member, in the order the game's player table
   * lists them, end the game and unregister it. The last removal already
   * stops and unregisters the emptied game; the outer stop then finds it
   * gone, which changes nothing.
   */
  method StopGame(r: Registry, gid: string, order: seq<string>, cfg: Session.Config, now: int) returns (res: Result<Registry>)
    requires gid in r.games ==> Distinct(order) && forall pid :: pid in order <==> pid in r.games[gid].players
    ensures gid !in r.games ==> res == Err(GameNotFound)
    ensures gid in r.games ==> res.Ok? && gid !in res.value.games
    ensures Consistent(r) && res.Ok? ==>
      && Consistent(res.value)
      && res.value.players.Keys == r.players.Keys
      && res.value.games.Keys == r.games.Keys - {gid}
      && (forall h :: h in r.games && h != gid ==> res.value.games[h] == r.games[h])
      && (forall pid :: pid in order ==> pid in res.value.players && res.value.players[pid].info.None? && pid !in res.value.playerGames)
      && (forall q :: q in r.players && q !in order ==> res.value.players[q] == r.players[q])
  {
    if gid !in r.games {
      return Err(GameNotFound);
    }
    ghost var c := Consistent(r);
    if c {
      assert order[0..] == order;
    }
    var cur := r;
    for i := 0 to |order|
      invariant c ==> StopInv(r, gid, order, i, cur)
    {
      if c {
        StopStep(r, gid, order, i, cur, cfg, now);
      }
      cur := Detach(cur, order[i], cfg, now);
    }
    var r' := cur.(games := cur.games - {gid});
    if c {
      StopFinish(r, gid, order, cur);
    }
    return Ok(r');
  }

  /** The state of `stopGame`'s loop after the first `i` members were removed. */
  ghost predicate StopInv(r: Registry, gid: string, order: seq<string>, i: nat, cur: Registry)
    requires i <= |order|
  {
    Consistent(cur) && StopTables(r, gid, order, i, cur)
  }

  ghost predicate StopTables(r: Registry, gid: string, order: seq<string>, i: nat, cur: Registry)
    requires i <= |order|
  {
    && cur.players.Keys == r.players.Keys
    && cur.games.Keys - {gid} == r.games.Keys - {gid}
    && (forall h :: h in r.games && h != gid ==> h in cur.games && cur.games[h] == r.games[h])
    && (gid in cur.games <==> i < |order| || |order| == 0)
    && (gid in cur.games ==> forall pid :: pid in cur.games[gid].players <==> pid in order[i..])
    && (forall j :: 0 <= j < i ==> order[j] in cur.players && cur.players[order[j]].info.None? && order[j] !in cur.playerGames)
    && (forall q :: q in r.players && q !in order ==> cur.players[q] == r.players[q])
  }

  lemma StopStep(r: Registry, gid: string, order: seq<string>, i: nat, cur: Registry, cfg: Session.Config, now: int)
    requires Distinct(order) && i < |order| && StopInv(r, gid, order, i, cur)
    ensures StopInv(r, gid, order, i + 1, Detach(cur, order[i], cfg, now))
  {
    var pid := order[i];
    assert pid in order[i..];
    RemoveMember(cur, gid, pid, cfg, now);
    var cur' := Detach(cur, pid, cfg, now);
    assert cur' == RemovePlayerFromGame(cur, pid, cfg, now).value;
    assert MemberOf(cur, gid, pid) && Registered(cur, gid, pid);
    StopStepTables(r, gid, order, i, cur, cur');
  }

  /** What removing one member `pid` of game `gid` does to the tables, as `RemoveMember` states it. */
  ghost predicate OneRemoved(cur: Registry, cur': Registry, gid: string, pid: string)
    requires gid in cur.games
  {
    && pid in cur.players
    && cur'.players.Keys == cur.players.Keys
    && (gid in cur'.games <==> cur.games[gid].players.Keys != {pid})
    && (gid in cur'.games ==> cur'.games[gid].players.Keys == cur.games[gid].players.Keys - {pid})
    && (forall h :: h in cur.games && h != gid ==> h in cur'.games && cur'.games[h] == cur.games[h])
    && (forall q :: q in cur.players && q != pid && !MemberOf(cur, gid, q) ==> cur'.players[q] == cur.players[q])
    && cur'.players[pid] == cur.players[pid].(info := None)
    && cur'.playerGames == cur.playerGames - {pid}
    && cur'.games.Keys <= cur.games.Keys
  }

  /** The table part of one step of `stopGame`'s loop, given what removing one member does. */
  lemma StopStepTables(r: Registry, gid: string, order: seq<string>, i: nat, cur: Registry, cur': Registry)
    requires Distinct(order) && i < |order| && StopTables(r, gid, order, i, cur)
    requires gid in cur.games && OneRemoved(cur, cur', gid, order[i])
    ensures StopTables(r, gid, order, i + 1, cur')
  {
    StopStepGames(r, gid, order, i, cur, cur');
    StopStepPlayers(r, gid, order, i, cur, cur');
  }

  lemma StopStepGames(r: Registry, gid: string, order: seq<string>, i: nat, cur: Registry, cur': Registry)
    requires Distinct(order) && i < |order| && StopTables(r, gid, order, i, cur)
    requires gid in cur.games && OneRemoved(cur, cur', gid, order[i])
    ensures cur'.games.Keys - {gid} == r.games.Keys - {gid}
    ensures forall h :: h in r.games && h != gid ==> h in cur'.games && cur'.games[h] == r.games[h]
    ensures gid in cur'.games <==> i + 1 < |order|
    ensures gid in cur'.games ==> forall m :: m in cur'.games[gid].players <==> m in order[i + 1..]
  {
    var pid := order[i];
    assert pid in order[i..];
    OrderTail(order, i);
    if i + 1 < |order| {
      assert order[i + 1] in order[i..] && order[i + 1] != pid;
    } else {
      assert forall m :: m in cur.games[gid].players <==> m == pid;
    }
  }

  lemma StopStepPlayers(r: Registry, gid: string, order: seq<string>, i: nat, cur: Registry, cur': Registry)
    requires Distinct(order) && i < |order| && StopTables(r, gid, order, i, cur)
    requires gid in cur.games && OneRemoved(cur, cur', gid, order[i])
    ensures cur'.players.Keys == r.players.Keys
    ensures forall j :: 0 <= j < i + 1 ==> order[j] in cur'.players && cur'.players[order[j]].info.None? && order[j] !in cur'.playerGames
    ensures forall q :: q in r.players && q !in order ==> cur'.players[q] == r.players[q]
  {
    var pid := order[i];
    forall j | 0 <= j < i
      ensures order[j] in cur'.players && cur'.players[order[j]].info.None? && order[j] !in cur'.playerGames
    {
      assert order[j] !in order[i..];
      assert !MemberOf(cur, gid, order[j]);
    }
    forall q | q in r.players && q !in order ensures cur'.players[q] == r.players[q] {
      assert q !in order[i..];
    }
  }

  /** Dropping the head of a duplicate-free suffix drops exactly that element. */
  lemma OrderTail(order: seq<string>, i: nat)
    requires Distinct(order) && i < |order|
    ensures forall m :: m in order[i + 1..] <==> m in order[i..] && m != order[i]
  {
    forall m ensures m in order[i + 1..] <==> m in order[i..] && m != order[i] {
      if m in order[i..] && m != order[i] {
        var k :| i <= k < |order| && order[k] == m;
        assert k != i;
        assert order[i + 1..][k - i - 1] == m;
      }
    }
  }

  lemma StopFinish(r: Registry, gid: string, order: seq<string>, cur: Registry)
    requires StopInv(r, gid, order, |order|, cur)
    ensures var r' := cur.(games := cur.games - {gid});
      && Consistent(r')
      && r'.players.Keys == r.players.Keys
      && (forall pid :: pid in order ==> pid in r'.players && r'.players[pid].info.None? && pid !in r'.playerGames)
  {
    var r' := cur.(games := cur.games - {gid});
    forall h, m | MemberOf(r', h, m) ensures Registered(r', h, m) {
      assert MemberOf(cur, h, m) && Registered(cur, h, m);
    }
    forall pid | pid in order ensures pid in r'.players && r'.players[pid].info.None? && pid !in r'.playerGames {
      var j :| 0 <= j < |order| && order[j] == pid;
    }
  }

  /**
   * `killPlayer`: remove the player from their game (a failure there is
   * swallowed), then delete them; only an unregistered player is an error.
   * Closing the connection is not part of this model.
   */
  function KillPlayer(r: Registry, pid: string, cfg: Session.Config, now: int): (res: Result<Registry>)
    ensures res.Ok? <==> pid in r.players
    ensures res.Err? ==> res.error == PlayerNotFound
    ensures res.Ok? ==> pid !in res.value.players && r.players.Keys - {pid} <= res.value.players.Keys
  {
    var r1 := match RemovePlayerFromGame(r, pid, cfg, now) case Ok(x) => x case Err(_) => r;
    if pid !in r1.players then Err(PlayerNotFound) else Ok(r1.(players := r1.players - {pid}))
  }

  /** A game event (anything but joining or leaving) applied to a registered game, members written back. */
  function PlayEvent(r: Registry, gid: string, e: Session.Event, env: Session.Env, cfg: Session.Config): (res: Result<Registry>)
    requires !e.Join? && !e.Leave?
    ensures gid !in r.games ==> res == Err(GameNotFound)
    ensures gid in r.games ==> (res.Err? <==> Session.Step(r.games[gid], e, env, cfg).Err?)
    ensures res.Ok? ==> res.value.games == r.games[gid := Session.Step(r.games[gid], e, env, cfg).value]
    ensures res.Ok? ==> res.value.playerGames == r.playerGames && r.players.Keys <= res.value.players.Keys
  {
    if gid !in r.games then Err(GameNotFound)
    else
      match Session.Step(r.games[gid], e, env, cfg)
      case Err(err) => Err(err)
      case Ok(g') =>
        Ok(r.(games := r.games[gid := g'], players := r.players + g'.players))
  }

  /**
   * A game event changes no player record outside that game: the game's
   * members take their records from the updated game, everyone else keeps
   * theirs, and no player is added or dropped.
   */
  lemma PlayFrame(r: Registry, gid: string, e: Session.Event, env: Session.Env, cfg: Session.Config)
    requires !e.Join? && !e.Leave?
    ensures var res := PlayEvent(r, gid, e, env, cfg);
      res.Ok? ==>
        && res.value.players.Keys == r.players.Keys + r.games[gid].players.Keys
        && (forall q :: q in r.players && q !in r.games[gid].players ==> res.value.players[q] == r.players[q])
        && (forall q :: q in r.games[gid].players ==> res.value.players[q] == res.value.games[gid].players[q])
  {
    var res := PlayEvent(r, gid, e, env, cfg);
    if res.Ok? {
      var g' := Session.Step(r.games[gid], e, env, cfg).value;
      Session.StepKeepsMembers(r.games[gid], e, env, cfg);
      assert res.value.players == r.players + g'.players;
      UnionParts(r.players, g'.players);
    }
  }

  /**
   * Writing a game back, with its members' records and a new mapping table,
   * keeps the registry consistent when the game's members are mapped to it
   * and every member of another game keeps its mapping and is not in it.
   */
  lemma WriteBack(r: Registry, gid: string, g': Session.Game, pg: map<string, string>)
    requires Consistent(r) && gid in r.games && GameOk(gid, g')
    requires forall m :: m in g'.players ==> m in pg && pg[m] == gid
    requires forall h, m :: MemberOf(r, h, m) && h != gid ==> m !in g'.players && m in pg && pg[m] == h
    ensures Consistent(Registry(r.games[gid := g'], r.players + g'.players, pg))
  {
    var r' := Registry(r.games[gid := g'], r.players + g'.players, pg);
    assert Session.MembersValid(g');
    forall h | h in r'.games ensures GameOk(h, r'.games[h]) {
      if h != gid {
        assert GameOk(h, r.games[h]);
      }
    }
    forall h, m | MemberOf(r', h, m) ensures Registered(r', h, m) {
      if h != gid {
        assert MemberOf(r, h, m);
        assert Registered(r, h, m);
      }
    }
  }

  /** A game event keeps the registry consistent. */
  lemma PlayedConsistent(r: Registry, gid: string, e: Session.Event, env: Session.Env, cfg: Session.Config)
    requires Consistent(r) && !e.Join? && !e.Leave?
    ensures PlayEvent(r, gid, e, env, cfg).Ok? ==> Consistent(PlayEvent(r, gid, e, env, cfg).value)
  {
    if gid in r.games && Session.Step(r.games[gid], e, env, cfg).Ok? {
      var g := r.games[gid];
      var g' := Session.Step(g, e, env, cfg).value;
      Session.StepKeepsMembers(g, e, env, cfg);
      assert GameOk(gid, g);
      Session.StepValid(g, e, env, cfg);
      forall m | m in g'.players ensures m in r.playerGames && r.playerGames[m] == gid {
        assert MemberOf(r, gid, m) && Registered(r, gid, m);
      }
      forall h, m | MemberOf(r, h, m) && h != gid
        ensures m !in g'.players && m in r.playerGames && r.playerGames[m] == h
      {
        assert Registered(r, h, m);
      }
      WriteBack(r, gid, g', r.playerGames);
    }
  }

  /** In a consistent registry a game event neither adds nor drops a player. */
  lemma PlayKeepsPlayers(r: Registry, gid: string, e: Session.Event, env: Session.Env, cfg: Session.Config)
    requires Consistent(r) && !e.Join? && !e.Leave?
    ensures PlayEvent(r, gid, e, env, cfg).Ok? ==> PlayEvent(r, gid, e, env, cfg).value.players.Keys == r.players.Keys
  {
    if PlayEvent(r, gid, e, env, cfg).Ok? {
      PlayFrame(r, gid, e, env, cfg);
      forall m | m in r.games[gid].players ensures m in r.players {
        assert MemberOf(r, gid, m) && Registered(r, gid, m);
      }
    }
  }

  /** The removal `addPlayerToGame` and `killPlayer` make, with its failure swallowed. */
  function Detach(r: Registry, pid: string, cfg: Session.Config, now: int): Registry {
    match RemovePlayerFromGame(r, pid, cfg, now) case Ok(x) => x case Err(_) => r
  }

  /**
   * After the swallowed removal a registered player is in no registered
   * game, still registered under the same id, and the registry is consistent.
   */
  lemma DetachConsistent(r: Registry, pid: string, cfg: Session.Config, now: int)
    requires Consistent(r) && pid in r.players
    ensures var r1 := Detach(r, pid, cfg, now);
      && Consistent(r1) && pid in r1.players && r1.players[pid].id == pid
      && r1.players[pid].name == r.players[pid].name
      && (forall h :: !MemberOf(r1, h, pid))
  {
    var r1 := Detach(r, pid, cfg, now);
    if h :| MemberOf(r, h, pid) {
      RemoveMember(r, h, pid, cfg, now);
      forall h' | MemberOf(r1, h', pid) ensures false {
        if h' != h {
          assert MemberOf(r, h', pid);
          OneGamePerPlayer(r, h, h', pid);
        }
      }
    } else {
      var p := r.players[pid];
      if p.info.Some? && p.info.value.gameId != "" && p.info.value.gameId in r.games {
        assert !MemberOf(r, p.info.value.gameId, pid);
        assert Session.RemovePlayer(r.games[p.info.value.gameId], pid, cfg, now).Err?;
      }
      forall h, m | MemberOf(r1, h, m) ensures Registered(r1, h, m) {
        assert MemberOf(r, h, m) && Registered(r, h, m);
      }
    }
  }

  /** Joining keeps the registry consistent; unless the game was stopped on the way, the player is then its member. */
  lemma JoinConsistent(r: Registry, pid: string, gameId: string, cfg: Session.Config, now: int)
    requires Consistent(r)
    ensures var res := AddPlayerToGame(r, pid, gameId, cfg, now);
      res.Ok? ==> Consistent(res.value) && (ToUpper(gameId) in res.value.games ==> MemberOf(res.value, ToUpper(gameId), pid))
  {
    var gid := ToUpper(gameId);
    if pid in r.players && gid in r.games {
      var r1 := Detach(r, pid, cfg, now);
      DetachConsistent(r, pid, cfg, now);
      if gid in r1.games {
        JoinAfterDetach(r1, pid, gid, cfg, now);
      } else {
        JoinDetachedGame(r1, pid, r.games[gid]);
      }
    }
  }

  /**
   * What a join leaves alone: every game other than the one the player
   * left and the one they joined, every player outside those two games,
   * and every mapping but the player's own, which now names the game joined.
   */
  lemma JoinFrame(r: Registry, pid: string, gameId: string, cfg: Session.Config, now: int)
    requires Consistent(r)
    ensures var res := AddPlayerToGame(r, pid, gameId, cfg, now);
      res.Ok? ==>
        var gid := ToUpper(gameId);
        var left := NamedGame(r.players[pid]);
        && res.value.players.Keys == r.players.Keys
        && res.value.playerGames == r.playerGames[pid := gid]
        && (forall h :: h in r.games && h != gid && h != left ==> h in res.value.games && res.value.games[h] == r.games[h])
        && (forall q :: q in r.players && q != pid && !MemberOf(r, left, q) && !MemberOf(r, gid, q) ==>
              res.value.players[q] == r.players[q])
  {
    var gid := ToUpper(gameId);
    if pid in r.players && gid in r.games {
      var r1 := Detach(r, pid, cfg, now);
      DetachConsistent(r, pid, cfg, now);
      DetachFrame(r, pid, cfg, now);
      assert GameOk(gid, r.games[gid]);
      var res := AddPlayerToGame(r, pid, gameId, cfg, now);
      if gid in r1.games {
        var p := r1.players[pid];
        var g' := Session.AddPlayer(r1.games[gid], p, cfg, now);
        assert res == Ok(Registry(r1.games[gid := g'], (r1.players + g'.players)[pid := g'.players[p.id]], r1.playerGames[pid := g'.id]));
        assert GameOk(gid, r1.games[gid]);
        JoinLiveFrame(r, r1, pid, gid, g');
      } else {
        var G := r.games[gid];
        var p := r1.players[pid];
        assert res == Ok(r1.(players := r1.players[pid := p.(info := Some(Session.ActiveInfo(G.id, false, Nulls(|G.rounds|))))],
                             playerGames := r1.playerGames[pid := G.id]));
        SameOutsidePid(r1.playerGames, r.playerGames, pid, gid);
      }
    }
  }

  /** Two tables that agree except at `pid` agree once `pid` is set in both. */
  lemma SameOutsidePid(a: map<string, string>, b: map<string, string>, pid: string, v: string)
    requires a - {pid} == b - {pid}
    ensures a[pid := v] == b[pid := v]
  {
    forall k | k != pid && k in a ensures k in b && b[k] == a[k] {
      assert k in a - {pid};
      assert (a - {pid})[k] == a[k] && (b - {pid})[k] == b[k];
    }
    forall k | k != pid && k in b ensures k in a {
      assert k in b - {pid};
    }
  }

  /** The frame of writing back a live game `gid` that gained `pid`, after the removal that gave `r1`. */
  lemma JoinLiveFrame(r: Registry, r1: Registry, pid: string, gid: string, g': Session.Game)
    requires Consistent(r1) && pid in r.players && gid in r1.games && g'.id == gid
    requires g'.players.Keys == r1.games[gid].players.Keys + {pid}
    requires var left := NamedGame(r.players[pid]);
      && r1.players.Keys == r.players.Keys
      && r1.playerGames - {pid} == r.playerGames - {pid}
      && (forall h :: h in r1.games ==> h in r.games && r1.games[h].players.Keys <= r.games[h].players.Keys)
      && (forall h :: h in r.games && h != left ==> h in r1.games && r1.games[h] == r.games[h])
      && (forall q :: q in r.players && q != pid && !MemberOf(r, left, q) ==> r1.players[q] == r.players[q])
    ensures var res := Registry(r1.games[gid := g'], (r1.players + g'.players)[pid := g'.players[pid]], r1.playerGames[pid := g'.id]);
      var left := NamedGame(r.players[pid]);
      && res.players.Keys == r.players.Keys
      && res.playerGames == r.playerGames[pid := gid]
      && (forall h :: h in r.games && h != gid && h != left ==> h in res.games && res.games[h] == r.games[h])
      && (forall q :: q in r.players && q != pid && !MemberOf(r, left, q) && !MemberOf(r, gid, q) ==>
            res.players[q] == r.players[q])
  {
    var left := NamedGame(r.players[pid]);
    forall q | q in r1.games[gid].players ensures q in r1.players {
      assert MemberOf(r1, gid, q) && Registered(r1, gid, q);
    }
    forall q | q in r.players && q != pid && !MemberOf(r, left, q) && !MemberOf(r, gid, q)
      ensures q !in g'.players
    {
      assert q !in r1.games[gid].players;
    }
    SameOutsidePid(r1.playerGames, r.playerGames, pid, gid);
  }

  /** The swallowed removal keeps the tables' keys, touches only the game left, and leaves other mappings alone. */
  lemma DetachFrame(r: Registry, pid: string, cfg: Session.Config, now: int)
    requires Consistent(r) && pid in r.players
    ensures var r1 := Detach(r, pid, cfg, now);
      var left := NamedGame(r.players[pid]);
      && r1.players.Keys == r.players.Keys
      && r1.playerGames - {pid} == r.playerGames - {pid}
      && (forall h :: h in r1.games ==> h in r.games && r1.games[h].players.Keys <= r.games[h].players.Keys)
      && (forall h :: h in r.games && h != left ==> h in r1.games && r1.games[h] == r.games[h])
      && (forall q :: q in r.players && q != pid && !MemberOf(r, left, q) ==> r1.players[q] == r.players[q])
  {
    var res := RemovePlayerFromGame(r, pid, cfg, now);
    var left := NamedGame(r.players[pid]);
    if res.Err? {
      assert Detach(r, pid, cfg, now) == r;
    } else if left == "" {
      assert Detach(r, pid, cfg, now) == r.(players := r.players[pid := r.players[pid].(info := None)]);
    } else {
      var g := r.games[left];
      var g', q := Session.RemovePlayer(g, pid, cfg, now).value.0, Session.RemovePlayer(g, pid, cfg, now).value.1;
      assert Detach(r, pid, cfg, now) == AfterRemoval(r, left, pid, g', q);
      RemovalFrameOf(r, left, pid, g', q);
      forall m | m in g.players ensures m in r.players {
        assert MemberOf(r, left, m) && Registered(r, left, m);
      }
      RemovalPlayerKeys(r, left, pid, g', q);
      assert (r.playerGames - {pid}) - {pid} == r.playerGames - {pid};
    }
  }

  lemma RemovalPlayerKeys(r: Registry, gid: string, pid: string, g': Session.Game, q: Session.Player)
    requires pid in r.players
    ensures AfterRemoval(r, gid, pid, g', q).players.Keys == r.players.Keys + g'.players.Keys
  {
    var union := r.players + g'.players;
    var r1 := Registry(r.games[gid := g'], union[pid := q], r.playerGames - {pid});
    if |g'.players| == 0 {
      assert AfterRemoval(r, gid, pid, g', q) == r1.(games := r1.games - {gid});
    } else {
      assert AfterRemoval(r, gid, pid, g', q) == r1;
    }
    UnionUpdateKeys(r.players, g'.players, pid, q);
  }

  /** A map union holds the keys of both, the right-hand value where they overlap. */
  lemma UnionParts<V>(a: map<string, V>, b: map<string, V>)
    ensures (a + b).Keys == a.Keys + b.Keys
    ensures forall q :: q in a && q !in b ==> (a + b)[q] == a[q]
    ensures forall q :: q in b ==> (a + b)[q] == b[q]
  {
  }

  lemma UnionUpdateKeys<V>(a: map<string, V>, b: map<string, V>, k: string, v: V)
    requires k in a
    ensures (a + b)[k := v].Keys == a.Keys + b.Keys
  {
    assert (a + b).Keys == a.Keys + b.Keys;
  }

  lemma JoinAfterDetach(r1: Registry, pid: string, gid: string, cfg: Session.Config, now: int)
    requires Consistent(r1) && pid in r1.players && r1.players[pid].id == pid && gid in r1.games
    requires forall h :: !MemberOf(r1, h, pid)
    ensures var p := r1.players[pid];
      var g' := Session.AddPlayer(r1.games[gid], p, cfg, now);
      var r' := Registry(r1.games[gid := g'], (r1.players + g'.players)[pid := g'.players[p.id]], r1.playerGames[pid := g'.id]);
      Consistent(r') && MemberOf(r', gid, pid)
  {
    var p := r1.players[pid];
    var g := r1.games[gid];
    assert GameOk(gid, g);
    Session.AddPlayerValid(g, p, cfg, now);
    JoinWrite(r1, pid, gid, Session.AddPlayer(g, p, cfg, now));
  }

  /** The write-back of a join into a live game, for any resulting game with the member added. */
  lemma JoinWrite(r1: Registry, pid: string, gid: string, g': Session.Game)
    requires Consistent(r1) && gid in r1.games && GameOk(gid, g')
    requires forall h :: !MemberOf(r1, h, pid)
    requires g'.players.Keys == r1.games[gid].players.Keys + {pid}
    ensures var r' := Registry(r1.games[gid := g'], (r1.players + g'.players)[pid := g'.players[pid]], r1.playerGames[pid := g'.id]);
      Consistent(r') && MemberOf(r', gid, pid)
  {
    var r' := Registry(r1.games[gid := g'], (r1.players + g'.players)[pid := g'.players[pid]], r1.playerGames[pid := g'.id]);
    assert r'.players == r1.players + g'.players;
    assert r'.playerGames == r1.playerGames[pid := gid];
    JoinLive(r1, pid, gid, g');
  }

  lemma JoinDetachedGame(r1: Registry, pid: string, G: Session.Game)
    requires Consistent(r1) && pid in r1.players && r1.players[pid].id == pid
    requires forall h :: !MemberOf(r1, h, pid)
    ensures var p := r1.players[pid];
      Consistent(r1.(players := r1.players[pid := p.(info := Some(Session.ActiveInfo(G.id, false, Nulls(|G.rounds|))))],
                     playerGames := r1.playerGames[pid := G.id]))
  {
    var p := r1.players[pid];
    var r' := r1.(players := r1.players[pid := p.(info := Some(Session.ActiveInfo(G.id, false, Nulls(|G.rounds|))))],
                  playerGames := r1.playerGames[pid := G.id]);
    forall h, m | MemberOf(r', h, m) ensures Registered(r', h, m) {
      assert MemberOf(r1, h, m) && Registered(r1, h, m);
    }
  }

  /** Writing back a registered game that gained one player who was in no game keeps the registry consistent. */
  lemma JoinLive(r1: Registry, pid: string, gid: string, g': Session.Game)
    requires Consistent(r1) && gid in r1.games && GameOk(gid, g')
    requires forall h :: !MemberOf(r1, h, pid)
    requires g'.players.Keys == r1.games[gid].players.Keys + {pid}
    ensures Consistent(Registry(r1.games[gid := g'], r1.players + g'.players, r1.playerGames[pid := gid]))
  {
    var pg := r1.playerGames[pid := gid];
    forall m | m in g'.players ensures m in pg && pg[m] == gid {
      if m != pid {
        assert MemberOf(r1, gid, m) && Registered(r1, gid, m);
      }
    }
    forall h, m | MemberOf(r1, h, m) && h != gid
      ensures m !in g'.players && m in pg && pg[m] == h
    {
      assert Registered(r1, h, m);
      assert m != pid;
      if m in g'.players {
        OneGamePerPlayer(r1, h, gid, m);
      }
    }
    WriteBack(r1, gid, g', pg);
  }

  /** Killing a player keeps the registry consistent. */
  lemma KillConsistent(r: Registry, pid: string, cfg: Session.Config, now: int)
    requires Consistent(r)
    ensures KillPlayer(r, pid, cfg, now).Ok? ==> Consistent(KillPlayer(r, pid, cfg, now).value)
  {
    if pid in r.players {
      var r1 := Detach(r, pid, cfg, now);
      DetachConsistent(r, pid, cfg, now);
      var r' := KillPlayer(r, pid, cfg, now).value;
      forall h, m | MemberOf(r', h, m) ensures Registered(r', h, m) {
        assert MemberOf(r1, h, m) && Registered(r1, h, m);
      }
    }
  }

  /**
   * Killing a player drops only that player: no game other than the one the
   * player's record names changes, no other mapping changes, and no player
   * outside that game changes.
   */
  lemma KillFrame(r: Registry, pid: string, cfg: Session.Config, now: int)
    requires Consistent(r)
    ensures var res := KillPlayer(r, pid, cfg, now);
      res.Ok? ==>
        var left := NamedGame(r.players[pid]);
        && res.value.players.Keys == r.players.Keys - {pid}
        && res.value.playerGames - {pid} == r.playerGames - {pid}
        && (forall h :: h in res.value.games ==> h in r.games && res.value.games[h].players.Keys <= r.games[h].players.Keys)
        && (forall h :: h in r.games && h != left ==> h in res.value.games && res.value.games[h] == r.games[h])
        && (forall q :: q in r.players && q != pid && !MemberOf(r, left, q) ==> res.value.players[q] == r.players[q])
  {
    if pid in r.players {
      var r1 := Detach(r, pid, cfg, now);
      DetachFrame(r, pid, cfg, now);
      assert KillPlayer(r, pid, cfg, now) == Ok(r1.(players := r1.players - {pid}));
    }
  }

  /**
   * Rejoining the game one is the only member of stops and unregisters it,
   * yet the player's record and mapping name it: the player's active game
   * cannot be found, and leaving it fails.
   */
  lemma RejoinSoleGameDangles(r: Registry, pid: string, gameId: string, cfg: Session.Config, now: int)
    requires Consistent(r) && MemberOf(r, ToUpper(gameId), pid) && r.games[ToUpper(gameId)].players.Keys == {pid}
    ensures var res := AddPlayerToGame(r, pid, gameId, cfg, now);
      && res.Ok? && ToUpper(gameId) !in res.value.games
      && res.value.players[pid].info.value.gameId == ToUpper(gameId)
      && GetPlayerActiveGame(res.value, pid) == Err(GameNotFound)
      && RemovePlayerFromGame(res.value, pid, cfg, now) == Err(GameNotFound)
  {
    var gid := ToUpper(gameId);
    assert |r.games[gid].players| == 1 by {
      assert |r.games[gid].players.Keys| == 1;
    }
    RemoveMember(r, gid, pid, cfg, now);
    assert GameOk(gid, r.games[gid]);
  }

  /**
   * Registering a new game keeps the registry consistent, even when it
   * replaces a game with the same id. The replaced game object is not
   * stopped in the server and its timers stay live; this lemma is about
   * the tables only, and no event of the replaced game is modelled.
   */
  lemma GenerateNewGameConsistent(r: Registry, idBytes: seq<byte>, playlist: Playlist, gameType: GameType,
                                  visibility: Session.Visibility, options: Options, table: OptionTable,
                                  preview: Preview, draws: Draws)
    requires Consistent(r) && |idBytes| == 3
    ensures var res := GenerateNewGame(r, idBytes, playlist, gameType, visibility, options, table, preview, draws);
      res.Ok? ==> Consistent(res.value.0)
  {
    var res := GenerateNewGame(r, idBytes, playlist, gameType, visibility, options, table, preview, draws);
    if res.Ok? {
      var (r', gid) := res.value;
      forall h | h in r'.games ensures GameOk(h, r'.games[h]) {
        if h != gid {
          assert GameOk(h, r.games[h]);
        }
      }
      forall h, m | MemberOf(r', h, m) ensures Registered(r', h, m) {
        assert MemberOf(r, h, m);
        assert Registered(r, h, m);
      }
    }
  }
}
