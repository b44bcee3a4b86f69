/**
 * One game session of server/Game.ts as a state machine. Timers and the
 * run loop's awaits become events: a timer's event is only possible while
 * that timer is live, and `start()`'s loop is the `run` field, which says
 * which await the loop is parked on. The wall clock (`now`), the catalog
 * lookup and the random draws are parameters.
 */
module Session {
  import opened Common
  import opened Rounds
  import opened Scoring

  datatype Status = Pending | Active | Ended

  datatype Visibility = Public | Private

  /** A player's membership record (`activeGameInfo`). */
  datatype ActiveInfo = ActiveInfo(gameId: string, isReady: bool, scores: seq<Option<Points>>)

  /** `Player`; `info == None` means the player is in no game. */
  datatype Player = Player(id: string, name: string, info: Option<ActiveInfo>)

  datatype ChatMessage = ChatMessage(sender: string, content: string)

  /** The public view of the round being played; `trackId` is set once the round is over. */
  datatype CurrentRound = CurrentRound(index: int, audioUrl: string, duration: int,
                                       choices: Option<seq<Choice>>, trackId: Option<string>)

  /**
   * The auto-start handle: none, a live timer, or the handle of a timer
   * that already fired (the source does not clear it when it fires).
   */
  datatype AutoStart = Unarmed | Armed | Spent

  /** Where `start()`'s loop is parked: not running, inside round `index`, or in the pause after it. */
  datatype RunLoop = Idle | Playing(index: nat) | Revealed(index: nat)

  /** Constants the server imports but whose values are not part of this model. */
  datatype Config = Config(maxChatLength: nat, serverChatName: string)

  datatype Game = Game(
    id: string,
    gameType: GameType,
    visibility: Visibility,
    playlist: Playlist,
    options: Settings,
    players: map<string, Player>,
    rounds: seq<Round>,
    status: Status,
    chat: seq<ChatMessage>,
    current: Option<CurrentRound>,
    autoStart: AutoStart,
    run: RunLoop,
    rematch: bool)   // a rematch timer is live

  datatype GuessResult = GuessResult(isCorrect: bool, score: Points, correctTrackId: string)

  /** `new Player(id, name)`. */
  function NewPlayer(id: string, name: string): (p: Player)
    ensures p.id == id && p.name == name && p.info.None?
  {
    Player(id, name, None)
  }

  /** The private constructor: options normalised, no players, no rounds, pending. */
  function NewGame(id: string, playlist: Playlist, gameType: GameType, visibility: Visibility,
                   options: Options, table: OptionTable): (g: Game)
    ensures g.id == id && g.players == map[] && g.rounds == [] && g.chat == []
    ensures g.status == Pending && g.current.None? && g.autoStart == Unarmed && g.run == Idle && !g.rematch
    ensures g.options == Normalised(options, table)
  {
    Game(id, gameType, visibility, playlist, Normalised(options, table), map[], [], Pending, [], None, Unarmed, Idle, false)
  }

  /** `newInstance`: construct, then generate the rounds; the generation error propagates. */
  function NewInstance(id: string, playlist: Playlist, gameType: GameType, visibility: Visibility,
                       options: Options, table: OptionTable, preview: Preview, draws: Draws): (r: Result<Game>)
    ensures r.Err? <==> GenerateRounds(playlist, gameType, Normalised(options, table), preview, draws).Err?
    ensures r.Ok? ==> r.value.rounds == GenerateRounds(playlist, gameType, Normalised(options, table), preview, draws).value
    ensures r.Ok? ==> Valid(r.value) && r.value.status == Pending && r.value.players == map[]
  {
    var g := NewGame(id, playlist, gameType, visibility, options, table);
    match GenerateRounds(playlist, gameType, g.options, preview, draws)
    case Err(e) => Err(e)
    case Ok(rs) => Ok(g.(rounds := rs))
  }

  // ---------------------------------------------------------------------
  // Members

  /** The player is in the map and their membership names this game. */
  predicate IsMember(g: Game, pid: string) {
    pid in g.players && g.players[pid].info.Some? && g.players[pid].info.value.gameId == g.id
  }

  /** `getPlayer`. */
  function GetPlayer(g: Game, pid: string): (r: Result<Player>)
    ensures r.Ok? <==> IsMember(g, pid)
    ensures r.Ok? ==> r.value == g.players[pid] && r.value.info.Some?
    ensures r.Err? ==> r.error == NotInGame
  {
    if IsMember(g, pid) then Ok(g.players[pid]) else Err(NotInGame)
  }

  predicate IsReady(p: Player) {
    p.info.Some? && p.info.value.isReady
  }

  function Scores(p: Player): seq<Option<Points>> {
    if p.info.Some? then p.info.value.scores else []
  }

  /** `q` is `p` with at most its ready flag changed. */
  predicate SameRecord(p: Player, q: Player) {
    && q.id == p.id && q.name == p.name && q.info.Some? == p.info.Some?
    && (p.info.Some? ==> q.info.value.gameId == p.info.value.gameId && q.info.value.scores == p.info.value.scores)
  }

  /** Sets the ready flag of a player who has a membership record. */
  function SetReady(p: Player, b: bool): (q: Player)
    ensures SameRecord(p, q)
    ensures q.info.Some? ==> IsReady(q) == b
  {
    if p.info.Some? then p.(info := Some(p.info.value.(isReady := b))) else p
  }

  /** Every member's ready flag set to `b`. */
  function ReadyAll(ps: map<string, Player>, b: bool): (r: map<string, Player>)
    ensures r.Keys == ps.Keys
    ensures forall pid :: pid in ps ==> r[pid] == SetReady(ps[pid], b)
  {
    map pid | pid in ps :: SetReady(ps[pid], b)
  }

  function ReadyIds(ps: map<string, Player>): (r: set<string>)
    ensures r <= ps.Keys
    ensures forall pid :: pid in r <==> pid in ps && IsReady(ps[pid])
  {
    set pid | pid in ps && IsReady(ps[pid])
  }

  /** `readyPlayers.length === this.players.size`. */
  predicate AllReady(ps: map<string, Player>) {
    |ReadyIds(ps)| == |ps|
  }

  /** `readyPlayers.length > this.players.size * 0.5`. */
  predicate HalfReady(ps: map<string, Player>) {
    2 * |ReadyIds(ps)| > |ps|
  }

  /** The ready count equals the size exactly when every member is ready. */
  lemma AllReadyMeansEveryone(ps: map<string, Player>)
    ensures AllReady(ps) <==> forall pid :: pid in ps ==> IsReady(ps[pid])
  {
    var r := ReadyIds(ps);
    if forall pid :: pid in ps ==> IsReady(ps[pid]) {
      assert r == ps.Keys;
    }
    if AllReady(ps) {
      var rest := ps.Keys - r;
      assert ps.Keys == r + rest && r !! rest;
      assert |ps.Keys| == |r| + |rest|;
      assert rest == {};
    }
  }

  /** With no players every check of "all ready" succeeds. */
  lemma NobodyIsAllReady(ps: map<string, Player>)
    requires |ps| == 0
    ensures AllReady(ps) && !HalfReady(ps)
  {
  }

  // ---------------------------------------------------------------------
  // Run loop

  /** `startRound(i)`: everyone unready, the current round announced without its answer, its start stamped. */
  function StartRound(g: Game, i: nat, now: int): (g': Game)
    requires i < |g.rounds|
    ensures g'.players.Keys == g.players.Keys
    ensures forall pid :: pid in g.players ==> g'.players[pid] == SetReady(g.players[pid], false)
    ensures g'.current == Some(CurrentRound(i, g.rounds[i].previewUrl, g.rounds[i].maxDuration, g.rounds[i].choices, None))
    ensures |g'.rounds| == |g.rounds| && g'.rounds[i] == g.rounds[i].(startTime := now)
    ensures forall j :: 0 <= j < |g.rounds| && j != i ==> g'.rounds[j] == g.rounds[j]
    ensures g'.run == Playing(i)
    ensures g'.status == g.status && g'.chat == g.chat && g'.rematch == g.rematch && g'.autoStart == g.autoStart
    ensures g'.id == g.id && g'.options == g.options
  {
    var r := g.rounds[i];
    g.(players := ReadyAll(g.players, false),
       current := Some(CurrentRound(i, r.previewUrl, r.maxDuration, r.choices, None)),
       rounds := g.rounds[i := r.(startTime := now)],
       run := Playing(i))
  }

  /**
   * `endCurrentRound()` and the loop's continuation: when a round is being
   * played its answer is revealed, everyone is readied and the loop moves
   * to the pause. At any other time the resolver is a spent one and nothing
   * happens.
   */
  function Resolve(g: Game): (g': Game)
    ensures !g.run.Playing? ==> g' == g
    ensures g.run.Playing? && g.run.index < |g.rounds| && g.current.Some? ==>
      && g'.current == Some(g.current.value.(trackId := Some(g.rounds[g.run.index].trackId)))
      && g'.players == ReadyAll(g.players, true)
      && g'.run == Revealed(g.run.index)
    ensures g'.rounds == g.rounds && g'.status == g.status && g'.chat == g.chat
    ensures g'.rematch == g.rematch && g'.autoStart == g.autoStart && g'.id == g.id && g'.options == g.options
    ensures g'.players.Keys == g.players.Keys
    ensures forall pid :: pid in g.players ==> SameRecord(g.players[pid], g'.players[pid])
    ensures !g'.run.Playing?
  {
    match g.run
    case Playing(i) =>
      if i < |g.rounds| && g.current.Some? then
        g.(current := Some(g.current.value.(trackId := Some(g.rounds[i].trackId))),
           players := ReadyAll(g.players, true),
           run := Revealed(i))
      else g.(run := Idle)
    case _ => g
  }

  /** `end()`: a no-op once ended; otherwise resolve the round, end, and arm a rematch if anyone is left. */
  function End(g: Game): (g': Game)
    ensures g.status == Ended ==> g' == g
    ensures g.status != Ended ==> g' == Resolve(g).(status := Ended, rematch := |g.players| > 0)
    ensures g'.status == Ended
  {
    if g.status == Ended then g
    else
      var g1 := Resolve(g);
      g1.(status := Ended, rematch := |g1.players| > 0)
  }

  /** `start()` up to its first await: active, everyone unready, round 0 started (or, with no rounds, the end). */
  function Start(g: Game, now: int): (g': Game)
    ensures |g.rounds| > 0 ==> g'.status == Active && g'.run == Playing(0) && g'.current.Some? && g'.current.value.index == 0
    ensures g'.players.Keys == g.players.Keys && g'.chat == g.chat && g'.id == g.id
    ensures |g.rounds| > 0 ==> forall pid :: pid in g.players ==> !IsReady(g'.players[pid])
    ensures |g.rounds| == 0 ==> g'.status == Ended
    ensures forall pid :: pid in g.players ==> SameRecord(g.players[pid], g'.players[pid])
  {
    var g1 := g.(status := Active, players := ReadyAll(g.players, false));
    if |g1.rounds| > 0 then StartRound(g1, 0, now) else End(g1)
  }

  /**
   * The readiness policy. Pending: all ready starts the game (cancelling
   * the auto-start timer), more than half ready arms the timer unless a
   * handle is already set, fewer cancels it. Active: all ready ends the
   * round early. Ended: nothing.
   */
  function CheckReadiness(g: Game, now: int): (g': Game)
    ensures g.status == Pending && AllReady(g.players) ==> g' == Start(g.(autoStart := Unarmed), now)
    ensures g.status == Pending && !AllReady(g.players) && HalfReady(g.players) ==>
              g' == g.(autoStart := if g.autoStart == Unarmed then Armed else g.autoStart)
    ensures g.status == Pending && !AllReady(g.players) && !HalfReady(g.players) ==> g' == g.(autoStart := Unarmed)
    ensures g.status == Active ==> g' == (if AllReady(g.players) then Resolve(g) else g)
    ensures g.status == Ended ==> g' == g
    ensures g'.players.Keys == g.players.Keys && g'.chat == g.chat && g'.id == g.id
    ensures forall pid :: pid in g.players ==> SameRecord(g.players[pid], g'.players[pid])
  {
    match g.status
    case Pending =>
      if AllReady(g.players) then Start(g.(autoStart := Unarmed), now)
      else if HalfReady(g.players) then
        if g.autoStart == Unarmed then g.(autoStart := Armed) else g
      else g.(autoStart := Unarmed)
    case Active => if AllReady(g.players) then Resolve(g) else g
    case Ended => g
  }

  /** The timer is only ever armed when no handle is set, so at most one auto-start timer exists. */
  lemma ArmsOnlyFromUnarmed(g: Game, now: int)
    requires CheckReadiness(g, now).autoStart == Armed
    ensures g.autoStart == Armed || (g.autoStart == Unarmed && g.status == Pending && HalfReady(g.players) && !AllReady(g.players))
  {
    var g' := CheckReadiness(g, now);
    if g.status == Pending && AllReady(g.players) {
      var g1 := g.(autoStart := Unarmed);
      assert g'.autoStart == Unarmed by {
        if |g1.rounds| == 0 {
          assert g' == End(g1.(status := Active, players := ReadyAll(g1.players, false)));
        }
      }
    }
  }

  /** A round timer fires: it resolves round `i` if that round is still being played. */
  function RoundTimeout(g: Game, i: nat): (g': Game)
    ensures g.run == Playing(i) ==> g' == Resolve(g)
    ensures g.run != Playing(i) ==> g' == g
  {
    if g.run == Playing(i) then Resolve(g) else g
  }

  /**
   * The pause after round `i` is over: the loop starts the next round if
   * the game is still active and one is left; otherwise it skips the rest
   * and calls `end()`.
   */
  function PostRoundDone(g: Game, i: nat, now: int): (g': Game)
    ensures g.run != Revealed(i) ==> g' == g
    ensures g.run == Revealed(i) && g.status == Active && i + 1 < |g.rounds| ==>
              g'.run == Playing(i + 1) && g'.status == Active && g'.current.Some? && g'.current.value.index == i + 1
    ensures g.run == Revealed(i) && !(g.status == Active && i + 1 < |g.rounds|) ==>
              && g'.status == Ended && g'.run == Idle && g'.players == g.players && g'.rounds == g.rounds
              && g'.rematch == (if g.status == Ended then g.rematch else |g.players| > 0)
  {
    if g.run != Revealed(i) then g
    else if g.status == Active && i + 1 < |g.rounds| then StartRound(g, i + 1, now)
    else End(g).(run := Idle)
  }

  /** The auto-start timer fires: everyone is readied and readiness re-checked. */
  function AutoStartFire(g: Game, now: int): (g': Game)
    ensures g.autoStart != Armed ==> g' == g
    ensures g.autoStart == Armed ==> g' == CheckReadiness(g.(autoStart := Spent, players := ReadyAll(g.players, true)), now)
  {
    if g.autoStart != Armed then g
    else CheckReadiness(g.(autoStart := Spent, players := ReadyAll(g.players, true)), now)
  }

  /** When the auto-start timer fires in a pending game with rounds, the game starts. */
  lemma AutoStartFireStarts(g: Game, now: int)
    requires g.autoStart == Armed && g.status == Pending && |g.rounds| > 0
    requires forall pid :: pid in g.players ==> g.players[pid].info.Some?
    ensures AutoStartFire(g, now).status == Active
    ensures AutoStartFire(g, now).run == Playing(0)
    ensures AutoStartFire(g, now).autoStart == Unarmed
  {
    var ps := ReadyAll(g.players, true);
    AllReadyMeansEveryone(ps);
  }

  /** A fresh membership record: not ready, one empty score slot per round. */
  function FreshInfo(g: Game): (info: ActiveInfo)
    ensures info.gameId == g.id && !info.isReady && |info.scores| == |g.rounds|
    ensures forall k :: 0 <= k < |info.scores| ==> info.scores[k].None?
  {
    ActiveInfo(g.id, false, Nulls(|g.rounds|))
  }

  /**
   * The rematch timer fires: every member gets a fresh record sized by the
   * OLD round list, rounds are regenerated, and the game is pending again.
   * If generation throws, the rounds stay cleared and the game stays ended.
   */
  function RematchFire(g: Game, preview: Preview, draws: Draws): (g': Game)
    ensures !g.rematch ==> g' == g
    ensures g.rematch ==> !g'.rematch && g'.players.Keys == g.players.Keys
    ensures g.rematch ==> forall pid :: pid in g.players ==> g'.players[pid] == g.players[pid].(info := Some(FreshInfo(g)))
    ensures g.rematch ==> var gen := GenerateRounds(g.playlist, g.gameType, g.options, preview, draws);
      && (gen.Ok? ==> g'.status == Pending && g'.rounds == gen.value)
      && (gen.Err? ==> g'.status == g.status && g'.rounds == [])
  {
    if !g.rematch then g
    else
      var g1 := g.(rematch := false, players := map pid | pid in g.players :: g.players[pid].(info := Some(FreshInfo(g))));
      match GenerateRounds(g.playlist, g.gameType, g.options, preview, draws)
      case Ok(rs) => g1.(rounds := rs, status := Pending)
      case Err(_) => g1.(rounds := [])
  }

  // ---------------------------------------------------------------------
  // Player actions

  /** The round number a join's forced guess names: the current round's, or -1. */
  function CurrentIndex(g: Game): int {
    if g.current.Some? then g.current.value.index else -1
  }

  /** `submitPlayerGuess`: the checks in the order the source makes them. */
  function GuessError(g: Game, pid: string, roundNum: int): (r: Option<Error>)
    ensures !IsMember(g, pid) ==> r == Some(NotInGame)
    ensures IsMember(g, pid) && IsReady(g.players[pid]) ==> r == Some(AlreadyReady)
    ensures IsMember(g, pid) && !IsReady(g.players[pid]) && (g.current.None? || roundNum != g.current.value.index) ==> r == Some(RoundMismatch)
    ensures IsMember(g, pid) && !IsReady(g.players[pid]) && g.current.Some? && roundNum == g.current.value.index ==>
      && (!(0 <= roundNum < |g.rounds|) ==> r == Some(NoSuchRound))
      && (0 <= roundNum < |g.rounds| && (roundNum >= |Scores(g.players[pid])| || Scores(g.players[pid])[roundNum].Some?) ==>
            r == Some(AlreadyGuessed))
    ensures r.None? ==> IsMember(g, pid) && !IsReady(g.players[pid]) && g.current.Some? && roundNum == g.current.value.index
                        && 0 <= roundNum < |g.rounds| && roundNum < |Scores(g.players[pid])| && Scores(g.players[pid])[roundNum].None?
    ensures r.Some? ==> r.value in {NotInGame, AlreadyReady, RoundMismatch, NoSuchRound, AlreadyGuessed}
  {
    if !IsMember(g, pid) then Some(NotInGame)
    else
      var info := g.players[pid].info.value;
      if info.isReady then Some(AlreadyReady)
      else if g.current.None? || roundNum != g.current.value.index then Some(RoundMismatch)
      else if roundNum < 0 || roundNum >= |g.rounds| then Some(NoSuchRound)
      else if roundNum >= |info.scores| || info.scores[roundNum].Some? then Some(AlreadyGuessed)
      else None
  }

  /** A member's slot `k` filled with `pts`, and the member readied. */
  function Scored(g: Game, pid: string, k: nat, pts: Points): (g': Game)
    requires pid in g.players && g.players[pid].info.Some? && k < |g.players[pid].info.value.scores|
    ensures g'.players.Keys == g.players.Keys
    ensures forall q :: q in g.players && q != pid ==> g'.players[q] == g.players[q]
    ensures Scores(g'.players[pid]) == Scores(g.players[pid])[k := Some(pts)]
    ensures IsReady(g'.players[pid]) && g'.players[pid].info.value.gameId == g.players[pid].info.value.gameId
    ensures g'.players[pid].id == g.players[pid].id && g'.players[pid].name == g.players[pid].name
    ensures g' == g.(players := g'.players)
  {
    var info := g.players[pid].info.value;
    var p := g.players[pid].(info := Some(info.(scores := info.scores[k := Some(pts)], isReady := true)));
    g.(players := g.players[pid := p])
  }

  /**
   * `submitPlayerGuess`: on success the slot of that round holds the score
   * (0 for a wrong answer), the player is readied and readiness re-checked.
   */
  function SubmitGuess(g: Game, pid: string, roundNum: int, trackId: string, now: int): (r: Result<(Game, GuessResult)>)
    ensures r.Err? <==> GuessError(g, pid, roundNum).Some?
    ensures r.Err? ==> r.error == GuessError(g, pid, roundNum).value
    ensures r.Ok? ==> var round := g.rounds[roundNum];
      && r.value.1 == GuessResult(trackId == round.trackId,
                                  GuessPoints(trackId == round.trackId, round.maxDuration, round.startTime, now), round.trackId)
      && r.value.0 == CheckReadiness(Scored(g, pid, roundNum, r.value.1.score), now)
  {
    match GuessError(g, pid, roundNum)
    case Some(e) => Err(e)
    case None =>
      var round := g.rounds[roundNum];
      var correct := trackId == round.trackId;
      var pts := GuessPoints(correct, round.maxDuration, round.startTime, now);
      Ok((CheckReadiness(Scored(g, pid, roundNum, pts), now), GuessResult(correct, pts, round.trackId)))
  }

  /** An accepted guess changes exactly one score slot: that player's slot for that round. */
  lemma GuessChangesOneSlot(g: Game, pid: string, roundNum: int, trackId: string, now: int)
    requires SubmitGuess(g, pid, roundNum, trackId, now).Ok?
    ensures var (g', res) := SubmitGuess(g, pid, roundNum, trackId, now).value;
      && g'.players.Keys == g.players.Keys
      && Scores(g'.players[pid]) == Scores(g.players[pid])[roundNum := Some(res.score)]
      && (forall q :: q in g.players && q != pid ==> Scores(g'.players[q]) == Scores(g.players[q]))
  {
  }

  /** A member's record sized for this game, added or replacing the one under that id. */
  function WithMember(g: Game, p: Player): (g': Game)
    ensures g' == g.(players := g'.players)
    ensures g'.players == g.players[p.id := p.(info := Some(FreshInfo(g)))]
  {
    g.(players := g.players[p.id := p.(info := Some(FreshInfo(g)))])
  }

  /**
   * The empty guess `addPlayer` submits for a player joining an active
   * game. The call is not awaited, so a rejection leaves the game as it was.
   */
  function ForcedGuess(g: Game, pid: string, now: int): (g': Game)
    ensures g.status != Active ==> g' == g
    ensures g.status == Active && SubmitGuess(g, pid, CurrentIndex(g), "", now).Ok? ==>
              g' == SubmitGuess(g, pid, CurrentIndex(g), "", now).value.0
    ensures g.status == Active && SubmitGuess(g, pid, CurrentIndex(g), "", now).Err? ==> g' == g
    ensures g'.players.Keys == g.players.Keys && g'.chat == g.chat && g'.id == g.id
    ensures forall q :: q in g.players ==> g'.players[q].name == g.players[q].name
    ensures forall q :: q in g.players ==> g'.players[q].info.Some? == g.players[q].info.Some?
    ensures forall q :: q in g.players && g.players[q].info.Some? ==>
              g'.players[q].info.value.gameId == g.players[q].info.value.gameId && |Scores(g'.players[q])| == |Scores(g.players[q])|
  {
    if g.status != Active then g
    else
      match SubmitGuess(g, pid, CurrentIndex(g), "", now)
      case Ok(res) => res.0
      case Err(_) => g
  }

  /** `addPlayer`: a fresh record, a forced empty guess when the game is active, one join message. */
  function AddPlayer(g: Game, p: Player, cfg: Config, now: int): (g': Game)
    ensures g'.players.Keys == g.players.Keys + {p.id}
    ensures g'.players[p.id].name == p.name && g'.players[p.id].info.Some?
    ensures g'.players[p.id].info.value.gameId == g.id && |Scores(g'.players[p.id])| == |g.rounds|
    ensures g'.chat == g.chat + [ChatMessage(cfg.serverChatName, p.name + " has joined the game.")]
    ensures g'.id == g.id
    ensures g' == ForcedGuess(WithMember(g, p), p.id, now).(chat := g'.chat)
  {
    var g2 := ForcedGuess(WithMember(g, p), p.id, now);
    g2.(chat := g2.chat + [ChatMessage(cfg.serverChatName, p.name + " has joined the game.")])
  }

  /**
   * A player joining an active game during a round they have no score for
   * is forced to skip it: their slot for the current round is filled with
   * the score of an empty guess, which is 0 unless the answer's id is empty.
   */
  lemma JoinActiveSkipsRound(g: Game, p: Player, cfg: Config, now: int)
    requires g.status == Active && g.current.Some? && 0 <= g.current.value.index < |g.rounds|
    requires g.rounds[g.current.value.index].trackId != ""
    ensures var g' := AddPlayer(g, p, cfg, now);
      Scores(g'.players[p.id])[g.current.value.index] == Some(Finite(0))
  {
    var g1 := WithMember(g, p);
    var k := g.current.value.index;
    assert IsMember(g1, p.id) && !IsReady(g1.players[p.id]);
    assert Scores(g1.players[p.id])[k].None?;
    assert GuessError(g1, p.id, k).None?;
  }

  /** `removePlayer`: only members can be removed; the member leaves with no record, one leave message, and a readiness check. */
  function RemovePlayer(g: Game, pid: string, cfg: Config, now: int): (r: Result<(Game, Player)>)
    ensures r.Err? <==> !IsMember(g, pid)
    ensures r.Err? ==> r.error == NotInGame
    ensures r.Ok? ==> var (g', p) := r.value;
      && p == g.players[pid].(info := None)
      && g'.players.Keys == g.players.Keys - {pid}
      && g' == CheckReadiness(g.(players := g.players - {pid},
                                 chat := g.chat + [ChatMessage(cfg.serverChatName, g.players[pid].name + " has left the game.")]), now)
  {
    match GetPlayer(g, pid)
    case Err(e) => Err(e)
    case Ok(p) =>
      var g1 := g.(players := g.players - {pid},
                   chat := g.chat + [ChatMessage(cfg.serverChatName, p.name + " has left the game.")]);
      Ok((CheckReadiness(g1, now), p.(info := None)))
  }

  /** `readyPlayer` / `unreadyPlayer`: set the member's flag, then check readiness. */
  function SetPlayerReady(g: Game, pid: string, b: bool, now: int): (r: Result<Game>)
    ensures r.Err? <==> !IsMember(g, pid)
    ensures r.Err? ==> r.error == NotInGame
    ensures r.Ok? ==> r.value == CheckReadiness(g.(players := g.players[pid := SetReady(g.players[pid], b)]), now)
  {
    match GetPlayer(g, pid)
    case Err(e) => Err(e)
    case Ok(p) => Ok(CheckReadiness(g.(players := g.players[pid := SetReady(p, b)]), now))
  }

  /** `submitPlayerChat`: exactly one message, from the member, cut to the maximum length. */
  function SubmitChat(g: Game, pid: string, content: string, cfg: Config): (r: Result<Game>)
    ensures r.Err? <==> !IsMember(g, pid)
    ensures r.Ok? ==> r.value == g.(chat := r.value.chat)
    ensures r.Ok? ==> |r.value.chat| == |g.chat| + 1 && r.value.chat[..|g.chat|] == g.chat
    ensures r.Ok? ==> var m := r.value.chat[|g.chat|];
      m.sender == g.players[pid].name && |m.content| == Min(|content|, cfg.maxChatLength) && m.content <= content
  {
    match GetPlayer(g, pid)
    case Err(e) => Err(e)
    case Ok(p) =>
      var chat := g.chat + [ChatMessage(p.name, Prefix(content, cfg.maxChatLength))];
      assert chat[..|g.chat|] == g.chat;
      Ok(g.(chat := chat))
  }

  /** Readying the last unready member of a pending game with rounds starts it. */
  lemma LastReadyStarts(g: Game, pid: string, now: int)
    requires g.status == Pending && |g.rounds| > 0 && IsMember(g, pid)
    requires forall q :: q in g.players && q != pid ==> IsReady(g.players[q])
    ensures SetPlayerReady(g, pid, true, now).Ok?
    ensures SetPlayerReady(g, pid, true, now).value.status == Active
    ensures SetPlayerReady(g, pid, true, now).value.run == Playing(0)
  {
    var ps := g.players[pid := SetReady(g.players[pid], true)];
    AllReadyMeansEveryone(ps);
  }

  /**
   * When the last member leaves a pending game with rounds, the empty game
   * counts as all ready, so it starts with nobody in it.
   */
  lemma LastLeaveStartsPendingGame(g: Game, pid: string, cfg: Config, now: int)
    requires g.status == Pending && |g.rounds| > 0 && IsMember(g, pid) && g.players.Keys == {pid}
    ensures RemovePlayer(g, pid, cfg, now).Ok?
    ensures RemovePlayer(g, pid, cfg, now).value.0.status == Active
    ensures RemovePlayer(g, pid, cfg, now).value.0.players == map[]
  {
    var g1 := g.(players := g.players - {pid},
                 chat := g.chat + [ChatMessage(cfg.serverChatName, g.players[pid].name + " has left the game.")]);
    assert g1.players.Keys == {};
    assert g1.players == map[];
    NobodyIsAllReady(g1.players);
  }

  /**
   * The rematch does not clear the current round, so a pending rematch
   * accepts a guess for the round number last played, as long as the new
   * round list has that many rounds.
   */
  lemma GuessAcceptedAfterRematch(g: Game, preview: Preview, draws: Draws, pid: string, trackId: string, now: int)
    requires Valid(g) && g.rematch && IsMember(g, pid) && g.current.Some?
    requires GenerateRounds(g.playlist, g.gameType, g.options, preview, draws).Ok?
    ensures var g' := RematchFire(g, preview, draws);
      g'.status == Pending && SubmitGuess(g', pid, g.current.value.index, trackId, now).Ok?
  {
    var g' := RematchFire(g, preview, draws);
    var k := g.current.value.index;
    assert 0 <= k < |g.rounds| == g.options.numRounds;
    RematchedMember(g, preview, draws, pid);
    GuessOpen(g', pid, k);
  }

  /** What a successful rematch leaves for one member: a fresh record, the same current round, a full round list. */
  lemma RematchedMember(g: Game, preview: Preview, draws: Draws, pid: string)
    requires Valid(g) && g.rematch && pid in g.players
    requires GenerateRounds(g.playlist, g.gameType, g.options, preview, draws).Ok?
    ensures var g' := RematchFire(g, preview, draws);
      && g'.status == Pending && g'.current == g.current && |g'.rounds| == |g.rounds|
      && pid in g'.players && g'.players[pid] == g.players[pid].(info := Some(FreshInfo(g)))
  {
  }

  /** A guess for the current round by an unready member with an empty slot is accepted. */
  lemma GuessOpen(g: Game, pid: string, k: int)
    requires IsMember(g, pid) && !IsReady(g.players[pid]) && g.current.Some? && g.current.value.index == k
    requires 0 <= k < |g.rounds| && k < |Scores(g.players[pid])| && Scores(g.players[pid])[k].None?
    ensures GuessError(g, pid, k).None?
  {
  }

  // ---------------------------------------------------------------------
  // Events and the session invariant

  datatype Event =
    | Join(player: Player)
    | Leave(pid: string)
    | Ready(pid: string)
    | Unready(pid: string)
    | Guess(pid: string, roundNum: int, trackId: string)
    | Chat(pid: string, content: string)
    | AutoStartTimer
    | RoundTimer(index: nat)
    | PauseOver(index: nat)
    | EndGame
    | RematchTimer

  /** What the outside world supplies to a step: the clock, the catalog and the random draws. */
  datatype Env = Env(now: int, preview: Preview, draws: Draws)

  /** One event. A rejected request is an error and leaves the game unchanged. */
  function Step(g: Game, e: Event, env: Env, cfg: Config): (r: Result<Game>)
    ensures e.Join? || e.AutoStartTimer? || e.RoundTimer? || e.PauseOver? || e.EndGame? || e.RematchTimer? ==> r.Ok?
  {
    match e
    case Join(p) => Ok(AddPlayer(g, p, cfg, env.now))
    case Leave(pid) => (match RemovePlayer(g, pid, cfg, env.now) case Ok(res) => Ok(res.0) case Err(err) => Err(err))
    case Ready(pid) => SetPlayerReady(g, pid, true, env.now)
    case Unready(pid) => SetPlayerReady(g, pid, false, env.now)
    case Guess(pid, k, t) => (match SubmitGuess(g, pid, k, t, env.now) case Ok(res) => Ok(res.0) case Err(err) => Err(err))
    case Chat(pid, c) => SubmitChat(g, pid, c, cfg)
    case AutoStartTimer => Ok(AutoStartFire(g, env.now))
    case RoundTimer(i) => Ok(RoundTimeout(g, i))
    case PauseOver(i) => Ok(PostRoundDone(g, i, env.now))
    case EndGame => Ok(End(g))
    case RematchTimer => Ok(RematchFire(g, env.preview, env.draws))
  }

  /** Apart from joining and leaving, no event changes who is in the game or the game's id. */
  lemma StepKeepsMembers(g: Game, e: Event, env: Env, cfg: Config)
    requires !e.Join? && !e.Leave?
    ensures Step(g, e, env, cfg).Ok? ==> Step(g, e, env, cfg).value.players.Keys == g.players.Keys
    ensures Step(g, e, env, cfg).Ok? ==> Step(g, e, env, cfg).value.id == g.id
  {
  }

  /** Every member is keyed by its id and holds a record for this game sized to the rounds. */
  predicate MembersValid(g: Game) {
    forall pid :: pid in g.players ==>
      && g.players[pid].id == pid
      && g.players[pid].info.Some?
      && g.players[pid].info.value.gameId == g.id
      && (|g.rounds| > 0 ==> |g.players[pid].info.value.scores| == |g.rounds|)
  }

  /**
   * The session invariant. A game whose rematch failed to generate rounds
   * is ended with no rounds; every other game has exactly the configured
   * number of rounds.
   */
  predicate Valid(g: Game) {
    && MembersValid(g)
    && (|g.rounds| > 0 ==> |g.rounds| == g.options.numRounds)
    && (g.status != Ended || g.rematch ==> |g.rounds| > 0)
    && (g.rematch ==> g.status == Ended)
    && (g.run.Playing? ==> g.status == Active && g.run.index < |g.rounds| && g.current.Some?
                           && g.current.value.index == g.run.index && g.current.value.trackId.None?)
    && (g.status == Active ==> !g.run.Idle?)
    && (g.current.Some? && |g.rounds| > 0 ==> 0 <= g.current.value.index < |g.rounds|)
  }

  lemma ReadyAllKeepsMembers(g: Game, b: bool)
    requires MembersValid(g)
    ensures MembersValid(g.(players := ReadyAll(g.players, b)))
  {
  }

  lemma StartRoundValid(g: Game, i: nat, now: int)
    requires MembersValid(g) && i < |g.rounds| && g.status == Active
    requires |g.rounds| == g.options.numRounds && !g.rematch
    ensures Valid(StartRound(g, i, now))
  {
  }

  lemma ResolveValid(g: Game)
    requires Valid(g)
    ensures Valid(Resolve(g))
  {
    if g.run.Playing? {
      ReadyAllKeepsMembers(g, true);
    }
  }

  lemma EndValid(g: Game)
    requires Valid(g)
    ensures Valid(End(g))
  {
    if g.status != Ended {
      ResolveValid(g);
    }
  }

  lemma StartValid(g: Game, now: int)
    requires Valid(g) && g.status == Pending
    ensures Valid(Start(g, now))
  {
    var g1 := g.(status := Active, players := ReadyAll(g.players, false));
    ReadyAllKeepsMembers(g, false);
    StartRoundValid(g1, 0, now);
  }

  lemma CheckReadinessValid(g: Game, now: int)
    requires Valid(g)
    ensures Valid(CheckReadiness(g, now))
  {
    match g.status
    case Pending =>
      if AllReady(g.players) {
        StartValid(g.(autoStart := Unarmed), now);
      }
    case Active =>
      ResolveValid(g);
    case Ended =>
  }

  lemma ScoredValid(g: Game, pid: string, k: nat, pts: Points)
    requires Valid(g) && pid in g.players && k < |g.players[pid].info.value.scores|
    ensures Valid(Scored(g, pid, k, pts))
  {
    var g' := Scored(g, pid, k, pts);
    assert g'.players[pid].info.value.scores == g.players[pid].info.value.scores[k := Some(pts)];
  }

  lemma SubmitGuessValid(g: Game, pid: string, k: int, t: string, now: int)
    requires Valid(g)
    ensures SubmitGuess(g, pid, k, t, now).Ok? ==> Valid(SubmitGuess(g, pid, k, t, now).value.0)
  {
    if SubmitGuess(g, pid, k, t, now).Ok? {
      var round := g.rounds[k];
      var pts := GuessPoints(t == round.trackId, round.maxDuration, round.startTime, now);
      ScoredValid(g, pid, k, pts);
      CheckReadinessValid(Scored(g, pid, k, pts), now);
    }
  }

  lemma AddPlayerValid(g: Game, p: Player, cfg: Config, now: int)
    requires Valid(g)
    ensures Valid(AddPlayer(g, p, cfg, now))
  {
    var g1 := WithMember(g, p);
    assert Valid(g1);
    SubmitGuessValid(g1, p.id, CurrentIndex(g1), "", now);
  }

  lemma RemovePlayerValid(g: Game, pid: string, cfg: Config, now: int)
    requires Valid(g)
    ensures RemovePlayer(g, pid, cfg, now).Ok? ==> Valid(RemovePlayer(g, pid, cfg, now).value.0)
  {
    if IsMember(g, pid) {
      var g1 := g.(players := g.players - {pid},
                   chat := g.chat + [ChatMessage(cfg.serverChatName, g.players[pid].name + " has left the game.")]);
      assert Valid(g1);
      CheckReadinessValid(g1, now);
    }
  }

  lemma SetPlayerReadyValid(g: Game, pid: string, b: bool, now: int)
    requires Valid(g)
    ensures SetPlayerReady(g, pid, b, now).Ok? ==> Valid(SetPlayerReady(g, pid, b, now).value)
  {
    if IsMember(g, pid) {
      var g1 := g.(players := g.players[pid := SetReady(g.players[pid], b)]);
      assert Valid(g1);
      CheckReadinessValid(g1, now);
    }
  }

  lemma RematchValid(g: Game, preview: Preview, draws: Draws)
    requires Valid(g)
    ensures Valid(RematchFire(g, preview, draws))
  {
  }

  lemma PostRoundDoneValid(g: Game, i: nat, now: int)
    requires Valid(g)
    ensures Valid(PostRoundDone(g, i, now))
  {
    if g.run == Revealed(i) {
      if g.status == Active && i + 1 < |g.rounds| {
        StartRoundValid(g, i + 1, now);
      } else {
        EndValid(g);
      }
    }
  }

  lemma AutoStartFireValid(g: Game, now: int)
    requires Valid(g)
    ensures Valid(AutoStartFire(g, now))
  {
    if g.autoStart == Armed {
      ReadyAllKeepsMembers(g, true);
      CheckReadinessValid(g.(autoStart := Spent, players := ReadyAll(g.players, true)), now);
    }
  }

  /** Every event keeps the session invariant. */
  lemma StepValid(g: Game, e: Event, env: Env, cfg: Config)
    requires Valid(g)
    ensures Step(g, e, env, cfg).Ok? ==> Valid(Step(g, e, env, cfg).value)
  {
    match e
    case Join(p) => AddPlayerValid(g, p, cfg, env.now);
    case Leave(pid) => RemovePlayerValid(g, pid, cfg, env.now);
    case Ready(pid) => SetPlayerReadyValid(g, pid, true, env.now);
    case Unready(pid) => SetPlayerReadyValid(g, pid, false, env.now);
    case Guess(pid, k, t) => SubmitGuessValid(g, pid, k, t, env.now);
    case Chat(pid, c) =>
    case AutoStartTimer => AutoStartFireValid(g, env.now);
    case RoundTimer(i) => ResolveValid(g);
    case PauseOver(i) => PostRoundDoneValid(g, i, env.now);
    case EndGame => EndValid(g);
    case RematchTimer => RematchValid(g, env.preview, env.draws);
  }
}
