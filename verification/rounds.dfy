/**
 * Game options and round generation of server/Game.ts: the constructor's
 * option normalisation and `generateRounds`, with the helper `createRound`
 * that builds the multiple-choice sets. The music catalog's preview lookup
 * is an oracle from track id to an optional URL; lodash's random draws are
 * key streams (see module Random).
 */
module Rounds {
  import opened Common
  import opened Random

  datatype Track = Track(id: string, name: string, artists: seq<string>, isLocal: bool)

  /** A playlist; the track of an item may be null. */
  datatype Playlist = Playlist(id: string, name: string, items: seq<Option<Track>>)

  /** Free search, multiple choice, or the co-located "theater" variant. */
  datatype GameType = Search | Choices | Theater

  /** One answer offered in a multiple-choice round. */
  datatype Choice = Choice(id: string, name: string, artist: string)

  datatype Round = Round(
    trackId: string,
    previewUrl: string,
    maxDuration: int,              // milliseconds
    startTime: int,                // stamped when the round starts
    choices: Option<seq<Choice>>)  // only in multiple-choice games

  /** The preview lookup of the music catalog; a failed lookup is `None`. */
  type Preview = string -> Option<string>

  /** Accepted range and default of one option. */
  datatype Bounds = Bounds(min: int, max: int, default: int)

  /**
   * The option table the constructor walks. Its values are not part of the
   * shown sources, so they are a parameter; `numChoices` may be missing from
   * it, which is why the source reads that option with a fallback.
   */
  datatype OptionTable = OptionTable(numRounds: Bounds, roundDuration: Bounds, numChoices: Option<Bounds>)

  /** The options as requested; `None` is `undefined`. */
  datatype Options = Options(numRounds: Option<int>, roundDuration: Option<int>, numChoices: Option<int>)

  /** The options after normalisation. */
  datatype Settings = Settings(numRounds: int, roundDuration: int, numChoices: Option<int>)

  /** One option: an unset or out-of-range value becomes the default. */
  function Normalise(v: Option<int>, b: Bounds): (r: int)
    ensures v.Some? && b.min <= v.value <= b.max ==> r == v.value
    ensures v.None? || v.value < b.min || b.max < v.value ==> r == b.default
  {
    if v.None? || v.value < b.min || v.value > b.max then b.default else v.value
  }

  /** A table whose defaults lie in their own ranges. */
  predicate SaneTable(t: OptionTable) {
    && t.numRounds.min <= t.numRounds.default <= t.numRounds.max
    && t.roundDuration.min <= t.roundDuration.default <= t.roundDuration.max
    && (t.numChoices.Some? ==> t.numChoices.value.min <= t.numChoices.value.default <= t.numChoices.value.max)
  }

  /** The constructor's loop over the option table. */
  function Normalised(o: Options, t: OptionTable): (s: Settings)
    ensures o.numRounds.Some? && t.numRounds.min <= o.numRounds.value <= t.numRounds.max ==> s.numRounds == o.numRounds.value
    ensures o.roundDuration.Some? && t.roundDuration.min <= o.roundDuration.value <= t.roundDuration.max ==> s.roundDuration == o.roundDuration.value
    ensures t.numChoices.None? ==> s.numChoices == o.numChoices
    ensures SaneTable(t) ==> InRange(s, t)
  {
    Settings(
      Normalise(o.numRounds, t.numRounds),
      Normalise(o.roundDuration, t.roundDuration),
      if t.numChoices.Some? then Some(Normalise(o.numChoices, t.numChoices.value)) else o.numChoices)
  }

  /** Every option the table lists lies in its range. */
  predicate InRange(s: Settings, t: OptionTable) {
    && t.numRounds.min <= s.numRounds <= t.numRounds.max
    && t.roundDuration.min <= s.roundDuration <= t.roundDuration.max
    && (t.numChoices.Some? ==> s.numChoices.Some? && t.numChoices.value.min <= s.numChoices.value <= t.numChoices.value.max)
  }

  function AsOptions(s: Settings): Options {
    Options(Some(s.numRounds), Some(s.roundDuration), s.numChoices)
  }

  /** Normalising options that are already in range changes nothing, so normalisation is idempotent. */
  lemma NormalisedKeepsInRange(s: Settings, t: OptionTable)
    requires InRange(s, t)
    ensures Normalised(AsOptions(s), t) == s
  {
  }

  /** An out-of-range or missing option is replaced by its default, whatever the other options are. */
  lemma NormalisedDefaults(o: Options, t: OptionTable)
    ensures (o.numRounds.None? || o.numRounds.value < t.numRounds.min || t.numRounds.max < o.numRounds.value)
              ==> Normalised(o, t).numRounds == t.numRounds.default
    ensures (o.roundDuration.None? || o.roundDuration.value < t.roundDuration.min || t.roundDuration.max < o.roundDuration.value)
              ==> Normalised(o, t).roundDuration == t.roundDuration.default
    ensures (t.numChoices.Some? && (o.numChoices.None? || o.numChoices.value < t.numChoices.value.min || t.numChoices.value.max < o.numChoices.value))
              ==> Normalised(o, t).numChoices == Some(t.numChoices.value.default)
  {
  }

  // ---------------------------------------------------------------------
  // Track selection

  /** Null tracks and local files are not playable (`!(track?.is_local ?? true)`). */
  function Viable(items: seq<Option<Track>>): (r: seq<Track>)
    ensures forall i :: 0 <= i < |r| ==> !r[i].isLocal && Some(r[i]) in items
    ensures forall j :: 0 <= j < |items| && items[j].Some? && !items[j].value.isLocal ==> items[j].value in r
    ensures |r| <= |items|
  {
    if |items| == 0 then []
    else
      var rest := Viable(items[1..]);
      assert forall j :: 1 <= j < |items| ==> items[j] == items[1..][j - 1];
      if items[0].Some? && !items[0].value.isLocal then [items[0].value] + rest else rest
  }

  /** The lookup returned a URL and it is not the empty string. */
  predicate HasPreview(t: Track, preview: Preview) {
    preview(t.id).Some? && preview(t.id).value != ""
  }

  /** Reference definition: the tracks with a preview, in order. */
  function Playable(s: seq<Track>, preview: Preview): (r: seq<Track>)
    ensures forall i :: 0 <= i < |r| ==> r[i] in s && HasPreview(r[i], preview)
    ensures |r| <= |s|
  {
    if |s| == 0 then []
    else if HasPreview(s[0], preview) then [s[0]] + Playable(s[1..], preview)
    else Playable(s[1..], preview)
  }

  /**
   * The selection loop: walk the shuffled tracks, look each one up, and keep
   * it when it has a preview, until `need` tracks are kept or the list ends.
   */
  function Choose(s: seq<Track>, need: int, preview: Preview): (r: seq<Track>)
    ensures |r| <= Max(need, 0)
    ensures forall i :: 0 <= i < |r| ==> r[i] in s && HasPreview(r[i], preview)
    ensures |r| == 0 <==> need <= 0 || forall i :: 0 <= i < |s| ==> !HasPreview(s[i], preview)
  {
    if |s| == 0 || need <= 0 then []
    else
      var rest := Choose(s[1..], need - (if HasPreview(s[0], preview) then 1 else 0), preview);
      assert forall i :: 1 <= i < |s| ==> s[i] == s[1..][i - 1];
      if HasPreview(s[0], preview) then [s[0]] + rest else rest
  }

  /** The loop keeps the first `need` tracks that have a preview, or all of them if there are fewer. */
  lemma {:induction false} ChooseIsPrefix(s: seq<Track>, need: int, preview: Preview)
    ensures var p := Playable(s, preview);
      Choose(s, need, preview) == p[..Clamp(need, 0, |p|)]
    decreases |s|
  {
    if |s| > 0 && need > 0 {
      var d := if HasPreview(s[0], preview) then 1 else 0;
      ChooseIsPrefix(s[1..], need - d, preview);
    }
  }

  // ---------------------------------------------------------------------
  // Multiple-choice sets

  function TrackIds(ts: seq<Track>): (r: seq<string>)
    ensures |r| == |ts| && forall i :: 0 <= i < |ts| ==> r[i] == ts[i].id
  {
    seq(|ts|, i requires 0 <= i < |ts| => ts[i].id)
  }

  /** No two choices carry the same track id. */
  predicate DistinctChoiceIds(cs: seq<Choice>) {
    forall a, b :: 0 <= a < b < |cs| ==> cs[a].id != cs[b].id
  }

  /** The distinct ids among `s`. */
  function IdSet(s: seq<Track>): set<string> {
    set i | 0 <= i < |s| :: s[i].id
  }

  lemma IdSetCons(s: seq<Track>)
    requires |s| > 0
    ensures IdSet(s) == {s[0].id} + IdSet(s[1..])
  {
    forall x | x in IdSet(s) ensures x in {s[0].id} + IdSet(s[1..]) {
      var i :| 0 <= i < |s| && s[i].id == x;
      if i > 0 {
        assert s[1..][i - 1].id == x;
      }
    }
    forall x | x in IdSet(s[1..]) ensures x in IdSet(s) {
      var i :| 0 <= i < |s[1..]| && s[1..][i].id == x;
      assert s[i + 1].id == x;
    }
  }

  /** `lodash.uniqBy(s, "id")` with the ids in `seen` already taken: keeps the first track of each id. */
  function UniqFrom(s: seq<Track>, seen: set<string>): (r: seq<Track>)
    ensures Distinct(TrackIds(r))
    ensures forall i :: 0 <= i < |r| ==> r[i].id !in seen && r[i] in s
    ensures |r| == |IdSet(s) - seen|
    decreases |s|
  {
    if |s| == 0 then []
    else
      IdSetCons(s);
      if s[0].id in seen then
        assert IdSet(s) - seen == IdSet(s[1..]) - seen;
        UniqFrom(s[1..], seen)
      else
        var rest := UniqFrom(s[1..], seen + {s[0].id});
        FreshIdCount(s, seen);
        UniqCons(s[0], rest, s[1..], seen);
        [s[0]] + rest
  }

  /** A first track with an unseen id adds exactly one id to the count of unseen ids. */
  lemma FreshIdCount(s: seq<Track>, seen: set<string>)
    requires |s| > 0 && s[0].id !in seen && IdSet(s) == {s[0].id} + IdSet(s[1..])
    ensures |IdSet(s) - seen| == |IdSet(s[1..]) - (seen + {s[0].id})| + 1
  {
    var others := IdSet(s[1..]) - (seen + {s[0].id});
    assert IdSet(s) - seen == {s[0].id} + others;
    assert s[0].id !in others;
  }

  /** Putting a track with a new id in front of a duplicate-free list keeps it duplicate-free. */
  lemma UniqCons(t: Track, rest: seq<Track>, tail: seq<Track>, seen: set<string>)
    requires t.id !in seen
    requires Distinct(TrackIds(rest))
    requires forall i :: 0 <= i < |rest| ==> rest[i].id !in seen + {t.id} && rest[i] in tail
    ensures Distinct(TrackIds([t] + rest))
    ensures forall i :: 0 <= i < |[t] + rest| ==> ([t] + rest)[i].id !in seen && ([t] + rest)[i] in [t] + tail
  {
    var r := [t] + rest;
    forall a, b | 0 <= a < b < |r| ensures TrackIds(r)[a] != TrackIds(r)[b] {
      assert r[b] == rest[b - 1];
      if a > 0 {
        assert r[a] == rest[a - 1];
        assert TrackIds(rest)[a - 1] != TrackIds(rest)[b - 1];
      }
    }
    forall i | 0 <= i < |r| ensures r[i].id !in seen && r[i] in [t] + tail {
      if i > 0 {
        assert r[i] == rest[i - 1];
      }
    }
  }

  function UniqBy(s: seq<Track>): seq<Track> {
    UniqFrom(s, {})
  }

  /** Putting the answer first and dropping the head of `uniqBy` leaves the other ids, once each. */
  lemma UniqByAfterAnswer(track: Track, viable: seq<Track>)
    ensures |UniqBy([track] + viable)| >= 1
    ensures UniqBy([track] + viable)[1..] == UniqFrom(viable, {track.id})
  {
    var s := [track] + viable;
    assert s[0] == track && s[1..] == viable;
    assert {} + {track.id} == {track.id};
  }

  /** The artist names joined with `sep` (`Array.prototype.join`). */
  function Join(parts: seq<string>, sep: string): string {
    if |parts| == 0 then ""
    else if |parts| == 1 then parts[0]
    else parts[0] + sep + Join(parts[1..], sep)
  }

  /** Adding a part at the end adds the separator and that part: `join` read as a left fold. */
  lemma {:induction false} JoinSnoc(parts: seq<string>, p: string, sep: string)
    requires |parts| > 0
    ensures Join(parts + [p], sep) == Join(parts, sep) + sep + p
    decreases |parts|
  {
    if |parts| == 1 {
      assert (parts + [p])[1..] == [p];
    } else {
      assert (parts + [p])[1..] == parts[1..] + [p];
      JoinSnoc(parts[1..], p, sep);
    }
  }

  function ChoiceOf(t: Track): (c: Choice)
    ensures c.id == t.id && c.name == t.name
  {
    Choice(t.id, t.name, Join(t.artists, ", "))
  }

  function ChoicesOf(ts: seq<Track>): (r: seq<Choice>)
    ensures |r| == |ts| && forall i :: 0 <= i < |ts| ==> r[i] == ChoiceOf(ts[i])
  {
    seq(|ts|, i requires 0 <= i < |ts| => ChoiceOf(ts[i]))
  }

  /** The ids, other than the answer's, that the viable tracks carry. */
  function OtherIds(track: Track, viable: seq<Track>): set<string> {
    IdSet(viable) - {track.id}
  }

  /** The random draws behind one choice set. */
  datatype ChoiceDraw = ChoiceDraw(sample: seq<nat>, order: seq<nat>)

  /**
   * The choice set of `createRound`: the answer plus a sample of
   * `numChoices - 1` tracks with other ids, shuffled.
   */
  function MakeChoices(track: Track, viable: seq<Track>, numChoices: int, draw: ChoiceDraw): (r: seq<Choice>)
    ensures |r| == 1 + Clamp(numChoices - 1, 0, |OtherIds(track, viable)|)
    ensures DistinctChoiceIds(r)
    ensures ChoiceOf(track) in r
    ensures forall i :: 0 <= i < |r| ==> r[i] == ChoiceOf(track) || (r[i].id in OtherIds(track, viable) && exists j :: 0 <= j < |viable| && r[i] == ChoiceOf(viable[j]))
  {
    var possible := UniqBy([track] + viable)[1..];
    UniqByAfterAnswer(track, viable);
    var idx := SampleIndices(|possible|, numChoices - 1, draw.sample);
    var picked := [track] + SampleSize(possible, numChoices - 1, draw.sample);
    OthersExcludeAnswer(track, viable, possible);
    PickedFromOthers(track, viable, possible, idx, picked);
    var cs := ChoicesOf(picked);
    var r := Shuffle(cs, draw.order);
    ShuffledChoices(picked, cs, r, draw.order);
    assert cs[0] == ChoiceOf(track);
    r
  }

  /** The other-id list holds viable tracks only, none with the answer's id, and no id twice. */
  lemma OthersExcludeAnswer(track: Track, viable: seq<Track>, possible: seq<Track>)
    requires possible == UniqFrom(viable, {track.id})
    ensures Distinct(TrackIds(possible))
    ensures forall i :: 0 <= i < |possible| ==> possible[i].id != track.id && possible[i] in viable
  {
    forall i | 0 <= i < |possible| ensures possible[i].id != track.id && possible[i] in viable {
      assert possible[i].id !in {track.id};
    }
  }

  /** The answer followed by distinct positions of the other-id list: distinct ids, each from a viable track. */
  lemma PickedFromOthers(track: Track, viable: seq<Track>, possible: seq<Track>, idx: seq<nat>, picked: seq<Track>)
    requires Distinct(TrackIds(possible))
    requires forall i :: 0 <= i < |possible| ==> possible[i].id != track.id && possible[i] in viable
    requires forall i :: 0 <= i < |idx| ==> idx[i] < |possible|
    requires Distinct(idx)
    requires picked == [track] + Pick(possible, idx)
    ensures Distinct(TrackIds(picked))
    ensures forall i :: 1 <= i < |picked| ==> picked[i].id in OtherIds(track, viable) && picked[i] in viable
  {
    assert |picked| == |idx| + 1 && picked[0] == track;
    assert forall i :: 1 <= i < |picked| ==> picked[i] == possible[idx[i - 1]];
    PickedDistinct(track, possible, idx, picked);
    PickedViable(track, viable, possible, idx, picked);
  }

  lemma PickedDistinct(track: Track, possible: seq<Track>, idx: seq<nat>, picked: seq<Track>)
    requires forall i :: 0 <= i < |idx| ==> idx[i] < |possible|
    requires Distinct(idx) && Distinct(TrackIds(possible))
    requires forall i :: 0 <= i < |possible| ==> possible[i].id != track.id
    requires |picked| == |idx| + 1 && picked[0] == track
    requires forall i :: 1 <= i < |picked| ==> picked[i] == possible[idx[i - 1]]
    ensures Distinct(TrackIds(picked))
  {
    forall a, b | 0 <= a < b < |picked| ensures TrackIds(picked)[a] != TrackIds(picked)[b] {
      assert picked[b] == possible[idx[b - 1]];
      if a > 0 {
        assert picked[a] == possible[idx[a - 1]];
        assert TrackIds(possible)[idx[a - 1]] != TrackIds(possible)[idx[b - 1]];
      }
    }
  }

  lemma PickedViable(track: Track, viable: seq<Track>, possible: seq<Track>, idx: seq<nat>, picked: seq<Track>)
    requires forall i :: 0 <= i < |idx| ==> idx[i] < |possible|
    requires forall i :: 0 <= i < |possible| ==> possible[i].id != track.id && possible[i] in viable
    requires |picked| == |idx| + 1
    requires forall i :: 1 <= i < |picked| ==> picked[i] == possible[idx[i - 1]]
    ensures forall i :: 1 <= i < |picked| ==> picked[i].id in OtherIds(track, viable) && picked[i] in viable
  {
    forall i | 1 <= i < |picked| ensures picked[i].id in OtherIds(track, viable) && picked[i] in viable {
      var t := possible[idx[i - 1]];
      var j :| 0 <= j < |viable| && viable[j] == t;
      assert t.id in IdSet(viable);
    }
  }

  /** Shuffling the choices of tracks with distinct ids keeps the ids distinct and adds no choice. */
  lemma ShuffledChoices(picked: seq<Track>, cs: seq<Choice>, r: seq<Choice>, order: seq<nat>)
    requires Distinct(TrackIds(picked))
    requires cs == ChoicesOf(picked)
    requires r == Shuffle(cs, order)
    ensures DistinctChoiceIds(r)
    ensures forall i :: 0 <= i < |r| ==> exists k :: 0 <= k < |picked| && r[i] == ChoiceOf(picked[k])
  {
    var p := Permutation(|cs|, order);
    assert r == Pick(cs, p);
    forall a, b | 0 <= a < b < |r| ensures r[a].id != r[b].id {
      assert r[a] == cs[p[a]] && r[b] == cs[p[b]];
      assert TrackIds(picked)[p[a]] != TrackIds(picked)[p[b]];
    }
    forall i | 0 <= i < |r| ensures exists k :: 0 <= k < |picked| && r[i] == ChoiceOf(picked[k]) {
      assert r[i] == cs[p[i]] == ChoiceOf(picked[p[i]]);
    }
  }

  // ---------------------------------------------------------------------
  // Round list

  /** The random draws of one `generateRounds` call. */
  datatype Draws = Draws(
    order: seq<nat>,            // shuffle of the viable tracks
    choices: seq<ChoiceDraw>,   // one per chosen track
    padding: seq<seq<nat>>,     // one per padding pass
    reorder: seq<nat>)          // final shuffle after padding

  function DrawFor(d: Draws, i: nat): ChoiceDraw {
    if i < |d.choices| then d.choices[i] else ChoiceDraw([], [])
  }

  /** `createRound(track)`. */
  function CreateRound(track: Track, gameType: GameType, viable: seq<Track>, settings: Settings,
                       preview: Preview, draw: ChoiceDraw): (r: Round)
    ensures r.trackId == track.id && r.startTime == 0
    ensures r.maxDuration == settings.roundDuration * 1000
    ensures r.choices.Some? <==> gameType == Choices
    ensures HasPreview(track, preview) ==> Some(r.previewUrl) == preview(track.id)
  {
    var choices :=
      if gameType == Choices then Some(MakeChoices(track, viable, settings.numChoices.GetOr(1), draw)) else None;
    Round(track.id, preview(track.id).GetOr(""), settings.roundDuration * 1000, 0, choices)
  }

  /** The shuffled viable tracks. */
  function Candidates(playlist: Playlist, draws: Draws): (r: seq<Track>)
    ensures forall i :: 0 <= i < |r| ==> r[i] in Viable(playlist.items)
    ensures forall j :: 0 <= j < |Viable(playlist.items)| ==> Viable(playlist.items)[j] in r
  {
    Shuffle(Viable(playlist.items), draws.order)
  }

  function Chosen(playlist: Playlist, settings: Settings, preview: Preview, draws: Draws): seq<Track> {
    Choose(Candidates(playlist, draws), settings.numRounds, preview)
  }

  /** The tracks that have a preview, each as often as `s` lists it. */
  lemma {:induction false} PlayableSub(s: seq<Track>, preview: Preview)
    ensures multiset(Playable(s, preview)) <= multiset(s)
    decreases |s|
  {
    if |s| > 0 {
      PlayableSub(s[1..], preview);
      assert s == [s[0]] + s[1..];
    }
  }

  /**
   * The selection takes each track at most as often as the playlist lists
   * it, since it walks a shuffle of the viable tracks once; so a playlist
   * without repeats gives pairwise distinct chosen tracks.
   */
  lemma ChosenFromPlaylist(playlist: Playlist, settings: Settings, preview: Preview, draws: Draws)
    ensures multiset(Chosen(playlist, settings, preview, draws)) <= multiset(Viable(playlist.items))
    ensures Distinct(Viable(playlist.items)) ==> Distinct(Chosen(playlist, settings, preview, draws))
  {
    var c := Candidates(playlist, draws);
    ChooseSub(c, settings.numRounds, preview);
    assert multiset(c) == multiset(Viable(playlist.items));
    if Distinct(Viable(playlist.items)) {
      DistinctSub(Chosen(playlist, settings, preview, draws), Viable(playlist.items));
    }
  }

  /** The selection loop takes each track at most as often as its input lists it. */
  lemma ChooseSub(s: seq<Track>, need: int, preview: Preview)
    ensures multiset(Choose(s, need, preview)) <= multiset(s)
  {
    var p := Playable(s, preview);
    ChooseIsPrefix(s, need, preview);
    PrefixSub(p, Clamp(need, 0, |p|));
    PlayableSub(s, preview);
  }

  /** One round per chosen track, in the order they were chosen. */
  function Built(playlist: Playlist, gameType: GameType, settings: Settings, preview: Preview, draws: Draws): (r: seq<Round>)
    ensures |r| == |Chosen(playlist, settings, preview, draws)|
    ensures forall i :: 0 <= i < |r| ==> r[i] == CreateRound(Chosen(playlist, settings, preview, draws)[i], gameType,
                                                            Candidates(playlist, draws), settings, preview, DrawFor(draws, i))
  {
    var chosen := Chosen(playlist, settings, preview, draws);
    seq(|chosen|, i requires 0 <= i < |chosen| =>
      CreateRound(chosen[i], gameType, Candidates(playlist, draws), settings, preview, DrawFor(draws, i)))
  }

  /**
   * The padding loop: while short of `n`, append a sample (of the missing
   * count, clamped to the current length) of the rounds so far.
   */
  function Pad(rs: seq<Round>, n: int, draws: seq<seq<nat>>): (r: seq<Round>)
    requires |rs| > 0
    ensures |rs| < n ==> |r| == n
    ensures n <= |rs| ==> r == rs
    ensures rs <= r
    ensures forall i :: 0 <= i < |r| ==> r[i] in rs
    decreases n - |rs|
  {
    if n <= |rs| then rs
    else
      var keys := if |draws| > 0 then draws[0] else [];
      var more := rs + SampleSize(rs, n - |rs|, keys);
      var r := Pad(more, n, if |draws| > 0 then draws[1..] else []);
      assert forall x :: x in more ==> x in rs;
      r
  }

  /** A round of a track with a preview among the playlist's viable tracks. */
  predicate FromPlayable(r: Round, items: seq<Option<Track>>, preview: Preview) {
    exists t :: t in Viable(items) && HasPreview(t, preview) && r.trackId == t.id
  }

  /** `generateRounds`: the round list, or the error it throws when no track has a preview. */
  function GenerateRounds(playlist: Playlist, gameType: GameType, settings: Settings, preview: Preview, draws: Draws): (r: Result<seq<Round>>)
    ensures r.Err? <==> (settings.numRounds <= 0 ||
      forall j :: 0 <= j < |Viable(playlist.items)| ==> !HasPreview(Viable(playlist.items)[j], preview))
    ensures r.Err? ==> r.error == NoValidRounds
    ensures r.Ok? ==> |r.value| == settings.numRounds
    ensures r.Ok? ==> forall i :: 0 <= i < |r.value| ==> r.value[i] in Built(playlist, gameType, settings, preview, draws)
    ensures r.Ok? ==> forall k :: 0 <= k < |Built(playlist, gameType, settings, preview, draws)| ==>
                        Built(playlist, gameType, settings, preview, draws)[k] in r.value
    ensures r.Ok? && settings.numRounds <= |Chosen(playlist, settings, preview, draws)| ==>
              r.value == Built(playlist, gameType, settings, preview, draws)
  {
    var built := Built(playlist, gameType, settings, preview, draws);
    NoPlayableCandidate(playlist, preview, draws);
    if |built| <= 0 then Err(NoValidRounds)
    else if |built| < settings.numRounds then
      PadThenShuffle(built, settings.numRounds, draws.padding, draws.reorder);
      Ok(Shuffle(Pad(built, settings.numRounds, draws.padding), draws.reorder))
    else
      Ok(built)
  }

  /** No shuffled candidate has a preview exactly when no viable track has one. */
  lemma NoPlayableCandidate(playlist: Playlist, preview: Preview, draws: Draws)
    ensures (forall i :: 0 <= i < |Candidates(playlist, draws)| ==> !HasPreview(Candidates(playlist, draws)[i], preview))
        <==> (forall j :: 0 <= j < |Viable(playlist.items)| ==> !HasPreview(Viable(playlist.items)[j], preview))
  {
    var c := Candidates(playlist, draws);
    var v := Viable(playlist.items);
    if forall i :: 0 <= i < |c| ==> !HasPreview(c[i], preview) {
      forall j | 0 <= j < |v| ensures !HasPreview(v[j], preview) {
        assert v[j] in c;
      }
    }
    if forall j :: 0 <= j < |v| ==> !HasPreview(v[j], preview) {
      forall i | 0 <= i < |c| ensures !HasPreview(c[i], preview) {
        assert c[i] in v;
      }
    }
  }

  /** Padding then shuffling reaches exactly `n` rounds, all taken from `built`, none of `built` lost. */
  lemma PadThenShuffle(built: seq<Round>, n: int, padding: seq<seq<nat>>, reorder: seq<nat>)
    requires 0 < |built| < n
    ensures var rs := Shuffle(Pad(built, n, padding), reorder);
      && |rs| == n
      && (forall i :: 0 <= i < |rs| ==> rs[i] in built)
      && (forall k :: 0 <= k < |built| ==> built[k] in rs)
  {
    var padded := Pad(built, n, padding);
    var rs := Shuffle(padded, reorder);
    forall i | 0 <= i < |rs| ensures rs[i] in built {
      assert rs[i] in padded;
    }
    forall k | 0 <= k < |built| ensures built[k] in rs {
      assert built[k] == padded[k];
    }
  }

  /** A round as `generateRounds` promises it: a playable track, its preview URL, the configured duration. */
  predicate WellFormedRound(r: Round, playlist: Playlist, gameType: GameType, settings: Settings, preview: Preview) {
    && FromPlayable(r, playlist.items, preview)
    && preview(r.trackId) == Some(r.previewUrl) && r.previewUrl != ""
    && r.maxDuration == settings.roundDuration * 1000
    && r.startTime == 0
    && (r.choices.Some? <==> gameType == Choices)
  }

  lemma BuiltAreWellFormed(playlist: Playlist, gameType: GameType, settings: Settings, preview: Preview, draws: Draws)
    ensures var built := Built(playlist, gameType, settings, preview, draws);
      forall k :: 0 <= k < |built| ==> WellFormedRound(built[k], playlist, gameType, settings, preview)
  {
    var built := Built(playlist, gameType, settings, preview, draws);
    var chosen := Chosen(playlist, settings, preview, draws);
    forall k | 0 <= k < |built| ensures WellFormedRound(built[k], playlist, gameType, settings, preview) {
      var t := chosen[k];
      assert t in Candidates(playlist, draws) && HasPreview(t, preview);
      assert t in Viable(playlist.items);
      assert built[k].trackId == t.id;
    }
  }

  /** Every generated round carries a playable track's id, that track's preview URL and the configured duration. */
  lemma GeneratedRoundsArePlayable(playlist: Playlist, gameType: GameType, settings: Settings, preview: Preview, draws: Draws)
    requires GenerateRounds(playlist, gameType, settings, preview, draws).Ok?
    ensures var rs := GenerateRounds(playlist, gameType, settings, preview, draws).value;
      forall i :: 0 <= i < |rs| ==> WellFormedRound(rs[i], playlist, gameType, settings, preview)
  {
    var rs := GenerateRounds(playlist, gameType, settings, preview, draws).value;
    var built := Built(playlist, gameType, settings, preview, draws);
    BuiltAreWellFormed(playlist, gameType, settings, preview, draws);
    forall i | 0 <= i < |rs| ensures WellFormedRound(rs[i], playlist, gameType, settings, preview) {
      assert rs[i] in built;
    }
  }
}
