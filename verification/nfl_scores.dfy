/** The score feed of `convex/nflScores.ts`: picking the Super Bowl out of a
    scoreboard response, turning per-quarter line scores into cumulative
    quarter scores, and writing a new game row only when something changed.
    The HTTP fetch is not modelled: the action receives the decoded
    scoreboard, with every score string already parsed to an integer. */
module NflScores {
  import opened Wrappers
  import Text
  import opened Games

  datatype GameState = Pre | In | Post

  /** The fields of an ESPN competitor the feed reads. `teamId` is
      `team?.id`; `score` is `parseInt(score ?? "0", 10)`. */
  datatype Competitor = Competitor(id: Option<string>, homeAway: string, score: int,
                                   teamId: Option<string>, linescores: Option<seq<int>>)

  datatype Situation = Situation(possession: Option<string>, downDistanceText: Option<string>,
                                 possessionText: Option<string>, isRedZone: Option<bool>)

  /** A competition; `notes` holds each note's optional headline. */
  datatype Competition = Competition(competitors: Option<seq<Competitor>>, notes: Option<seq<Option<string>>>,
                                     situation: Option<Situation>)

  datatype StatusType = StatusType(state: GameState, completed: bool)

  datatype Status = Status(period: Option<int>, statusType: Option<StatusType>)

  /** An ESPN event; `seasonType` is `season?.type`, `weekNumber` is
      `week?.number`. */
  datatype Event = Event(id: string, name: Option<string>, seasonType: Option<int>, weekNumber: Option<int>,
                         competitions: Option<seq<Competition>>, status: Option<Status>)

  // ------------------------------------------------------- find the game

  /** Postseason week 5. */
  predicate ByWeek(e: Event) {
    e.seasonType == Some(3) && e.weekNumber == Some(5)
  }

  predicate MentionsSuperBowl(headline: Option<string>) {
    headline.Some? && Text.Contains(Text.Lower(headline.value), "super bowl")
  }

  predicate CompetitionNoted(c: Competition) {
    c.notes.Some? && exists i :: 0 <= i < |c.notes.value| && MentionsSuperBowl(c.notes.value[i])
  }

  /** Some competition has a note headline mentioning the Super Bowl. */
  predicate ByNotes(e: Event) {
    e.competitions.Some? && exists i :: 0 <= i < |e.competitions.value| && CompetitionNoted(e.competitions.value[i])
  }

  /** The broad name match. */
  predicate ByName(e: Event) {
    e.name.Some? &&
    var n := Text.Lower(e.name.value);
    Text.Contains(n, "super bowl") || Text.Contains(n, "seahawks") || Text.Contains(n, "patriots")
  }

  /** `e` is the first event that satisfies `p`. */
  predicate IsFirst(events: seq<Event>, p: Event -> bool, e: Event) {
    exists k :: 0 <= k < |events| && events[k] == e && p(e) && forall j :: 0 <= j < k ==> !p(events[j])
  }

  /** `events.find(p)`. */
  function FindFirst(events: seq<Event>, p: Event -> bool): (r: Option<Event>)
    ensures r.Some? ==> IsFirst(events, p, r.value)
    ensures r.None? <==> forall k :: 0 <= k < |events| ==> !p(events[k])
  {
    if events == [] then None
    else if p(events[0]) then Some(events[0])
    else
      var rest := FindFirst(events[1..], p);
      assert forall k :: 1 <= k < |events| ==> events[k] == events[1..][k - 1];
      if rest.Some? then
        var k :| 0 <= k < |events[1..]| && events[1..][k] == rest.value && p(rest.value)
                 && forall j :: 0 <= j < k ==> !p(events[1..][j]);
        assert events[k + 1] == rest.value;
        rest
      else rest
  }

  /** `findSuperBowl`: by week, else by note, else by name, else the first
      event (none when there are no events). */
  function FindSuperBowl(events: seq<Event>): (r: Option<Event>)
    ensures r.None? <==> events == []
    ensures (exists k :: 0 <= k < |events| && ByWeek(events[k])) ==> r.Some? && IsFirst(events, ByWeek, r.value)
    ensures ((forall k :: 0 <= k < |events| ==> !ByWeek(events[k]))
             && (exists k :: 0 <= k < |events| && ByNotes(events[k])))
            ==> r.Some? && IsFirst(events, ByNotes, r.value)
    ensures ((forall k :: 0 <= k < |events| ==> !ByWeek(events[k]) && !ByNotes(events[k]))
             && (exists k :: 0 <= k < |events| && ByName(events[k])))
            ==> r.Some? && IsFirst(events, ByName, r.value)
    ensures events != [] && (forall k :: 0 <= k < |events| ==> !ByWeek(events[k]) && !ByNotes(events[k]) && !ByName(events[k]))
            ==> r == Some(events[0])
  {
    var byWeek := FindFirst(events, ByWeek);
    if byWeek.Some? then byWeek
    else
      var byNotes := FindFirst(events, ByNotes);
      if byNotes.Some? then byNotes
      else
        var byName := FindFirst(events, ByName);
        if byName.Some? then byName
        else if events == [] then None
        else Some(events[0])
  }

  // ------------------------------------------------------- build quarters

  /** `Math.min(Math.max(period, 1), 4)`. */
  function NumQuarters(period: int): (n: nat)
    ensures 1 <= n <= 4
    ensures 1 <= period <= 4 ==> n == period
  {
    if period < 1 then 1 else if period > 4 then 4 else period
  }

  function QuarterLabel(i: nat): string
    requires i < 4
  {
    ["Q1", "Q2", "Q3", "Q4"][i]
  }

  function Sum(s: seq<int>): int {
    if s == [] then 0 else Sum(s[..|s| - 1]) + s[|s| - 1]
  }

  /** The cumulative score after quarter i: the sum of the first i+1 line
      scores while both sides have a line score for quarter i, otherwise the
      current total. */
  function CumulativeAt(ls: seq<int>, both: nat, total: int, i: nat): int
    requires both <= |ls|
  {
    if i < both then Sum(ls[..i + 1]) else total
  }

  /** Quarter i counts as complete when the game is over or play has moved
      past it. */
  predicate QuarterComplete(i: nat, period: int, state: GameState, completed: bool) {
    completed || state == Post || period > i + 1
  }

  function LinescoresOf(c: Competitor): seq<int> {
    if c.linescores.Some? then c.linescores.value else []
  }

  /** Quarters both sides have a line score for. */
  function BothScored(home: Competitor, away: Competitor): (n: nat)
    ensures n <= |LinescoresOf(home)| && n <= |LinescoresOf(away)|
  {
    var h := |LinescoresOf(home)|;
    var a := |LinescoresOf(away)|;
    if h < a then h else a
  }

  /** The quarters `buildQuarters` emits: home is the row team, away the
      column team; `complete` is true or absent, never false. */
  function Quarters(home: Competitor, away: Competitor, period: int, state: GameState, completed: bool): (qs: seq<Quarter>)
    ensures |qs| == NumQuarters(period)
  {
    var both := BothScored(home, away);
    seq(NumQuarters(period), i requires 0 <= i < NumQuarters(period) =>
      Quarter(QuarterLabel(i),
              CumulativeAt(LinescoresOf(home), both, home.score, i),
              CumulativeAt(LinescoresOf(away), both, away.score, i),
              if QuarterComplete(i, period, state, completed) then Some(true) else None))
  }

  /** The labels run Q1, Q2, ... in order, `complete` is never stored as
      false, and it is set exactly for the quarters play has finished. */
  lemma QuartersShape(home: Competitor, away: Competitor, period: int, state: GameState, completed: bool)
    ensures var qs := Quarters(home, away, period, state, completed);
      && (forall i :: 0 <= i < |qs| ==> qs[i].name == ["Q1", "Q2", "Q3", "Q4"][i])
      && (forall i :: 0 <= i < |qs| ==> qs[i].complete != Some(false))
      && (forall i :: 0 <= i < |qs| ==> (qs[i].complete == Some(true) <==> completed || state == Post || period > i + 1))
  {
  }

  /** While both sides have line scores, each quarter adds its line score
      to the previous cumulative score. */
  lemma {:induction false} QuartersAccumulate(home: Competitor, away: Competitor, period: int, state: GameState, completed: bool, i: nat)
    requires i + 1 < NumQuarters(period) && i + 1 < BothScored(home, away)
    ensures var qs := Quarters(home, away, period, state, completed);
      && qs[i + 1].rowTeamScore == qs[i].rowTeamScore + LinescoresOf(home)[i + 1]
      && qs[i + 1].colTeamScore == qs[i].colTeamScore + LinescoresOf(away)[i + 1]
  {
    var h := LinescoresOf(home);
    var a := LinescoresOf(away);
    assert h[..i + 2][..i + 1] == h[..i + 1];
    assert a[..i + 2][..i + 1] == a[..i + 1];
  }

  /** Period 2 with line scores [7] and [3] and totals 7 and 10: Q1 is 7–3
      and complete, Q2 is the running total 7–10 and not complete. */
  lemma QuartersExample()
    ensures Quarters(Competitor(None, "home", 7, None, Some([7])), Competitor(None, "away", 10, None, Some([3])), 2, In, false)
         == [Quarter("Q1", 7, 3, Some(true)), Quarter("Q2", 7, 10, None)]
  {
    assert [7][..1] == [7];
    assert [3][..1] == [3];
    assert Sum([7]) == Sum([7][..0]) + 7;
    assert Sum([3]) == Sum([3][..0]) + 3;
  }

  /** `buildQuarters`, with its running `homeCum`/`awayCum` accumulators. */
  method BuildQuarters(home: Competitor, away: Competitor, period: int, state: GameState, completed: bool)
    returns (quarters: seq<Quarter>, gameComplete: bool)
    ensures quarters == Quarters(home, away, period, state, completed)
    ensures gameComplete <==> completed || state == Post
  {
    var homeLs := LinescoresOf(home);
    var awayLs := LinescoresOf(away);
    var labels := ["Q1", "Q2", "Q3", "Q4"];
    var n := NumQuarters(period);
    ghost var both := BothScored(home, away);
    quarters := [];
    var homeCum := 0;
    var awayCum := 0;
    var i := 0;
    while i < n
      invariant 0 <= i <= n && |quarters| == i
      invariant forall k :: 0 <= k < i ==> quarters[k] == Quarters(home, away, period, state, completed)[k]
      invariant i > 0 ==> homeCum == CumulativeAt(homeLs, both, home.score, i - 1)
      invariant i > 0 ==> awayCum == CumulativeAt(awayLs, both, away.score, i - 1)
      invariant i == 0 ==> homeCum == 0 && awayCum == 0
    {
      if i < |homeLs| && i < |awayLs| {
        assert homeLs[..i + 1][..i] == homeLs[..i];
        assert awayLs[..i + 1][..i] == awayLs[..i];
        assert Sum(homeLs[..i + 1]) == Sum(homeLs[..i]) + homeLs[i];
        assert Sum(awayLs[..i + 1]) == Sum(awayLs[..i]) + awayLs[i];
        homeCum := homeCum + homeLs[i];
        awayCum := awayCum + awayLs[i];
      } else {
        homeCum := home.score;
        awayCum := away.score;
      }
      var isComplete := completed || state == Post || period > i + 1;
      assert labels[i] == QuarterLabel(i);
      quarters := quarters + [Quarter(labels[i], homeCum, awayCum, if isComplete then Some(true) else None)];
      i := i + 1;
    }
    gameComplete := completed || state == Post;
  }

  // ------------------------------------------------------- compare quarters

  /** `complete ?? false`. */
  function CompleteOrFalse(c: Option<bool>): bool {
    if c.Some? then c.value else false
  }

  predicate SameQuarter(a: Quarter, b: Quarter) {
    a.name == b.name && a.rowTeamScore == b.rowTeamScore && a.colTeamScore == b.colTeamScore
    && CompleteOrFalse(a.complete) == CompleteOrFalse(b.complete)
  }

  /** `quartersEqual`: the loop that stops at the first differing pair. */
  function QuartersEqual(a: seq<Quarter>, b: seq<Quarter>): (r: bool)
    ensures r <==> |a| == |b| && forall i :: 0 <= i < |a| ==> SameQuarter(a[i], b[i])
  {
    if |a| != |b| then false
    else if a == [] then true
    else if !SameQuarter(a[0], b[0]) then false
    else
      assert forall i :: 1 <= i < |a| ==> a[i] == a[1..][i - 1] && b[i] == b[1..][i - 1];
      QuartersEqual(a[1..], b[1..])
  }

  /** Equality of quarter lists is reflexive and symmetric, and an absent
      `complete` equals `complete: false`. */
  lemma QuartersEqualProperties(a: seq<Quarter>, b: seq<Quarter>)
    ensures QuartersEqual(a, a)
    ensures QuartersEqual(a, b) == QuartersEqual(b, a)
    ensures |a| == |b| && (forall i :: 0 <= i < |a| ==> b[i] == a[i].(complete := if a[i].complete == Some(false) then None else a[i].complete))
            ==> QuartersEqual(a, b)
  {
  }

  // ------------------------------------------------------- possession and dedup

  /** `c.id ?? c.team?.id`. */
  function TeamId(c: Competitor): Option<string> {
    if c.id.Some? then c.id else c.teamId
  }

  /** The possession mapping: home or away only when the situation's
      (non-empty) possession id equals that team's id, home checked first. */
  function PossessionOf(situation: Option<Situation>, home: Competitor, away: Competitor): (p: Possession)
    ensures p == Home <==> situation.Some? && situation.value.possession.Some? && situation.value.possession.value != ""
                           && TeamId(home) == situation.value.possession
    ensures p == Away <==> situation.Some? && situation.value.possession.Some? && situation.value.possession.value != ""
                           && TeamId(home) != situation.value.possession && TeamId(away) == situation.value.possession
  {
    if situation.Some? && situation.value.possession.Some? && situation.value.possession.value != "" then
      var pos := situation.value.possession;
      if pos == TeamId(home) then Home
      else if pos == TeamId(away) then Away
      else NoPossession
    else NoPossession
  }

  /** `situation?.possessionText ?? situation?.downDistanceText ?? undefined`. */
  function DownDistanceOf(situation: Option<Situation>): Option<string> {
    if situation.None? then None
    else if situation.value.possessionText.Some? then situation.value.possessionText
    else situation.value.downDistanceText
  }

  function IsRedZoneOf(situation: Option<Situation>): Option<bool> {
    if situation.None? then None else situation.value.isRedZone
  }

  /** `x || false` on an optional boolean. */
  function OrFalse(b: Option<bool>): bool {
    b.Some? && b.value
  }

  /** `possession || "none"`. */
  function OrNone(p: Option<Possession>): Possession {
    if p.Some? then p.value else NoPossession
  }

  /** `s || ""`. */
  function OrEmpty(s: Option<string>): string {
    if s.Some? then s.value else ""
  }

  /** The dedup decision: write unless the latest row has the same
      quarters, completion, possession and down-and-distance. */
  predicate ShouldWrite(latest: Option<GameRow>, quarters: seq<Quarter>, gameComplete: bool,
                        possession: Possession, downDistance: Option<string>) {
    latest.None? ||
    !(QuartersEqual(quarters, latest.value.quarters)
      && gameComplete == OrFalse(latest.value.gameComplete)
      && possession == OrNone(latest.value.possession)
      && OrEmpty(downDistance) == OrEmpty(latest.value.downDistance))
  }

  // ------------------------------------------------------- the action

  /** `event.name?.replace(/ at /i, " vs ")`: the first " at ", in any
      letter case, becomes " vs ". */
  function VersusName(s: string): (r: string)
    ensures |r| == |s|
    ensures !Text.Contains(Text.Lower(s), " at ") ==> r == s
  {
    var k := Text.Find(Text.Lower(s), " at ");
    if k < 0 then s else s[..k] + " vs " + s[k + 4..]
  }

  function GameName(e: Event): string {
    if e.name.Some? then VersusName(e.name.value) else "NFL Game"
  }

  /** `competitors.find((c) => c.homeAway === side)`. */
  function FindSide(cs: seq<Competitor>, side: string): (r: Option<Competitor>)
    ensures r.Some? ==> r.value in cs && r.value.homeAway == side
    ensures r.None? <==> forall k :: 0 <= k < |cs| ==> cs[k].homeAway != side
  {
    if cs == [] then None
    else if cs[0].homeAway == side then Some(cs[0])
    else
      var rest := FindSide(cs[1..], side);
      assert forall k :: 1 <= k < |cs| ==> cs[k] == cs[1..][k - 1];
      rest
  }

  /** The event has a first competition with a non-empty competitor list. */
  predicate HasCompetitors(e: Event) {
    e.competitions.Some? && |e.competitions.value| > 0
    && e.competitions.value[0].competitors.Some? && |e.competitions.value[0].competitors.value| > 0
  }

  function StateOf(e: Event): GameState {
    if e.status.Some? && e.status.value.statusType.Some? then e.status.value.statusType.value.state else Pre
  }

  function CompletedOf(e: Event): bool {
    e.status.Some? && e.status.value.statusType.Some? && e.status.value.statusType.value.completed
  }

  function PeriodOf(e: Event): int {
    if e.status.Some? && e.status.value.period.Some? then e.status.value.period.value else 0
  }

  /** What one feed tick decides. */
  datatype Tick = Skip(reason: string) | Write(row: GameRow)

  /** `fetchAndUpdateScores` as a decision on the decoded events and the
      latest game row: skip with a reason, or the row to insert at `now`. */
  function PlanTick(events: seq<Event>, latest: Option<GameRow>, now: int): Tick {
    var event := FindSuperBowl(events);
    if event.None? || !HasCompetitors(event.value) then Skip("no game found")
    else
      var e := event.value;
      var comp := e.competitions.value[0];
      var home := FindSide(comp.competitors.value, "home");
      var away := FindSide(comp.competitors.value, "away");
      if home.None? || away.None? then Skip("missing home/away teams")
      else if StateOf(e) == Pre then Skip("game not started")
      else
        var quarters := Quarters(home.value, away.value, PeriodOf(e), StateOf(e), CompletedOf(e));
        var gameComplete := CompletedOf(e) || StateOf(e) == Post;
        var possession := PossessionOf(comp.situation, home.value, away.value);
        var downDistance := DownDistanceOf(comp.situation);
        if !ShouldWrite(latest, quarters, gameComplete, possession, downDistance) then Skip("scores unchanged")
        else Write(GameRow(GameName(e), Some(e.id), quarters, if gameComplete then Some(true) else None,
                           Some(possession), downDistance, IsRedZoneOf(comp.situation), now, Scrape))
  }

  /** A pre-game (or status-less) event is never written, and a written row
      carries between one and four quarters of a game in progress or over. */
  lemma TickWritesOnlyStartedGames(events: seq<Event>, latest: Option<GameRow>, now: int)
    ensures var t := PlanTick(events, latest, now);
      t.Write? ==>
        && FindSuperBowl(events).Some?
        && StateOf(FindSuperBowl(events).value) != Pre
        && 1 <= |t.row.quarters| <= 4
        && t.row.source == Scrape && t.row.updatedAt == now
  {
  }

  /** Dedup: right after a tick wrote a row, the same scoreboard at any later
      time writes nothing ("scores unchanged"), once the written row is the
      latest one. */
  lemma {:induction false} RepeatedTickSkips(events: seq<Event>, latest: Option<GameRow>, now: int, later: int)
    requires PlanTick(events, latest, now).Write?
    ensures PlanTick(events, Some(PlanTick(events, latest, now).row), later) == Skip("scores unchanged")
  {
    var row := PlanTick(events, latest, now).row;
    QuartersEqualProperties(row.quarters, row.quarters);
  }

  /** Combined with the game log: a tick that wrote at a time no earlier
      than every row makes the next identical tick skip. */
  lemma TickThenTickAgain(rows: seq<GameRow>, events: seq<Event>, now: int, later: int)
    requires PlanTick(events, Latest(rows), now).Write?
    requires forall k :: 0 <= k < |rows| ==> rows[k].updatedAt <= now
    ensures var row := PlanTick(events, Latest(rows), now).row;
      PlanTick(events, Latest(rows + [row]), later) == Skip("scores unchanged")
  {
    var row := PlanTick(events, Latest(rows), now).row;
    AppendedIsLatest(rows, row);
    RepeatedTickSkips(events, Latest(rows), now, later);
  }

  datatype FetchResult = Updated(quarters: nat) | NotUpdated(reason: string)

  /** `fetchAndUpdateScores` on a decoded scoreboard (`events` absent is
      treated as no events): reads the latest game, and inserts one
      "scrape" row exactly when the tick decides to write. */
  method FetchAndUpdateScores(log: GameLog, events: Option<seq<Event>>, now: int) returns (r: FetchResult)
    modifies log
    ensures var t := PlanTick(if events.Some? then events.value else [], Latest(old(log.rows)), now);
      && (t.Skip? ==> r == NotUpdated(t.reason) && log.rows == old(log.rows))
      && (t.Write? ==> r == Updated(|t.row.quarters|) && log.rows == old(log.rows) + [t.row])
  {
    var evs := if events.Some? then events.value else [];
    var event := FindSuperBowl(evs);
    if event.None? || !HasCompetitors(event.value) {
      return NotUpdated("no game found");
    }
    var e := event.value;
    var comp := e.competitions.value[0];
    var competitors := comp.competitors.value;
    var home := FindSide(competitors, "home");
    var away := FindSide(competitors, "away");
    if home.None? || away.None? {
      return NotUpdated("missing home/away teams");
    }
    var gameState := StateOf(e);
    var gameCompleted := CompletedOf(e);
    var period := PeriodOf(e);
    if gameState == Pre {
      return NotUpdated("game not started");
    }
    var quarters, gameComplete := BuildQuarters(home.value, away.value, period, gameState, gameCompleted);
    var possession := PossessionOf(comp.situation, home.value, away.value);
    var downDistance := DownDistanceOf(comp.situation);
    var isRedZone := IsRedZoneOf(comp.situation);
    var latestGame := log.GetLatestGame();
    if !ShouldWrite(latestGame, quarters, gameComplete, possession, downDistance) {
      return NotUpdated("scores unchanged");
    }
    log.SetScoresFromScrape(GameName(e), Some(e.id), quarters, if gameComplete then Some(true) else None,
                            Some(possession), downDistance, isRedZone, now);
    return Updated(|quarters|);
  }
}
