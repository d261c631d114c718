/** The global game of `convex/games.ts`: an append-only log of score rows,
    the newest of which (largest `updatedAt`) is the current game. Rows are
    only ever inserted, by the manual entry and by the score feed. */
module Games {
  import opened Wrappers
  import Text

  /** One quarter's cumulative scores; `name` is the `label` ("Q1".."Q4") and `complete` is optional. */
  datatype Quarter = Quarter(name: string, rowTeamScore: int, colTeamScore: int, complete: Option<bool>)

  datatype Possession = Home | Away | NoPossession

  datatype Source = Manual | Scrape

  /** A row of the `games` table. */
  datatype GameRow = GameRow(name: string, externalId: Option<string>, quarters: seq<Quarter>,
                             gameComplete: Option<bool>, possession: Option<Possession>,
                             downDistance: Option<string>, isRedZone: Option<bool>,
                             updatedAt: int, source: Source)

  /** The first row of the `by_updated` index in descending order: the
      largest `updatedAt`, and among equal ones the row inserted last. */
  function Latest(rows: seq<GameRow>): (g: Option<GameRow>)
    ensures g.None? <==> rows == []
    ensures g.Some? ==> g.value in rows
    ensures g.Some? ==> forall k :: 0 <= k < |rows| ==> rows[k].updatedAt <= g.value.updatedAt
    ensures g.Some? ==>
      exists k :: 0 <= k < |rows| && rows[k] == g.value && forall j :: k < j < |rows| ==> rows[j].updatedAt < g.value.updatedAt
  {
    LatestAmong(rows, |rows|)
  }

  /** The latest of the first `n` rows: the last of them with the largest
      `updatedAt`. */
  function LatestAmong(rows: seq<GameRow>, n: nat): (g: Option<GameRow>)
    requires n <= |rows|
    ensures g.None? <==> n == 0
    ensures g.Some? ==>
      exists k :: 0 <= k < n && rows[k] == g.value && forall j :: k < j < n ==> rows[j].updatedAt < g.value.updatedAt
    ensures g.Some? ==> forall k :: 0 <= k < n ==> rows[k].updatedAt <= g.value.updatedAt
  {
    if n == 0 then None
    else
      var prev := LatestAmong(rows, n - 1);
      if prev.None? || prev.value.updatedAt <= rows[n - 1].updatedAt then Some(rows[n - 1]) else prev
  }

  /** A row appended with a time no earlier than any row's becomes the
      current game. */
  lemma AppendedIsLatest(rows: seq<GameRow>, g: GameRow)
    requires forall k :: 0 <= k < |rows| ==> rows[k].updatedAt <= g.updatedAt
    ensures Latest(rows + [g]) == Some(g)
  {
    var all := rows + [g];
    var prev := LatestAmong(all, |rows|);
    if prev.Some? {
      var k :| 0 <= k < |rows| && all[k] == prev.value;
      assert all[k] == rows[k];
    }
  }

  /** A score is accepted by the manual entry when it lies in 0..99. */
  predicate InRange(v: int) {
    0 <= v <= 99
  }

  /** The error for one quarter, row score checked before column score. */
  function QuarterError(q: Quarter): (e: Option<string>)
    ensures e.None? <==> InRange(q.rowTeamScore) && InRange(q.colTeamScore)
  {
    if !InRange(q.rowTeamScore) then
      Some(q.name + " row score must be 0\U{2013}99 (got " + Text.IntToString(q.rowTeamScore) + ").")
    else if !InRange(q.colTeamScore) then
      Some(q.name + " col score must be 0\U{2013}99 (got " + Text.IntToString(q.colTeamScore) + ").")
    else None
  }

  /** The error of the first quarter, in order, with a score outside 0..99. */
  function FirstScoreError(qs: seq<Quarter>): (e: Option<string>)
    ensures e.None? <==> forall k :: 0 <= k < |qs| ==> InRange(qs[k].rowTeamScore) && InRange(qs[k].colTeamScore)
    ensures e.Some? ==> exists k :: 0 <= k < |qs| && e == QuarterError(qs[k])
                          && forall j :: 0 <= j < k ==> QuarterError(qs[j]).None?
  {
    if qs == [] then None
    else if QuarterError(qs[0]).Some? then QuarterError(qs[0])
    else
      var rest := FirstScoreError(qs[1..]);
      assert forall j :: 1 <= j < |qs| ==> qs[j] == qs[1..][j - 1];
      if rest.Some? then
        var k :| 0 <= k < |qs[1..]| && rest == QuarterError(qs[1..][k])
                 && forall j :: 0 <= j < k ==> QuarterError(qs[1..][j]).None?;
        assert rest == QuarterError(qs[k + 1]);
        rest
      else rest
  }

  /** The secret check: `GLOBAL_ADMIN_SECRET` set, non-empty and equal. */
  predicate Authorized(expected: Option<string>, secret: string) {
    expected.Some? && expected.value != "" && secret == expected.value
  }

  /** What the manual entry answers. */
  datatype ManualResult = ManualResult(ok: bool, error: Option<string>)

  /** The `games` table. */
  class GameLog {
    var rows: seq<GameRow>

    constructor ()
      ensures rows == []
    {
      rows := [];
    }

    /** `getLatestGame` and `getCurrentGame` (`found` is `.Some?`). */
    function GetLatestGame(): (g: Option<GameRow>)
      reads this
      ensures g.None? <==> rows == []
      ensures g.Some? ==> g.value in rows && forall k :: 0 <= k < |rows| ==> rows[k].updatedAt <= g.value.updatedAt
    {
      Latest(rows)
    }

    /** `setScoresManual`. A wrong or unset secret is "Unauthorized"; then
        the first quarter with a score outside 0..99 is reported; either way
        nothing is written. Otherwise one "manual" row is appended. */
    method SetScoresManual(expected: Option<string>, adminSecret: string, name: string,
                           quarters: seq<Quarter>, gameComplete: Option<bool>, now: int)
      returns (r: ManualResult)
      modifies this
      ensures !Authorized(expected, adminSecret) ==> r == ManualResult(false, Some("Unauthorized"))
      ensures Authorized(expected, adminSecret) && FirstScoreError(quarters).Some? ==>
        r == ManualResult(false, FirstScoreError(quarters))
      ensures !r.ok ==> rows == old(rows)
      ensures r.ok <==> Authorized(expected, adminSecret) && FirstScoreError(quarters).None?
      ensures r.ok ==>
        && r.error == None
        && rows == old(rows) + [GameRow(name, None, quarters, gameComplete, None, None, None, now, Manual)]
    {
      if !Authorized(expected, adminSecret) {
        return ManualResult(false, Some("Unauthorized"));
      }
      var i := 0;
      while i < |quarters|
        invariant 0 <= i <= |quarters|
        invariant FirstScoreError(quarters[i..]) == FirstScoreError(quarters)
      {
        assert quarters[i..][1..] == quarters[i + 1..];
        var q := quarters[i];
        if !InRange(q.rowTeamScore) {
          return ManualResult(false, Some(q.name + " row score must be 0\U{2013}99 (got " + Text.IntToString(q.rowTeamScore) + ")."));
        }
        if !InRange(q.colTeamScore) {
          return ManualResult(false, Some(q.name + " col score must be 0\U{2013}99 (got " + Text.IntToString(q.colTeamScore) + ")."));
        }
        i := i + 1;
      }
      rows := rows + [GameRow(name, None, quarters, gameComplete, None, None, None, now, Manual)];
      return ManualResult(true, None);
    }

    /** `setScoresFromScrape`: append one "scrape" row, no range check. */
    method SetScoresFromScrape(name: string, externalId: Option<string>, quarters: seq<Quarter>,
                               gameComplete: Option<bool>, possession: Option<Possession>,
                               downDistance: Option<string>, isRedZone: Option<bool>, now: int)
      modifies this
      ensures rows == old(rows) + [GameRow(name, externalId, quarters, gameComplete, possession, downDistance, isRedZone, now, Scrape)]
    {
      rows := rows + [GameRow(name, externalId, quarters, gameComplete, possession, downDistance, isRedZone, now, Scrape)];
    }
  }
}
