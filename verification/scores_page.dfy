/** The manual score form of `app/admin/scores/page.tsx`: the four quarter
    rows Q1..Q4, their validation, the list of quarters a submission
    sends, the comparison with the live game, the first fill of the form
    from the live game, the submit branch and the "X ago" label. Input
    fields store `parseInt(value) || 0`, so every form score is an
    integer. */
module ScoresPage {
  import opened Wrappers
  import Text
  import Games

  const QuarterLabels: seq<string> := ["Q1", "Q2", "Q3", "Q4"]

  /** One row of the form's `QuarterState`. */
  datatype FormQuarter = FormQuarter(rowTeamScore: int, colTeamScore: int, complete: bool)

  const Blank: FormQuarter := FormQuarter(0, 0, false)

  /** The form holds one row per label of `QuarterLabels`, in that order. */
  predicate IsQuarterState(qs: seq<FormQuarter>) {
    |qs| == |QuarterLabels|
  }

  /** `defaultQuarters`: Q1..Q4, each 0–0 and not complete. */
  function DefaultQuarters(): (qs: seq<FormQuarter>)
    ensures IsQuarterState(qs)
    ensures forall k :: 0 <= k < |qs| ==> qs[k].rowTeamScore == 0 && qs[k].colTeamScore == 0 && !qs[k].complete
  {
    [Blank, Blank, Blank, Blank]
  }

  // ---------------------------------------------------------------- timeAgo

  /** Whole minutes from milliseconds, in two steps or in one. */
  lemma MinutesOfMillis(x: int)
    requires x >= 0
    ensures (x / 1000) / 60 == x / 60000
  {
    var q := x / 1000;
    assert x == 1000 * q + x % 1000;
    assert q == 60 * (q / 60) + q % 60;
  }

  /** Whole hours from milliseconds, via whole minutes. */
  lemma HoursOfMillis(x: int)
    requires x >= 0
    ensures (x / 60000) / 60 == x / 3600000
  {
    var q := x / 60000;
    assert x == 60000 * q + x % 60000;
    assert q == 60 * (q / 60) + q % 60;
  }

  /** Whole days from milliseconds, via whole hours. */
  lemma DaysOfMillis(x: int)
    requires x >= 0
    ensures (x / 3600000) / 24 == x / 86400000
  {
    var q := x / 3600000;
    assert x == 3600000 * q + x % 3600000;
    assert q == 24 * (q / 24) + q % 24;
  }

  /** `timeAgo(ts)` at time `now`: whole seconds, minutes, hours and days
      by floor division. */
  function TimeAgo(now: int, ts: int): (text: string) {
    var seconds := (now - ts) / 1000;
    if seconds < 60 then "just now"
    else
      var minutes := seconds / 60;
      if minutes < 60 then Text.NatToString(minutes) + "m ago"
      else
        var hours := minutes / 60;
        if hours < 24 then Text.NatToString(hours) + "h ago"
        else Text.NatToString(hours / 24) + "d ago"
  }

  /** Under a minute, and any time in the future, is "just now". */
  lemma TimeAgoJustNow(now: int, ts: int)
    requires now - ts < 60000
    ensures TimeAgo(now, ts) == "just now"
  {
  }

  /** From one minute to under an hour: whole minutes, 1 to 59. */
  lemma TimeAgoMinutes(now: int, ts: int)
    requires 60000 <= now - ts < 3600000
    ensures 1 <= (now - ts) / 60000 < 60
    ensures TimeAgo(now, ts) == Text.NatToString((now - ts) / 60000) + "m ago"
  {
    var d := now - ts;
    var seconds := d / 1000;
    assert seconds / 60 == d / 60000 by { MinutesOfMillis(d); }
    assert 60 <= seconds;
    assert seconds / 60 < 60;
  }

  /** From one hour to under a day: whole hours, 1 to 23. */
  lemma TimeAgoHours(now: int, ts: int)
    requires 3600000 <= now - ts < 86400000
    ensures 1 <= (now - ts) / 3600000 < 24
    ensures TimeAgo(now, ts) == Text.NatToString((now - ts) / 3600000) + "h ago"
  {
    var d := now - ts;
    var seconds := d / 1000;
    var minutes := seconds / 60;
    assert minutes == d / 60000 by { MinutesOfMillis(d); }
    assert minutes / 60 == d / 3600000 by { HoursOfMillis(d); }
    assert 60 <= seconds && 60 <= minutes;
    assert minutes / 60 < 24;
  }

  /** From one day on: whole days. */
  lemma TimeAgoDays(now: int, ts: int)
    requires 86400000 <= now - ts
    ensures 1 <= (now - ts) / 86400000
    ensures TimeAgo(now, ts) == Text.NatToString((now - ts) / 86400000) + "d ago"
  {
    var d := now - ts;
    var seconds := d / 1000;
    var minutes := seconds / 60;
    var hours := minutes / 60;
    assert minutes == d / 60000 by { MinutesOfMillis(d); }
    assert hours == d / 3600000 by { HoursOfMillis(d); }
    assert hours / 24 == d / 86400000 by { DaysOfMillis(d); }
    assert 60 <= seconds && 60 <= minutes && 24 <= hours;
  }

  // ---------------------------------------------------------- validateScores

  /** The message for the first bad score. */
  function ScoreError(quarter: string, part: string, value: int): string {
    quarter + " " + part + " score must be an integer between 0 and 99 (got " + Text.IntToString(value) + ")."
  }

  /** The error one row reports, the row score checked before the column
      score. */
  function RowError(qs: seq<FormQuarter>, k: nat): (e: Option<string>)
    requires k < |qs| <= |QuarterLabels|
    ensures e.None? <==> Games.InRange(qs[k].rowTeamScore) && Games.InRange(qs[k].colTeamScore)
  {
    if !Games.InRange(qs[k].rowTeamScore) then Some(ScoreError(QuarterLabels[k], "Row", qs[k].rowTeamScore))
    else if !Games.InRange(qs[k].colTeamScore) then Some(ScoreError(QuarterLabels[k], "Col", qs[k].colTeamScore))
    else None
  }

  /** The search of `validateScores` from row `k` on. */
  function ValidateFrom(qs: seq<FormQuarter>, k: nat): (e: Option<string>)
    requires k <= |qs| <= |QuarterLabels|
    ensures e.None? <==> forall j :: k <= j < |qs| ==> RowError(qs, j).None?
    ensures e.Some? ==> exists j :: k <= j < |qs| && e == RowError(qs, j) && forall i :: k <= i < j ==> RowError(qs, i).None?
    decreases |qs| - k
  {
    if k == |qs| then None
    else if RowError(qs, k).Some? then RowError(qs, k)
    else ValidateFrom(qs, k + 1)
  }

  /** Every row reports no error exactly when every score is in range. */
  lemma RowsValid(qs: seq<FormQuarter>)
    requires IsQuarterState(qs)
    ensures (forall k :: 0 <= k < |qs| ==> RowError(qs, k).None?) <==>
      (forall k :: 0 <= k < |qs| ==> Games.InRange(qs[k].rowTeamScore) && Games.InRange(qs[k].colTeamScore))
  {
    if forall k :: 0 <= k < |qs| ==> Games.InRange(qs[k].rowTeamScore) && Games.InRange(qs[k].colTeamScore) {
      forall k | 0 <= k < |qs| ensures RowError(qs, k).None? { }
    } else {
      var k :| 0 <= k < |qs| && !(Games.InRange(qs[k].rowTeamScore) && Games.InRange(qs[k].colTeamScore));
      assert RowError(qs, k).Some?;
    }
  }

  /** `validateScores`: no error exactly when every score lies in 0..99;
      otherwise the error of the first row, in the order Q1..Q4, that has
      a bad score, naming its row score if that one is bad and its column
      score otherwise. */
  function ValidateScores(qs: seq<FormQuarter>): (e: Option<string>)
    requires IsQuarterState(qs)
    ensures e.None? <==> forall k :: 0 <= k < |qs| ==> Games.InRange(qs[k].rowTeamScore) && Games.InRange(qs[k].colTeamScore)
    ensures e.Some? ==> exists k :: 0 <= k < |qs| && e == RowError(qs, k) && forall i :: 0 <= i < k ==> RowError(qs, i).None?
  {
    RowsValid(qs);
    ValidateFrom(qs, 0)
  }

  /** The message names the quarter and "Row" when the row score is out of
      range, and "Col" only when the row score is fine. */
  lemma RowErrorNames(qs: seq<FormQuarter>, k: nat)
    requires k < |qs| <= |QuarterLabels|
    ensures !Games.InRange(qs[k].rowTeamScore) ==> RowError(qs, k) == Some(ScoreError(QuarterLabels[k], "Row", qs[k].rowTeamScore))
    ensures Games.InRange(qs[k].rowTeamScore) && !Games.InRange(qs[k].colTeamScore) ==>
      RowError(qs, k) == Some(ScoreError(QuarterLabels[k], "Col", qs[k].colTeamScore))
  {
  }

  // ------------------------------------------------------ submitted quarters

  /** `allQuarters`: the four rows as the request sends them. */
  function AllQuarters(qs: seq<FormQuarter>): (all: seq<Games.Quarter>)
    requires IsQuarterState(qs)
    ensures |all| == |qs|
    ensures forall k :: 0 <= k < |qs| ==>
      all[k] == Games.Quarter(QuarterLabels[k], qs[k].rowTeamScore, qs[k].colTeamScore, Some(qs[k].complete))
  {
    seq(|qs|, k requires 0 <= k < |qs| => Games.Quarter(QuarterLabels[k], qs[k].rowTeamScore, qs[k].colTeamScore, Some(qs[k].complete)))
  }

  /** A quarter that has a non-zero score or is marked complete. */
  predicate Active(q: Games.Quarter) {
    q.rowTeamScore != 0 || q.colTeamScore != 0 || q.complete == Some(true)
  }

  /** The last active position below `n`. */
  function LastActiveBelow(arr: seq<Games.Quarter>, n: nat): (j: Option<nat>)
    requires n <= |arr|
    ensures j.Some? ==> j.value < n && Active(arr[j.value]) && forall i :: j.value < i < n ==> !Active(arr[i])
    ensures j.None? ==> forall i :: 0 <= i < n ==> !Active(arr[i])
  {
    if n == 0 then None
    else if Active(arr[n - 1]) then Some(n - 1)
    else LastActiveBelow(arr, n - 1)
  }

  /** The filter's rule for position `i`: up to the last active quarter,
      or only the first one when none is active. */
  predicate KeptAt(arr: seq<Games.Quarter>, i: nat) {
    match LastActiveBelow(arr, |arr|)
    case Some(j) => i <= j
    case None => i == 0
  }

  /** The filter callback of `doSubmit` for position `i`: it scans from the
      last quarter down to the first active one. */
  method KeepQuarter(arr: seq<Games.Quarter>, i: nat) returns (keep: bool)
    ensures keep == KeptAt(arr, i)
  {
    var j := |arr| - 1;
    while j >= 0
      invariant -1 <= j < |arr|
      invariant LastActiveBelow(arr, j + 1) == LastActiveBelow(arr, |arr|)
    {
      if Active(arr[j]) {
        return i <= j;
      }
      j := j - 1;
    }
    return i == 0;
  }

  /** How many leading quarters the filter keeps. */
  function KeptCount(arr: seq<Games.Quarter>): (n: nat)
    ensures n <= |arr|
    ensures forall i :: 0 <= i < |arr| ==> (i < n <==> KeptAt(arr, i))
  {
    match LastActiveBelow(arr, |arr|)
    case Some(j) => j + 1
    case None => if |arr| == 0 then 0 else 1
  }

  /** The quarters a submission sends: the ones the filter keeps, which
      are always a prefix. */
  function Trimmed(arr: seq<Games.Quarter>): seq<Games.Quarter> {
    arr[..KeptCount(arr)]
  }

  /** The trimmed list is Q1..Qj for the last active quarter Qj, and just
      Q1 when no quarter is active: it is never empty, every quarter it
      drops is 0–0 and not complete, and its last quarter is active
      unless it is Q1 alone. */
  lemma TrimmedShape(arr: seq<Games.Quarter>)
    requires |arr| > 0
    ensures var t := Trimmed(arr);
      && 1 <= |t| <= |arr| && t == arr[..|t|]
      && (forall i :: |t| <= i < |arr| ==> arr[i].rowTeamScore == 0 && arr[i].colTeamScore == 0 && arr[i].complete != Some(true))
      && (|t| > 1 ==> Active(t[|t| - 1]))
      && (!Active(t[|t| - 1]) ==> t == [arr[0]] && forall i :: 0 <= i < |arr| ==> !Active(arr[i]))
  {
  }

  /** The submitted list for the form: its quarters carry their labels,
      scores and flags, and a form with only Q2 scored sends Q1 and Q2. */
  function SubmittedQuarters(qs: seq<FormQuarter>): seq<Games.Quarter>
    requires IsQuarterState(qs)
  {
    Trimmed(AllQuarters(qs))
  }

  lemma SubmittedExample()
    ensures SubmittedQuarters([Blank, FormQuarter(7, 3, false), Blank, Blank]) ==
      [Games.Quarter("Q1", 0, 0, Some(false)), Games.Quarter("Q2", 7, 3, Some(false))]
  {
    var all := AllQuarters([Blank, FormQuarter(7, 3, false), Blank, Blank]);
    assert Active(all[1]) && !Active(all[2]) && !Active(all[3]);
    assert LastActiveBelow(all, 4) == Some(1);
  }

  /** `name.trim() || "Global Game"`. */
  function SubmittedName(name: string): (n: string)
    ensures n != [] && Text.IsTrimmed(n)
    ensures !Text.AllSpace(name) ==> n == Text.Trim(name)
    ensures Text.AllSpace(name) ==> n == "Global Game"
  {
    var t := Text.Trim(name);
    if t != [] then t else "Global Game"
  }

  // -------------------------------------------------------------- hasChanges

  /** The first live quarter with this label (`find`). */
  function FindLabel(live: seq<Games.Quarter>, tag: string): (q: Option<Games.Quarter>)
    ensures q.Some? ==> q.value in live && q.value.name == tag
    ensures q.None? <==> forall i :: 0 <= i < |live| ==> live[i].name != tag
  {
    if live == [] then None
    else if live[0].name == tag then Some(live[0])
    else
      assert forall i :: 1 <= i < |live| ==> live[i] == live[1..][i - 1];
      FindLabel(live[1..], tag)
  }

  /** The form row a live quarter corresponds to; a missing quarter is
      0–0 and not complete. */
  function LiveForm(live: Option<Games.Quarter>): FormQuarter {
    match live
    case None => Blank
    case Some(q) => FormQuarter(q.rowTeamScore, q.colTeamScore, q.complete.GetOr(false))
  }

  /** The per-quarter test of `hasChanges`, as written. */
  predicate QuarterDiffers(form: FormQuarter, live: Option<Games.Quarter>) {
    if live.None? then form.rowTeamScore != 0 || form.colTeamScore != 0 || form.complete
    else
      || form.rowTeamScore != live.value.rowTeamScore
      || form.colTeamScore != live.value.colTeamScore
      || form.complete != live.value.complete.GetOr(false)
  }

  /** The quarter loop of `hasChanges` from row `k` on. */
  function QuartersChanged(qs: seq<FormQuarter>, live: seq<Games.Quarter>, k: nat): (changed: bool)
    requires k <= |qs| <= |QuarterLabels|
    decreases |qs| - k
  {
    if k == |qs| then false
    else if QuarterDiffers(qs[k], FindLabel(live, QuarterLabels[k])) then true
    else QuartersChanged(qs, live, k + 1)
  }

  /** The quarter loop finds a change exactly when some row differs from
      its live quarter, or from 0–0 not complete when that quarter is
      missing. */
  lemma {:induction false} QuartersChangedIff(qs: seq<FormQuarter>, live: seq<Games.Quarter>, k: nat)
    requires k <= |qs| <= |QuarterLabels|
    ensures QuartersChanged(qs, live, k) <==> exists j :: k <= j < |qs| && qs[j] != LiveForm(FindLabel(live, QuarterLabels[j]))
    decreases |qs| - k
  {
    if k < |qs| {
      QuartersChangedIff(qs, live, k + 1);
      assert QuarterDiffers(qs[k], FindLabel(live, QuarterLabels[k])) <==> qs[k] != LiveForm(FindLabel(live, QuarterLabels[k]));
    }
  }

  /** `hasChanges`; `game` is the live game when `getCurrentGame` found
      one. */
  function HasChanges(game: Option<Games.GameRow>, name: string, gameComplete: bool, qs: seq<FormQuarter>): bool
    requires IsQuarterState(qs)
  {
    if game.None? then true
    else if Text.Trim(name) != game.value.name then true
    else if gameComplete != game.value.gameComplete.GetOr(false) then true
    else QuartersChanged(qs, game.value.quarters, 0)
  }

  /** Without a live game there are always changes; with one, there are
      none exactly when the trimmed name, the completion flag and every
      quarter row agree with it. */
  lemma HasChangesIff(game: Option<Games.GameRow>, name: string, gameComplete: bool, qs: seq<FormQuarter>)
    requires IsQuarterState(qs)
    ensures game.None? ==> HasChanges(game, name, gameComplete, qs)
    ensures game.Some? ==> (!HasChanges(game, name, gameComplete, qs) <==>
      && Text.Trim(name) == game.value.name
      && gameComplete == game.value.gameComplete.GetOr(false)
      && forall k :: 0 <= k < |qs| ==> qs[k] == LiveForm(FindLabel(game.value.quarters, QuarterLabels[k])))
  {
    if game.Some? {
      QuartersChangedIff(qs, game.value.quarters, 0);
    }
  }

  // -------------------------------------------------------------------- sync

  /** The last live quarter with this label. */
  function LastLabel(live: seq<Games.Quarter>, tag: string): (q: Option<Games.Quarter>)
    ensures q.Some? ==> q.value.name == tag
  {
    if live == [] then None
    else if live[|live| - 1].name == tag then Some(live[|live| - 1])
    else LastLabel(live[..|live| - 1], tag)
  }

  /** The form rows the first sync produces: each label takes the last
      live quarter with that label, a missing one keeps its default. */
  function SyncedRows(live: seq<Games.Quarter>): (qs: seq<FormQuarter>)
    ensures IsQuarterState(qs)
  {
    seq(4, k requires 0 <= k < 4 => LiveForm(LastLabel(live, QuarterLabels[k])))
  }

  /** The position of a label among Q1..Q4, if it is one. */
  function LabelIndex(tag: string): (k: Option<nat>)
    ensures k.Some? ==> k.value < |QuarterLabels| && QuarterLabels[k.value] == tag
    ensures k.None? ==> forall i :: 0 <= i < |QuarterLabels| ==> QuarterLabels[i] != tag
  {
    if tag == "Q1" then Some(0)
    else if tag == "Q2" then Some(1)
    else if tag == "Q3" then Some(2)
    else if tag == "Q4" then Some(3)
    else None
  }

  /** The sync loop of the first `useEffect`: start from the defaults and
      overwrite the row of every live quarter whose label is Q1..Q4. */
  method SyncQuarters(live: seq<Games.Quarter>) returns (qs: seq<FormQuarter>)
    ensures qs == SyncedRows(live)
  {
    qs := DefaultQuarters();
    var i := 0;
    while i < |live|
      invariant 0 <= i <= |live|
      invariant IsQuarterState(qs)
      invariant forall k :: 0 <= k < 4 ==> qs[k] == LiveForm(LastLabel(live[..i], QuarterLabels[k]))
    {
      assert live[..i + 1][..i] == live[..i];
      var gq := live[i];
      var k := LabelIndex(gq.name);
      if k.Some? {
        qs := qs[k.value := FormQuarter(gq.rowTeamScore, gq.colTeamScore, gq.complete.GetOr(false))];
      }
      i := i + 1;
    }
    assert live[..i] == live;
  }

  /** No label occurs twice among the live quarters. */
  predicate DistinctLabels(live: seq<Games.Quarter>) {
    forall i, j :: 0 <= i < j < |live| ==> live[i].name != live[j].name
  }

  /** With distinct labels, the first and the last quarter with a label
      are the same one. */
  lemma {:induction false} FirstIsLast(live: seq<Games.Quarter>, tag: string)
    requires DistinctLabels(live)
    ensures FindLabel(live, tag) == LastLabel(live, tag)
  {
    if live != [] {
      var init := live[..|live| - 1];
      assert DistinctLabels(init);
      FirstIsLast(init, tag);
      if live[|live| - 1].name == tag {
        assert forall i :: 0 <= i < |init| ==> init[i].name != tag;
        if FindLabel(live, tag).Some? && live[0].name == tag {
          assert |live| == 1;
        }
        FindLabelSnoc(init, live[|live| - 1], tag);
      } else {
        FindLabelSnoc(init, live[|live| - 1], tag);
      }
    }
  }

  /** Appending a quarter only matters when no earlier one has the tag. */
  lemma {:induction false} FindLabelSnoc(init: seq<Games.Quarter>, q: Games.Quarter, tag: string)
    ensures FindLabel(init + [q], tag) ==
      if FindLabel(init, tag).Some? then FindLabel(init, tag) else if q.name == tag then Some(q) else None
  {
    if init != [] {
      assert (init + [q])[1..] == init[1..] + [q];
      FindLabelSnoc(init[1..], q, tag);
    }
  }

  /** The first sync, as in the scores page: the game's name and flag and
      the synced rows. Right after it the form shows no changes, provided
      the game's name is already trimmed and its labels are distinct. */
  lemma SyncedFormUnchanged(g: Games.GameRow)
    requires Text.IsTrimmed(g.name) && DistinctLabels(g.quarters)
    ensures !HasChanges(Some(g), g.name, g.gameComplete.GetOr(false), SyncedRows(g.quarters))
  {
    var qs := SyncedRows(g.quarters);
    forall k | 0 <= k < 4 ensures qs[k] == LiveForm(FindLabel(g.quarters, QuarterLabels[k])) {
      FirstIsLast(g.quarters, QuarterLabels[k]);
    }
    HasChangesIff(Some(g), g.name, g.gameComplete.GetOr(false), qs);
  }

  // ----------------------------------------------------------- handleSubmit

  datatype SubmitAction = ShowError(message: string) | ShowConfirm | DoSubmit

  /** `handleSubmit`: an invalid form shows the first error; a live game
      with changes asks for confirmation; anything else submits. */
  function HandleSubmit(game: Option<Games.GameRow>, name: string, gameComplete: bool, qs: seq<FormQuarter>): (a: SubmitAction)
    requires IsQuarterState(qs)
  {
    var v := ValidateScores(qs);
    if v.Some? then ShowError(v.value)
    else if game.Some? && HasChanges(game, name, gameComplete, qs) then ShowConfirm
    else DoSubmit
  }

  /** The three outcomes: an error exactly for a form with a score outside
      0..99; a confirmation exactly for a valid form that differs from a
      live game; a direct submit otherwise, always so when there is no
      live game. */
  lemma HandleSubmitCases(game: Option<Games.GameRow>, name: string, gameComplete: bool, qs: seq<FormQuarter>)
    requires IsQuarterState(qs)
    ensures HandleSubmit(game, name, gameComplete, qs).ShowError? <==> ValidateScores(qs).Some?
    ensures HandleSubmit(game, name, gameComplete, qs).ShowError? ==> HandleSubmit(game, name, gameComplete, qs).message == ValidateScores(qs).value
    ensures HandleSubmit(game, name, gameComplete, qs) == ShowConfirm <==>
      ValidateScores(qs).None? && game.Some? && HasChanges(game, name, gameComplete, qs)
    ensures ValidateScores(qs).None? && game.None? ==> HandleSubmit(game, name, gameComplete, qs) == DoSubmit
  {
  }
}
