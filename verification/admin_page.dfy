/** The score form of `app/admin/page.tsx`. Its rows, validation, trimming
    of trailing quarters, first sync and submit branch are those of the
    scores page (`ScoresPage`); it differs in three rules: Q4's `complete`
    flag and the game's `gameComplete` both follow from Q4 having a score,
    and the change check ignores `gameComplete`. */
module AdminPage {
  import opened Wrappers
  import Text
  import Games
  import opened ScoresPage

  /** Q4 (the final) counts as complete when either of its scores is
      non-zero. */
  function DerivedGameComplete(qs: seq<FormQuarter>): bool
    requires IsQuarterState(qs)
  {
    qs[3].rowTeamScore != 0 || qs[3].colTeamScore != 0
  }

  /** `allQuarters` of `doSubmitScores`: Q1..Q3 carry their checkbox, Q4
      carries `DerivedGameComplete` whatever its checkbox says. */
  function AllQuarters(qs: seq<FormQuarter>): (all: seq<Games.Quarter>)
    requires IsQuarterState(qs)
    ensures |all| == |qs|
    ensures forall k :: 0 <= k < 3 ==> all[k] == ScoresPage.AllQuarters(qs)[k]
    ensures all[3] == Games.Quarter("Q4", qs[3].rowTeamScore, qs[3].colTeamScore, Some(DerivedGameComplete(qs)))
  {
    var base := ScoresPage.AllQuarters(qs);
    base[3 := base[3].(complete := Some(DerivedGameComplete(qs)))]
  }

  /** The quarters `doSubmitScores` sends. */
  function SubmittedQuarters(qs: seq<FormQuarter>): seq<Games.Quarter>
    requires IsQuarterState(qs)
  {
    Trimmed(AllQuarters(qs))
  }

  /** The game is sent as complete exactly when Q4 has a score; then all
      four quarters are sent and the last, Q4, is marked complete. When Q4
      has no score it is sent, if at all, as not complete. */
  lemma GameCompleteFollowsQ4(qs: seq<FormQuarter>)
    requires IsQuarterState(qs)
    ensures var sent := SubmittedQuarters(qs);
      && (DerivedGameComplete(qs) ==> |sent| == 4 && sent[3].name == "Q4" && sent[3].complete == Some(true))
      && (!DerivedGameComplete(qs) && |sent| == 4 ==> sent[3].complete == Some(false))
      && (DerivedGameComplete(qs) <==> |sent| == 4 && sent[3].complete == Some(true))
  {
    var all := AllQuarters(qs);
    TrimmedShape(all);
    if DerivedGameComplete(qs) {
      assert Active(all[3]);
      assert LastActiveBelow(all, 4) == Some(3);
    }
  }

  /** The Q4 checkbox has no effect on what is sent. */
  lemma Q4CheckboxIgnored(qs: seq<FormQuarter>, ticked: bool)
    requires IsQuarterState(qs)
    ensures SubmittedQuarters(qs[3 := qs[3].(complete := ticked)]) == SubmittedQuarters(qs)
  {
    var qs' := qs[3 := qs[3].(complete := ticked)];
    assert AllQuarters(qs') == AllQuarters(qs);
  }

  /** `hasChanges` of the admin page: like the scores page's, without the
      `gameComplete` comparison. */
  function HasChanges(game: Option<Games.GameRow>, name: string, qs: seq<FormQuarter>): bool
    requires IsQuarterState(qs)
  {
    if game.None? then true
    else if Text.Trim(name) != game.value.name then true
    else QuartersChanged(qs, game.value.quarters, 0)
  }

  /** It answers as the scores page would with the live game's own
      completion flag in the form, so a live game's `gameComplete` never
      counts as a change. */
  lemma HasChangesIgnoresGameComplete(game: Option<Games.GameRow>, name: string, qs: seq<FormQuarter>)
    requires IsQuarterState(qs) && game.Some?
    ensures HasChanges(game, name, qs) == ScoresPage.HasChanges(game, name, game.value.gameComplete.GetOr(false), qs)
    ensures !HasChanges(game, name, qs) <==>
      && Text.Trim(name) == game.value.name
      && forall k :: 0 <= k < |qs| ==> qs[k] == LiveForm(FindLabel(game.value.quarters, QuarterLabels[k]))
  {
    ScoresPage.HasChangesIff(game, name, game.value.gameComplete.GetOr(false), qs);
  }

  /** `handleSubmitScores`: the scores page's branch with this page's
      change check. */
  function HandleSubmitScores(game: Option<Games.GameRow>, name: string, qs: seq<FormQuarter>): (a: SubmitAction)
    requires IsQuarterState(qs)
  {
    var v := ValidateScores(qs);
    if v.Some? then ShowError(v.value)
    else if game.Some? && HasChanges(game, name, qs) then ShowConfirm
    else DoSubmit
  }

  /** An invalid form shows its first error; a valid one asks for
      confirmation exactly when a live game exists and the name or a
      quarter differs from it. */
  lemma HandleSubmitScoresCases(game: Option<Games.GameRow>, name: string, qs: seq<FormQuarter>)
    requires IsQuarterState(qs)
    ensures ValidateScores(qs).Some? ==> HandleSubmitScores(game, name, qs) == ShowError(ValidateScores(qs).value)
    ensures ValidateScores(qs).None? ==>
      (HandleSubmitScores(game, name, qs) == ShowConfirm <==>
        game.Some? && (Text.Trim(name) != game.value.name ||
          exists k :: 0 <= k < |qs| && qs[k] != LiveForm(FindLabel(game.value.quarters, QuarterLabels[k]))))
    ensures ValidateScores(qs).None? && game.None? ==> HandleSubmitScores(game, name, qs) == DoSubmit
  {
    if game.Some? {
      HasChangesIgnoresGameComplete(game, name, qs);
    }
  }
}
