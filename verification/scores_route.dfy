/** `POST /api/admin/scores` (`app/api/admin/scores/route.ts`): the checks
    on the parsed request body, the arguments handed to `setScoresManual`
    and the mapping of its outcome to an HTTP status. The mutation's
    outcome is a parameter. */
module ScoresRoute {
  import opened Wrappers
  import opened Json
  import Text
  import Games
  import ScoresPage

  const DefaultName: string := "Global Game"

  /** The message V8 gives when `body.secret` is read on `null`. */
  const NullBodyMessage: string := "Cannot read properties of null (reading 'secret')"

  /** `body.key` on a parsed body: defined only on an object holding the
      key. */
  function Prop(body: Json, key: string): (v: Option<Json>)
    ensures v.Some? <==> body.JObject? && key in body.fields
  {
    if body.JObject? && key in body.fields then Some(body.fields[key]) else None
  }

  /** The element test of `parseQuarters`: an object with a string
      `label` and numeric `rowTeamScore` and `colTeamScore`. `complete` is
      not looked at. */
  predicate QuarterShaped(q: Json) {
    q.JObject? && HasString(q.fields, "label") && HasNumber(q.fields, "rowTeamScore") && HasNumber(q.fields, "colTeamScore")
  }

  /** `Array.prototype.every` with that test. */
  function AllShaped(xs: seq<Json>): (ok: bool)
    ensures ok <==> forall i :: 0 <= i < |xs| ==> QuarterShaped(xs[i])
  {
    if xs == [] then true
    else
      assert forall i :: 1 <= i < |xs| ==> xs[i] == xs[1..][i - 1];
      QuarterShaped(xs[0]) && AllShaped(xs[1..])
  }

  /** `parseQuarters`: the array itself when every element passes, `null`
      for anything else, a non-array or a missing value included. */
  function ParseQuarters(value: Option<Json>): (qs: Option<seq<Json>>)
    ensures qs.Some? <==> value.Some? && value.value.JArray? && forall i :: 0 <= i < |value.value.elems| ==> QuarterShaped(value.value.elems[i])
    ensures qs.Some? ==> qs.value == value.value.elems
  {
    match value
    case Some(JArray(xs)) => if AllShaped(xs) then Some(xs) else None
    case _ => None
  }

  /** A quarter whose `complete` is a string passes and is forwarded as
      sent. */
  lemma CompleteNotChecked()
    ensures var q := JObject(map["label" := JString("Q1"), "rowTeamScore" := JNumber(7), "colTeamScore" := JNumber(3),
                                 "complete" := JString("yes")]);
      ParseQuarters(Some(JArray([q]))) == Some([q])
  {
    var q := JObject(map["label" := JString("Q1"), "rowTeamScore" := JNumber(7), "colTeamScore" := JNumber(3),
                         "complete" := JString("yes")]);
    assert QuarterShaped(q);
  }

  /** The arguments of the `setScoresManual` call. */
  datatype Args = Args(adminSecret: string, name: string, quarters: seq<Json>, gameComplete: Option<bool>)

  /** What the mutation call gave back: its result, or an exception. */
  datatype Outcome = Returned(ok: bool, error: Option<string>) | Threw(message: string)

  /** The response: a status and, unless it is 200 `{ ok: true }`, the
      `error` text. */
  datatype Response = Response(status: int, error: Option<string>)

  function SecretOf(body: Json): string {
    match Prop(body, "secret")
    case Some(JString(s)) => Text.Trim(s)
    case _ => ""
  }

  function NameOf(body: Json): string {
    match Prop(body, "name")
    case Some(JString(s)) => Text.Trim(s)
    case _ => DefaultName
  }

  function GameCompleteOf(body: Json): Option<bool> {
    match Prop(body, "gameComplete")
    case Some(JBool(b)) => Some(b)
    case _ => None
  }

  /** The guards of `POST` before the mutation: a `null` body throws on
      the first property read (500); a missing, non-string or blank
      secret is 400; then a quarters value that `parseQuarters` rejects,
      or an empty array, is 400; otherwise the mutation's arguments. */
  function Validate(body: Json): (r: Result<Args, Response>)
    ensures body == JNull ==> r == Failure(Response(500, Some(NullBodyMessage)))
    ensures body != JNull && SecretOf(body) == [] ==> r == Failure(Response(400, Some("secret is required")))
    ensures body != JNull && SecretOf(body) != [] ==>
      var qs := ParseQuarters(Prop(body, "quarters"));
      && (qs.None? || qs.value == [] ==> r == Failure(Response(400, Some("quarters array is required"))))
      && (qs.Some? && qs.value != [] ==> r == Success(Args(SecretOf(body), NameOf(body), qs.value, GameCompleteOf(body))))
  {
    if body == JNull then Failure(Response(500, Some(NullBodyMessage)))
    else
      var secret := SecretOf(body);
      var quarters := ParseQuarters(Prop(body, "quarters"));
      if secret == [] then Failure(Response(400, Some("secret is required")))
      else if quarters.None? || |quarters.value| == 0 then Failure(Response(400, Some("quarters array is required")))
      else Success(Args(secret, NameOf(body), quarters.value, GameCompleteOf(body)))
  }

  /** What reaches the mutation: a non-empty trimmed secret, the trimmed
      name (the default only when `name` is not a string), a non-empty
      list of well-shaped quarters exactly as sent, and `gameComplete`
      only when it is a boolean. */
  lemma ArgsFacts(body: Json)
    requires Validate(body).Success?
    ensures var a := Validate(body).value;
      && a.adminSecret != [] && Text.IsTrimmed(a.adminSecret)
      && (Prop(body, "name").Some? && Prop(body, "name").value.JString? ==> a.name == Text.Trim(Prop(body, "name").value.s))
      && (!(Prop(body, "name").Some? && Prop(body, "name").value.JString?) ==> a.name == DefaultName)
      && a.quarters != [] && a.quarters == Prop(body, "quarters").value.elems
      && (forall i :: 0 <= i < |a.quarters| ==> QuarterShaped(a.quarters[i]))
      && (a.gameComplete.Some? <==> Prop(body, "gameComplete").Some? && Prop(body, "gameComplete").value.JBool?)
  {
  }

  /** A blank string name is sent on as the empty name, not replaced by
      the default. */
  lemma BlankNameKept(secret: string, quarters: seq<Json>)
    requires !Text.AllSpace(secret)
    requires quarters != [] && forall i :: 0 <= i < |quarters| ==> QuarterShaped(quarters[i])
    ensures var body := JObject(map["secret" := JString(secret), "name" := JString("  "), "quarters" := JArray(quarters)]);
      Validate(body).Success? && Validate(body).value.name == ""
  {
    var body := JObject(map["secret" := JString(secret), "name" := JString("  "), "quarters" := JArray(quarters)]);
    assert Prop(body, "secret") == Some(JString(secret));
    assert Prop(body, "name") == Some(JString("  "));
    assert Text.AllSpace("  ");
  }

  /** `POST`: the guard's response, or the mutation's outcome mapped to
      401 for any `ok: false` (its error, else "Unauthorized"), 200 for
      success and 500 with the message of an exception. */
  function Post(body: Json, outcome: Outcome): (resp: Response)
  {
    match Validate(body)
    case Failure(resp) => resp
    case Success(_) =>
      match outcome
      case Returned(ok, error) => if ok then Response(200, None) else Response(401, Some(error.GetOr("Unauthorized")))
      case Threw(message) => Response(500, Some(message))
  }

  /** The status map: a request the guards stop never depends on the
      mutation; one they pass answers 200 exactly when the mutation says
      ok, 401 whenever it returns ok: false (bad secret or bad score
      alike), and 500 when it throws. */
  lemma PostStatus(body: Json, outcome: Outcome, other: Outcome)
    ensures Validate(body).Failure? ==> Post(body, outcome) == Post(body, other) == Validate(body).error
    ensures Validate(body).Success? ==>
      && (Post(body, outcome).status == 200 <==> outcome.Returned? && outcome.ok)
      && (outcome.Returned? && !outcome.ok ==> Post(body, outcome) == Response(401, Some(outcome.error.GetOr("Unauthorized"))))
      && (outcome.Threw? ==> Post(body, outcome) == Response(500, Some(outcome.message)))
    ensures Post(body, outcome).status in {200, 400, 401, 500}
  {
  }

  /** The mutation's own refusals both become 401: "Unauthorized" for a
      bad secret and the range message for a bad score. */
  lemma MutationRefusalIs401(body: Json, r: Games.ManualResult)
    requires Validate(body).Success? && !r.ok
    ensures Post(body, Returned(r.ok, r.error)).status == 401
    ensures r.error.Some? ==> Post(body, Returned(r.ok, r.error)).error == r.error
  {
  }

  /** A quarter as the form pages send it. */
  function EncodeQuarter(q: Games.Quarter): Json {
    var base := map["label" := JString(q.name), "rowTeamScore" := JNumber(q.rowTeamScore), "colTeamScore" := JNumber(q.colTeamScore)];
    JObject(if q.complete.Some? then base["complete" := JBool(q.complete.value)] else base)
  }

  function EncodeQuarters(qs: seq<Games.Quarter>): (j: seq<Json>)
    ensures |j| == |qs| && forall i :: 0 <= i < |qs| ==> j[i] == EncodeQuarter(qs[i])
  {
    seq(|qs|, i requires 0 <= i < |qs| => EncodeQuarter(qs[i]))
  }

  /** The body `doSubmit` of the scores page posts. */
  function PageBody(secret: string, name: string, qs: seq<ScoresPage.FormQuarter>, gameComplete: bool): Json
    requires ScoresPage.IsQuarterState(qs)
  {
    JObject(map["secret" := JString(secret), "name" := JString(ScoresPage.SubmittedName(name)),
                "quarters" := JArray(EncodeQuarters(ScoresPage.SubmittedQuarters(qs))),
                "gameComplete" := JBool(gameComplete)])
  }

  /** Encoded quarters pass `parseQuarters`' element test. */
  lemma EncodedShaped(qs: seq<Games.Quarter>)
    ensures forall i :: 0 <= i < |qs| ==> QuarterShaped(EncodeQuarters(qs)[i])
  {
    forall i | 0 <= i < |qs| ensures QuarterShaped(EncodeQuarters(qs)[i]) {
      var f := EncodeQuarter(qs[i]).fields;
      assert f["label"] == JString(qs[i].name);
      assert f["rowTeamScore"] == JNumber(qs[i].rowTeamScore) && f["colTeamScore"] == JNumber(qs[i].colTeamScore);
    }
  }

  /** The page's body holds what the page put in it. */
  lemma PageBodyProps(secret: string, name: string, qs: seq<ScoresPage.FormQuarter>, gameComplete: bool)
    requires ScoresPage.IsQuarterState(qs)
    ensures var body := PageBody(secret, name, qs, gameComplete);
      && Prop(body, "secret") == Some(JString(secret))
      && Prop(body, "name") == Some(JString(ScoresPage.SubmittedName(name)))
      && Prop(body, "gameComplete") == Some(JBool(gameComplete))
      && Prop(body, "quarters") == Some(JArray(EncodeQuarters(ScoresPage.SubmittedQuarters(qs))))
  {
  }

  /** Whatever the form holds, the page's request passes the route's
      guards once a passcode is typed: the mutation gets the trimmed
      passcode, the page's name unchanged, the trimmed quarter list and
      the page's completion flag. */
  lemma PageRequestAccepted(secret: string, name: string, qs: seq<ScoresPage.FormQuarter>, gameComplete: bool)
    requires ScoresPage.IsQuarterState(qs) && !Text.AllSpace(secret)
    ensures var body := PageBody(secret, name, qs, gameComplete);
      Validate(body) == Success(Args(Text.Trim(secret), ScoresPage.SubmittedName(name),
                                     EncodeQuarters(ScoresPage.SubmittedQuarters(qs)), Some(gameComplete)))
  {
    var body := PageBody(secret, name, qs, gameComplete);
    var sent := ScoresPage.SubmittedQuarters(qs);
    PageBodyProps(secret, name, qs, gameComplete);
    assert |sent| >= 1 by { ScoresPage.TrimmedShape(ScoresPage.AllQuarters(qs)); }
    assert ParseQuarters(Prop(body, "quarters")) == Some(EncodeQuarters(sent)) by { EncodedShaped(sent); }
    assert SecretOf(body) == Text.Trim(secret);
    assert NameOf(body) == ScoresPage.SubmittedName(name);
    assert GameCompleteOf(body) == Some(gameComplete);
  }
}
