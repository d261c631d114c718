/** The participant mutations of `convex/participants.ts`: joining a pool
    by display name (idempotent on the trimmed name) and changing a
    participant's graphic. */
module Participants {
  import opened Wrappers
  import opened Schema
  import Text

  datatype JoinError = PoolNotFound | InvalidInput

  /** What `joinPool` returns. */
  datatype Joined = Joined(participantId: ParticipantId, displayName: string)

  /** The first participant whose display name is exactly `name` (the
      `by_pool` query filtered on `displayName`, then `.first()`). */
  function FindByName(ps: seq<Participant>, name: string): (k: Option<nat>)
    ensures k.Some? ==> k.value < |ps| && ps[k.value].displayName == name
    ensures k.Some? ==> forall j :: 0 <= j < k.value ==> ps[j].displayName != name
    ensures k.None? <==> forall j :: 0 <= j < |ps| ==> ps[j].displayName != name
  {
    if ps == [] then None
    else if ps[0].displayName == name then Some(0)
    else
      var rest := FindByName(ps[1..], name);
      assert forall j :: 1 <= j < |ps| ==> ps[j] == ps[1..][j - 1];
      if rest.Some? then Some(rest.value + 1) else None
  }

  /** JavaScript truthiness of the optional graphic: present and non-empty. */
  predicate Truthy(graphic: Option<string>) {
    graphic.Some? && graphic.value != ""
  }

  /** The participants list and the answer after a join with an already
      trimmed, non-empty name: the existing row (its graphic overwritten
      when a truthy different one is given), or a new row at the end. */
  function Join(ps: seq<Participant>, name: string, graphic: Option<string>, now: int): (out: (seq<Participant>, Joined))
    ensures out.1.displayName == name
  {
    match FindByName(ps, name)
    case Some(k) =>
      var e := ps[k];
      var patched := if Truthy(graphic) && e.graphic != graphic then e.(graphic := graphic) else e;
      (ps[k := patched], Joined(e.id, e.displayName))
    case None =>
      var id := FreshId(ps);
      (ps + [Participant(id, name, graphic, now)], Joined(id, name))
  }

  /** A join answers with the given name and an id that the new list holds
      under that name; it adds at most one row and keeps every other row. */
  lemma JoinFacts(ps: seq<Participant>, name: string, graphic: Option<string>, now: int)
    ensures var (ps2, j) := Join(ps, name, graphic, now);
      && j.displayName == name
      && (exists k :: 0 <= k < |ps2| && ps2[k].id == j.participantId && ps2[k].displayName == name)
      && |ps| <= |ps2| <= |ps| + 1
      && (FindByName(ps, name).Some? <==> |ps2| == |ps|)
      && forall k :: 0 <= k < |ps| && ps[k].displayName != name ==> ps2[k] == ps[k]
  {
    var (ps2, j) := Join(ps, name, graphic, now);
    match FindByName(ps, name)
    case Some(k) =>
      assert ps2[k].id == j.participantId && ps2[k].displayName == name;
    case None =>
      assert ps2[|ps|].id == j.participantId && ps2[|ps|].displayName == name;
  }

  /** Joining again with the same name returns the same participant and
      creates no new row, whatever graphic and time the second join gives. */
  lemma {:induction false} JoinIdempotent(ps: seq<Participant>, name: string, g1: Option<string>, t1: int, g2: Option<string>, t2: int)
    ensures var (ps1, j1) := Join(ps, name, g1, t1);
      var (ps2, j2) := Join(ps1, name, g2, t2);
      j2 == j1 && |ps2| == |ps1|
  {
    var (ps1, j1) := Join(ps, name, g1, t1);
    match FindByName(ps, name)
    case Some(k) =>
      assert forall j :: 0 <= j < |ps| ==> ps1[j].displayName == ps[j].displayName;
      var k1 := FindByName(ps1, name).value;
      assert ps[k1].displayName == name;
      assert k1 == k;
    case None =>
      var n := |ps|;
      assert ps1[n].displayName == name;
      assert forall j :: 0 <= j < n ==> ps1[j] == ps[j];
      assert FindByName(ps1, name) == Some(n);
  }

  /** Names are matched exactly: "Al" and "al" are two participants. */
  lemma JoinCaseSensitive()
    ensures var (ps1, j1) := Join([], "Al", None, 0);
      var (ps2, j2) := Join(ps1, "al", None, 0);
      |ps2| == 2 && j1.participantId != j2.participantId
  {
    var (ps1, j1) := Join([], "Al", None, 0);
    assert FindByName(ps1, "al") == None;
  }

  /** A join keeps ids and names unique and keeps every id it had. */
  lemma JoinKeepsUnique(ps: seq<Participant>, name: string, graphic: Option<string>, now: int)
    requires DistinctIds(ps) && DistinctNames(ps)
    ensures var ps2 := Join(ps, name, graphic, now).0;
      DistinctIds(ps2) && DistinctNames(ps2) && forall id :: id in Ids(ps) ==> id in Ids(ps2)
  {
    var ps2 := Join(ps, name, graphic, now).0;
    match FindByName(ps, name)
    case Some(k) =>
      assert forall j :: 0 <= j < |ps| ==> ps2[j].id == ps[j].id && ps2[j].displayName == ps[j].displayName;
      assert Ids(ps2) == Ids(ps);
    case None =>
      forall id | id in Ids(ps) ensures id in Ids(ps2) {
        var j :| 0 <= j < |ps| && Ids(ps)[j] == id;
        assert Ids(ps2)[j] == id;
      }
  }

  /** `joinPool`. A missing pool is NOT_FOUND, a name that is blank after
      trimming is INVALID_INPUT (nothing changes in either case); otherwise
      the join of the trimmed name. */
  method JoinPool(pool: Pool?, displayName: string, graphic: Option<string>, now: int) returns (r: Result<Joined, JoinError>)
    requires pool != null ==> pool.Valid()
    modifies if pool != null then {pool} else {}
    ensures pool == null ==> r == Failure(PoolNotFound)
    ensures pool != null ==> pool.Valid()
    ensures pool != null && Text.AllSpace(displayName) ==>
      r == Failure(InvalidInput) && pool.participants == old(pool.participants)
    ensures pool != null && !Text.AllSpace(displayName) ==>
      var (ps2, j) := Join(old(pool.participants), Text.Trim(displayName), graphic, now);
      r == Success(j) && pool.participants == ps2
    ensures pool != null ==> unchanged(pool`slug, pool`title, pool`adminEmail, pool`status, pool`createdAt)
    ensures pool != null ==> unchanged(pool`maxSquaresPerPerson, pool`rowNumbers, pool`colNumbers)
  {
    if pool == null {
      return Failure(PoolNotFound);
    }
    var trimmedName := Text.Trim(displayName);
    if trimmedName == [] {
      return Failure(InvalidInput);
    }
    JoinKeepsUnique(pool.participants, trimmedName, graphic, now);
    var existing := FindByName(pool.participants, trimmedName);
    if existing.Some? {
      var k := existing.value;
      var e := pool.participants[k];
      if Truthy(graphic) && e.graphic != graphic {
        pool.participants := pool.participants[k := e.(graphic := graphic)];
      }
      return Success(Joined(e.id, e.displayName));
    }
    var id := FreshId(pool.participants);
    pool.participants := pool.participants + [Participant(id, trimmedName, graphic, now)];
    return Success(Joined(id, trimmedName));
  }

  /** The position of the participant with this id, if any. */
  function FindById(ps: seq<Participant>, id: ParticipantId): (k: Option<nat>)
    ensures k.Some? ==> k.value < |ps| && ps[k.value].id == id
    ensures k.None? <==> id !in Ids(ps)
  {
    if ps == [] then None
    else if ps[0].id == id then Some(0)
    else
      var rest := FindById(ps[1..], id);
      assert forall j :: 1 <= j < |ps| ==> ps[j] == ps[1..][j - 1];
      assert id in Ids(ps) ==> exists j :: 1 <= j < |ps| && ps[j].id == id;
      if rest.Some? then Some(rest.value + 1) else None
  }

  datatype GraphicError = ParticipantNotFound

  /** `updateGraphic`: an unknown participant is NOT_FOUND; otherwise its
      graphic becomes `graphic` and nothing else changes. The source looks
      the id up across the whole participants table; the model looks it up
      in `pool`, so the two agree when `pool` is the participant's own pool,
      the pool every participant id belongs to. */
  method UpdateGraphic(pool: Pool, id: ParticipantId, graphic: string) returns (r: Result<bool, GraphicError>)
    requires pool.Valid()
    modifies pool
    ensures pool.Valid()
    ensures id !in Ids(old(pool.participants)) ==> r == Failure(ParticipantNotFound) && pool.participants == old(pool.participants)
    ensures id in Ids(old(pool.participants)) ==>
      && r == Success(true)
      && |pool.participants| == |old(pool.participants)|
      && forall k :: 0 <= k < |pool.participants| ==>
           pool.participants[k] == if old(pool.participants)[k].id == id
                                   then old(pool.participants)[k].(graphic := Some(graphic))
                                   else old(pool.participants)[k]
    ensures unchanged(pool`slug, pool`title, pool`adminEmail, pool`status, pool`createdAt)
    ensures unchanged(pool`maxSquaresPerPerson, pool`rowNumbers, pool`colNumbers)
  {
    var k := FindById(pool.participants, id);
    if k.None? {
      return Failure(ParticipantNotFound);
    }
    var ps := pool.participants;
    var p := ps[k.value];
    pool.participants := ps[k.value := p.(graphic := Some(graphic))];
    assert forall j :: 0 <= j < |ps| ==> Ids(pool.participants)[j] == Ids(ps)[j];
    assert Ids(pool.participants) == Ids(ps);
    return Success(true);
  }
}
