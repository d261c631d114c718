/** The Convex tables of `convex/schema.ts` that the board allocation works
    on. One pool document, its 100 square rows and its participants are held
    together in a `Pool` object: the square rows become an array `owners`
    indexed by the square's `index` 0..99, holding the optional
    `participantId` of each row. */
module Schema {
  import opened Wrappers

  /** Number of square rows a pool owns. */
  const BoardSize: nat := 100

  type ParticipantId = nat

  datatype PoolStatus = Open | Locked

  /** A row of the participants table (the `graphic` field is written by
      `joinPool` and `updateGraphic`). */
  datatype Participant = Participant(id: ParticipantId, displayName: string, graphic: Option<string>, createdAt: int)

  /** The participant ids in list order. */
  function Ids(ps: seq<Participant>): (ids: seq<ParticipantId>)
    ensures |ids| == |ps| && forall k :: 0 <= k < |ps| ==> ids[k] == ps[k].id
  {
    seq(|ps|, k requires 0 <= k < |ps| => ps[k].id)
  }

  predicate DistinctIds(ps: seq<Participant>) {
    forall i, j :: 0 <= i < j < |ps| ==> ps[i].id != ps[j].id
  }

  predicate DistinctNames(ps: seq<Participant>) {
    forall i, j :: 0 <= i < j < |ps| ==> ps[i].displayName != ps[j].displayName
  }

  /** An id that no listed participant has (the database's fresh `_id`). */
  function FreshId(ps: seq<Participant>): (id: ParticipantId)
    ensures id !in Ids(ps)
    ensures forall k :: 0 <= k < |ps| ==> ps[k].id < id
  {
    if ps == [] then 0
    else
      var rest := FreshId(ps[1..]);
      assert forall k :: 1 <= k < |ps| ==> ps[k] == ps[1..][k - 1];
      if ps[0].id < rest then rest else ps[0].id + 1
  }

  /** Number of squares owned by `p`. */
  function CountOwned(s: seq<Option<ParticipantId>>, p: ParticipantId): (n: nat)
    ensures n <= |s|
  {
    if s == [] then 0
    else CountOwned(s[..|s| - 1], p) + (if s[|s| - 1] == Some(p) then 1 else 0)
  }

  /** Number of squares with an owner (`filter((s) => s.participantId).length`). */
  function CountClaimed(s: seq<Option<ParticipantId>>): (n: nat)
    ensures n <= |s|
  {
    if s == [] then 0
    else CountClaimed(s[..|s| - 1]) + (if s[|s| - 1].Some? then 1 else 0)
  }

  /** Setting one square changes `p`'s count by what left and what arrived. */
  lemma {:induction false} CountOwnedUpdate(s: seq<Option<ParticipantId>>, i: nat, v: Option<ParticipantId>, p: ParticipantId)
    requires i < |s|
    ensures CountOwned(s[i := v], p)
         == CountOwned(s, p) - (if s[i] == Some(p) then 1 else 0) + (if v == Some(p) then 1 else 0)
    decreases |s|
  {
    var n := |s| - 1;
    if i < n {
      assert s[i := v][..n] == s[..n][i := v];
      CountOwnedUpdate(s[..n], i, v, p);
    } else {
      assert s[i := v][..n] == s[..n];
    }
  }

  /** The count of claimed squares, and a square's count, grow by one when a
      free square gets an owner. */
  lemma {:induction false} CountClaimedUpdate(s: seq<Option<ParticipantId>>, i: nat, v: Option<ParticipantId>)
    requires i < |s|
    ensures CountClaimed(s[i := v])
         == CountClaimed(s) - (if s[i].Some? then 1 else 0) + (if v.Some? then 1 else 0)
    decreases |s|
  {
    var n := |s| - 1;
    if i < n {
      assert s[i := v][..n] == s[..n][i := v];
      CountClaimedUpdate(s[..n], i, v);
    } else {
      assert s[i := v][..n] == s[..n];
    }
  }

  /** A board with every square owned has all of them claimed, and
      conversely. */
  lemma {:induction false} CountClaimedFull(s: seq<Option<ParticipantId>>)
    ensures CountClaimed(s) == |s| <==> forall i :: 0 <= i < |s| ==> s[i].Some?
    decreases |s|
  {
    if s != [] {
      var n := |s| - 1;
      CountClaimedFull(s[..n]);
      assert forall i :: 0 <= i < n ==> s[..n][i] == s[i];
    }
  }

  /** A pool document together with its square rows and participants. */
  class Pool {
    var slug: string
    var title: string
    var adminEmail: string
    var status: PoolStatus
    var maxSquaresPerPerson: int
    var createdAt: int
    var rowNumbers: Option<seq<int>>
    var colNumbers: Option<seq<int>>
    var participants: seq<Participant>
    /** owners[i] is the `participantId` of the square row with index i. */
    const owners: array<Option<ParticipantId>>

    /** 100 squares, owners are participants of this pool, participant ids
        and display names are unique. */
    ghost predicate Valid()
      reads this, owners
    {
      owners.Length == BoardSize
      && DistinctIds(participants)
      && DistinctNames(participants)
      && forall i :: 0 <= i < owners.Length && owners[i].Some? ==> owners[i].value in Ids(participants)
    }

    /** The insert of a new pool document followed by its 100 square rows,
        each without an owner. */
    constructor (slug: string, title: string, adminEmail: string, maxSquaresPerPerson: int, now: int)
      ensures Valid() && fresh(owners)
      ensures this.slug == slug && this.title == title && this.adminEmail == adminEmail
      ensures status == Open && this.maxSquaresPerPerson == maxSquaresPerPerson && createdAt == now
      ensures rowNumbers == None && colNumbers == None && participants == []
      ensures forall i :: 0 <= i < owners.Length ==> owners[i] == None
    {
      this.slug := slug;
      this.title := title;
      this.adminEmail := adminEmail;
      status := Open;
      this.maxSquaresPerPerson := maxSquaresPerPerson;
      createdAt := now;
      rowNumbers := None;
      colNumbers := None;
      participants := [];
      var rows := new Option<ParticipantId>[BoardSize];
      var i := 0;
      while i < BoardSize
        invariant 0 <= i <= BoardSize
        invariant forall k :: 0 <= k < i ==> rows[k] == None
      {
        rows[i] := None;
        i := i + 1;
      }
      owners := rows;
    }
  }
}
