/** `lib/convex-to-pool.ts`: the pool document, its square rows and its
    participants, as the queries return them, turned into the client-side
    pool the boards draw. */
module ConvexToPool {
  import opened Wrappers
  import Js
  import Schema
  import PoolStore

  /** The pool document as a query returns it. */
  datatype ConvexPool = ConvexPool(slug: string, title: string, adminEmail: string, status: Schema.PoolStatus,
                                   maxSquaresPerPerson: int, createdAt: int,
                                   rowNumbers: Option<seq<int>>, colNumbers: Option<seq<int>>)

  /** A square row: its board index and, when claimed, the participant's id. */
  datatype ConvexSquare = ConvexSquare(index: int, participantId: Option<Schema.ParticipantId>)

  /** A participant row as the query returns it; the transform reads its
      id, display name and position, never its graphic. */
  type ConvexParticipant = Schema.Participant

  /** `DEFAULT_GRAPHICS`. */
  const DefaultGraphics: seq<string> := [
    "\U{1F3C8}", "\U{1F985}", "\U{1F3C6}", "\U{2B50}", "\U{1F525}",
    "\U{1F48E}", "\U{1F3AF}", "\U{1F3B2}", "\U{1F451}", "\U{1F340}",
    "\U{26A1}", "\U{1F31F}", "\U{1F3AA}", "\U{1F3C5}", "\U{1F3B0}",
    "\U{1F0CF}", "\U{1F43B}", "\U{1F981}", "\U{1F42F}", "\U{1F98A}"]

  /** `getGraphicForParticipant`: the participant's position picks one of the
      twenty default graphics, round-robin. */
  function GraphicFor(index: nat): (g: string)
    ensures g in DefaultGraphics
  {
    DefaultGraphics[index % |DefaultGraphics|]
  }

  /** Two positions get the same graphic exactly when they are congruent
      modulo 20: the first twenty participants all differ, the 21st repeats
      the first. */
  lemma GraphicsRepeatEvery20(i: nat, j: nat)
    ensures GraphicFor(i) == GraphicFor(j) <==> i % 20 == j % 20
  {
    var a, b := i % 20, j % 20;
    if a != b {
      assert DefaultGraphics[a] != DefaultGraphics[b] by {
        assert forall x, y :: 0 <= x < y < 20 ==> DefaultGraphics[x] != DefaultGraphics[y];
      }
    }
  }

  /** The identity built for the participant at position `k`. */
  function IdentityOf(ps: seq<ConvexParticipant>, k: nat): (id: PoolStore.PlayerIdentity)
    requires k < |ps|
    ensures id.name == ps[k].displayName && id.graphic == GraphicFor(k)
    ensures |id.initials| <= 2
  {
    PoolStore.PlayerIdentity(ps[k].displayName, PoolStore.GetInitials(ps[k].displayName), GraphicFor(k))
  }

  /** The position of the last of the first `n` keys equal to `key`, or -1. */
  function LastAt<K(==)>(keys: seq<K>, key: K, n: nat): (k: int)
    requires n <= |keys|
    ensures -1 <= k < n
    ensures k >= 0 ==> keys[k] == key && forall j :: k < j < n ==> keys[j] != key
    ensures k == -1 <==> forall j :: 0 <= j < n ==> keys[j] != key
  {
    if n == 0 then -1 else if keys[n - 1] == key then n - 1 else LastAt(keys, key, n - 1)
  }

  /** The map built by setting `keys[i]` to `vals[i]` for i = 0 .. n-1 in
      turn, as `Map.set` and record assignment do in a `forEach`. */
  function KeyedLast<K(==), V>(keys: seq<K>, vals: seq<V>, n: nat): map<K, V>
    requires n <= |keys| == |vals|
  {
    if n == 0 then map[] else KeyedLast(keys, vals, n - 1)[keys[n - 1] := vals[n - 1]]
  }

  /** A later assignment to the same key overwrites an earlier one: a key is
      present exactly when it was assigned, and holds the value of its last
      assignment. */
  lemma {:induction false} LastAssignmentWins<K, V>(keys: seq<K>, vals: seq<V>, n: nat)
    requires n <= |keys| == |vals|
    ensures forall key :: key in KeyedLast(keys, vals, n) <==> LastAt(keys, key, n) >= 0
    ensures forall key :: key in KeyedLast(keys, vals, n) ==> KeyedLast(keys, vals, n)[key] == vals[LastAt(keys, key, n)]
  {
    if n > 0 {
      LastAssignmentWins(keys, vals, n - 1);
    }
  }

  function NamesOf(ps: seq<ConvexParticipant>): (names: seq<string>)
    ensures |names| == |ps| && forall k :: 0 <= k < |ps| ==> names[k] == ps[k].displayName
  {
    seq(|ps|, k requires 0 <= k < |ps| => ps[k].displayName)
  }

  /** The identity built for each participant, in list order. */
  function IdentityList(ps: seq<ConvexParticipant>): (ids: seq<PoolStore.PlayerIdentity>)
    ensures |ids| == |ps|
  {
    seq(|ps|, k requires 0 <= k < |ps| => IdentityOf(ps, k))
  }

  /** The initial `players` entry of each participant, in list order. */
  function EntryList(ps: seq<ConvexParticipant>): (es: seq<PoolStore.PlayerEntry>)
    ensures |es| == |ps|
  {
    seq(|ps|, k requires 0 <= k < |ps| => PoolStore.PlayerEntry(IdentityOf(ps, k), 0))
  }

  /** `participantIdentities`: participant id to identity. */
  function Identities(ps: seq<ConvexParticipant>): map<Schema.ParticipantId, PoolStore.PlayerIdentity> {
    KeyedLast(Schema.Ids(ps), IdentityList(ps), |ps|)
  }

  /** The `players` record before any square is counted. */
  function Roster(ps: seq<ConvexParticipant>): map<string, PoolStore.PlayerEntry> {
    KeyedLast(NamesOf(ps), EntryList(ps), |ps|)
  }

  /** An id is known exactly when some participant carries it, and maps to
      the identity of the last participant carrying it. */
  lemma IdentitiesLastWins(ps: seq<ConvexParticipant>)
    ensures forall id :: id in Identities(ps) <==> exists k :: 0 <= k < |ps| && ps[k].id == id
    ensures forall id :: id in Identities(ps) ==> Identities(ps)[id] == IdentityOf(ps, LastAt(Schema.Ids(ps), id, |ps|))
  {
    var ids := Schema.Ids(ps);
    LastAssignmentWins(ids, IdentityList(ps), |ps|);
    forall id ensures id in Identities(ps) <==> exists k :: 0 <= k < |ps| && ps[k].id == id {
      if exists k :: 0 <= k < |ps| && ps[k].id == id {
        var k :| 0 <= k < |ps| && ps[k].id == id;
        assert ids[k] == id;
      }
    }
  }

  /** A display name is in `players` exactly when some participant has it,
      with the identity of the last participant of that name and a count
      of 0. */
  lemma RosterLastWins(ps: seq<ConvexParticipant>)
    ensures forall name :: name in Roster(ps) <==> exists k :: 0 <= k < |ps| && ps[k].displayName == name
    ensures forall name :: name in Roster(ps) ==>
      Roster(ps)[name] == PoolStore.PlayerEntry(IdentityOf(ps, LastAt(NamesOf(ps), name, |ps|)), 0)
  {
    var names := NamesOf(ps);
    LastAssignmentWins(names, EntryList(ps), |ps|);
    forall name ensures name in Roster(ps) <==> exists k :: 0 <= k < |ps| && ps[k].displayName == name {
      if exists k :: 0 <= k < |ps| && ps[k].displayName == name {
        var k :| 0 <= k < |ps| && ps[k].displayName == name;
        assert names[k] == name;
      }
    }
  }

  /** Every identity is listed under its own name in `players`, so the
      count increment never meets a missing entry. */
  lemma IdentityNamesInRoster(ps: seq<ConvexParticipant>)
    ensures forall id :: id in Identities(ps) ==> Identities(ps)[id].name in Roster(ps)
  {
    var ids := Schema.Ids(ps);
    LastAssignmentWins(ids, IdentityList(ps), |ps|);
    forall id | id in Identities(ps) ensures Identities(ps)[id].name in Roster(ps) {
      var k := LastAt(ids, id, |ps|);
      assert IdentityList(ps)[k] == IdentityOf(ps, k);
      RosterLastWins(ps);
    }
  }

  /** The square row claims cell `cell` for a participant the pool knows. */
  predicate KnownClaimAt(sq: ConvexSquare, idents: map<Schema.ParticipantId, PoolStore.PlayerIdentity>, cell: int) {
    sq.index == cell && sq.participantId.Some? && sq.participantId.value in idents
  }

  /** Who holds cell `cell` after the first `n` square rows are applied:
      the identity of the last of them with a known participant at that
      cell, none if there is no such row. */
  function LastClaim(squares: seq<ConvexSquare>, idents: map<Schema.ParticipantId, PoolStore.PlayerIdentity>,
                     cell: int, n: nat): Option<PoolStore.PlayerIdentity>
    requires n <= |squares|
  {
    if n == 0 then None
    else if KnownClaimAt(squares[n - 1], idents, cell) then Some(idents[squares[n - 1].participantId.value])
    else LastClaim(squares, idents, cell, n - 1)
  }

  /** A cell is held exactly when some row claims it for a known
      participant, and then by the identity of the last such row. */
  lemma {:induction false} LastClaimIsLastRow(squares: seq<ConvexSquare>, idents: map<Schema.ParticipantId, PoolStore.PlayerIdentity>,
                                              cell: int, n: nat)
    requires n <= |squares|
    ensures LastClaim(squares, idents, cell, n).None? <==> forall k :: 0 <= k < n ==> !KnownClaimAt(squares[k], idents, cell)
    ensures LastClaim(squares, idents, cell, n).Some? ==>
      exists k :: 0 <= k < n && KnownClaimAt(squares[k], idents, cell)
        && LastClaim(squares, idents, cell, n).value == idents[squares[k].participantId.value]
        && forall j :: k < j < n ==> !KnownClaimAt(squares[j], idents, cell)
  {
    if n > 0 && !KnownClaimAt(squares[n - 1], idents, cell) {
      LastClaimIsLastRow(squares, idents, cell, n - 1);
    }
  }

  /** The square row is claimed by a known participant whose name is `name`. */
  predicate KnownClaimBy(sq: ConvexSquare, idents: map<Schema.ParticipantId, PoolStore.PlayerIdentity>, name: string) {
    sq.participantId.Some? && sq.participantId.value in idents && idents[sq.participantId.value].name == name
  }

  /** How many of the first `n` square rows are claimed by a known
      participant named `name`. */
  function ClaimsBy(squares: seq<ConvexSquare>, idents: map<Schema.ParticipantId, PoolStore.PlayerIdentity>,
                    name: string, n: nat): (c: nat)
    requires n <= |squares|
    ensures c <= n
    ensures c == 0 <==> forall k :: 0 <= k < n ==> !KnownClaimBy(squares[k], idents, name)
  {
    if n == 0 then 0
    else ClaimsBy(squares, idents, name, n - 1) + (if KnownClaimBy(squares[n - 1], idents, name) then 1 else 0)
  }

  /** `squares.filter((s) => s.participantId).length` over the first `n` rows. */
  function AssignedAmong(squares: seq<ConvexSquare>, n: nat): (c: nat)
    requires n <= |squares|
    ensures c <= n
    ensures c == n <==> forall k :: 0 <= k < n ==> squares[k].participantId.Some?
  {
    if n == 0 then 0
    else AssignedAmong(squares, n - 1) + (if squares[n - 1].participantId.Some? then 1 else 0)
  }

  /** The stored number row, or ten nulls when it has not been drawn. */
  function NumbersOrBlank(ns: Option<seq<int>>): (r: seq<Option<int>>)
    ensures ns.None? ==> r == PoolStore.NoNumbers()
    ensures ns.Some? ==> |r| == |ns.value| && forall i :: 0 <= i < |r| ==> r[i] == Some(ns.value[i])
  {
    match ns
    case None => PoolStore.NoNumbers()
    case Some(v) => seq(|v|, i requires 0 <= i < |v| => Some(v[i]))
  }

  /** The client status: locked pools stay locked; otherwise "full" once 100
      square rows carry a participant, "open" before. */
  function ClientStatusOf(status: Schema.PoolStatus, claimed: nat): PoolStore.ClientStatus {
    if status == Schema.Locked then PoolStore.Locked
    else if claimed >= 100 then PoolStore.Full
    else PoolStore.Open
  }

  /** `transformToPool`. Every square row's `index` lies in 0..99 (rows are
      only created by pool creation, one per index). Each cell shows the
      identity of the last row for it whose participant is known; each
      display name's count is the number of rows claimed by a known
      participant of that name. */
  method TransformToPool(pool: ConvexPool, squares: seq<ConvexSquare>, participants: seq<ConvexParticipant>)
    returns (r: PoolStore.ClientPool)
    requires forall k :: 0 <= k < |squares| ==> 0 <= squares[k].index < 100
    ensures r.id == pool.slug && r.squaresPerPerson == pool.maxSquaresPerPerson
    ensures r.status == ClientStatusOf(pool.status, AssignedAmong(squares, |squares|))
    ensures PoolStore.IsGrid(r.squares)
    ensures forall row, col :: 0 <= row < 10 && 0 <= col < 10 ==>
      r.squares[row][col] == PoolStore.Square(row, col, LastClaim(squares, Identities(participants), 10 * row + col, |squares|))
    ensures r.rowNumbers == NumbersOrBlank(pool.rowNumbers) && r.colNumbers == NumbersOrBlank(pool.colNumbers)
    ensures r.players.Keys == Roster(participants).Keys
    ensures forall name :: name in r.players ==>
      r.players[name] == PoolStore.PlayerEntry(Roster(participants)[name].identity,
                                               ClaimsBy(squares, Identities(participants), name, |squares|))
  {
    var idents, players := IdentifyParticipants(participants);
    IdentityNamesInRoster(participants);
    RosterLastWins(participants);
    var grid;
    grid, players := PlaceSquares(squares, idents, players);
    var claimedCount := AssignedAmong(squares, |squares|);
    var status;
    if pool.status == Schema.Locked {
      status := PoolStore.Locked;
    } else if claimedCount >= 100 {
      status := PoolStore.Full;
    } else {
      status := PoolStore.Open;
    }
    r := PoolStore.ClientPool(pool.slug, pool.maxSquaresPerPerson, status, grid,
                              NumbersOrBlank(pool.rowNumbers), NumbersOrBlank(pool.colNumbers), players);
  }

  /** The two `participants.forEach` passes: the identity map by id and
      the `players` record by display name, counts at zero. */
  method IdentifyParticipants(participants: seq<ConvexParticipant>)
    returns (idents: map<Schema.ParticipantId, PoolStore.PlayerIdentity>, players: map<string, PoolStore.PlayerEntry>)
    ensures idents == Identities(participants) && players == Roster(participants)
  {
    idents, players := map[], map[];
    var idx := 0;
    while idx < |participants|
      invariant 0 <= idx <= |participants|
      invariant idents == KeyedLast(Schema.Ids(participants), IdentityList(participants), idx)
      invariant players == KeyedLast(NamesOf(participants), EntryList(participants), idx)
    {
      var p := participants[idx];
      var identity := IdentityOf(participants, idx);
      IdentifyStep(participants, idx);
      idents := idents[p.id := identity];
      players := players[p.displayName := PoolStore.PlayerEntry(identity, 0)];
      idx := idx + 1;
    }
  }

  /** One more participant sets its id and its display name. */
  lemma IdentifyStep(ps: seq<ConvexParticipant>, idx: nat)
    requires idx < |ps|
    ensures KeyedLast(Schema.Ids(ps), IdentityList(ps), idx + 1)
         == KeyedLast(Schema.Ids(ps), IdentityList(ps), idx)[ps[idx].id := IdentityOf(ps, idx)]
    ensures KeyedLast(NamesOf(ps), EntryList(ps), idx + 1)
         == KeyedLast(NamesOf(ps), EntryList(ps), idx)[ps[idx].displayName := PoolStore.PlayerEntry(IdentityOf(ps, idx), 0)]
  {
    assert IdentityList(ps)[idx] == IdentityOf(ps, idx);
    assert EntryList(ps)[idx] == PoolStore.PlayerEntry(IdentityOf(ps, idx), 0);
  }

  /** The `for (const sq of squares)` pass: starting from the empty grid,
      each row with a known participant claims its cell for that identity
      and adds one to the count under the identity's name. */
  method PlaceSquares(squares: seq<ConvexSquare>, idents: map<Schema.ParticipantId, PoolStore.PlayerIdentity>,
                      roster: map<string, PoolStore.PlayerEntry>)
    returns (grid: seq<seq<PoolStore.Square>>, players: map<string, PoolStore.PlayerEntry>)
    requires forall k :: 0 <= k < |squares| ==> 0 <= squares[k].index < 100
    requires forall id :: id in idents ==> idents[id].name in roster
    requires forall name :: name in roster ==> roster[name].count == 0
    ensures PoolStore.IsGrid(grid)
    ensures forall row, col :: 0 <= row < 10 && 0 <= col < 10 ==>
      grid[row][col] == PoolStore.Square(row, col, LastClaim(squares, idents, 10 * row + col, |squares|))
    ensures players.Keys == roster.Keys
    ensures forall name :: name in players ==>
      players[name] == PoolStore.PlayerEntry(roster[name].identity, ClaimsBy(squares, idents, name, |squares|))
  {
    grid := PoolStore.EmptyGrid();
    players := roster;
    var i := 0;
    while i < |squares|
      invariant 0 <= i <= |squares|
      invariant GridAfter(grid, squares, idents, i)
      invariant CountsAfter(players, roster, squares, idents, i)
    {
      var sq := squares[i];
      var row := Js.FloorDiv(sq.index, 10);
      var col := Js.Rem(sq.index, 10);
      assert 10 * row + col == sq.index && 0 <= row < 10 && 0 <= col < 10;
      ghost var before, counted := grid, players;
      if sq.participantId.Some? {
        if sq.participantId.value in idents {
          var identity := idents[sq.participantId.value];
          grid := grid[row := grid[row][col := grid[row][col].(claimedBy := Some(identity))]];
          ClaimStep(squares, idents, i, before, grid);
          players := players[identity.name := players[identity.name].(count := players[identity.name].count + 1)];
        }
      }
      CountStep(squares, idents, roster, i, counted, players);
      if !(sq.participantId.Some? && sq.participantId.value in idents) {
        SkipStep(squares, idents, i, grid);
      }
      i := i + 1;
    }
  }

  /** The grid after the first `n` rows: every cell in place, held by its
      last claim. */
  ghost predicate GridAfter(grid: seq<seq<PoolStore.Square>>, squares: seq<ConvexSquare>,
                            idents: map<Schema.ParticipantId, PoolStore.PlayerIdentity>, n: nat)
    requires n <= |squares|
  {
    PoolStore.IsGrid(grid)
    && forall row, col :: 0 <= row < 10 && 0 <= col < 10 ==>
         grid[row][col] == PoolStore.Square(row, col, LastClaim(squares, idents, 10 * row + col, n))
  }

  /** The `players` record after the first `n` rows: same names, each
      counting that name's claims so far. */
  ghost predicate CountsAfter(players: map<string, PoolStore.PlayerEntry>, roster: map<string, PoolStore.PlayerEntry>,
                              squares: seq<ConvexSquare>, idents: map<Schema.ParticipantId, PoolStore.PlayerIdentity>, n: nat)
    requires n <= |squares|
  {
    players.Keys == roster.Keys
    && forall name :: name in players ==>
         players[name] == PoolStore.PlayerEntry(roster[name].identity, ClaimsBy(squares, idents, name, n))
  }

  /** A row without a known participant changes no cell. */
  lemma SkipStep(squares: seq<ConvexSquare>, idents: map<Schema.ParticipantId, PoolStore.PlayerIdentity>, i: nat,
                 grid: seq<seq<PoolStore.Square>>)
    requires i < |squares|
    requires !(squares[i].participantId.Some? && squares[i].participantId.value in idents)
    requires GridAfter(grid, squares, idents, i)
    ensures GridAfter(grid, squares, idents, i + 1)
  {
    forall cell ensures LastClaim(squares, idents, cell, i + 1) == LastClaim(squares, idents, cell, i) {
      assert !KnownClaimAt(squares[i], idents, cell);
    }
  }

  /** Counting row `i` adds one to its claimant's name, if it is known. */
  lemma CountStep(squares: seq<ConvexSquare>, idents: map<Schema.ParticipantId, PoolStore.PlayerIdentity>,
                  roster: map<string, PoolStore.PlayerEntry>, i: nat,
                  before: map<string, PoolStore.PlayerEntry>, after: map<string, PoolStore.PlayerEntry>)
    requires i < |squares|
    requires forall id :: id in idents ==> idents[id].name in roster
    requires CountsAfter(before, roster, squares, idents, i)
    requires var sq := squares[i];
      if sq.participantId.Some? && sq.participantId.value in idents then
        var name := idents[sq.participantId.value].name;
        after == before[name := before[name].(count := before[name].count + 1)]
      else after == before
    ensures CountsAfter(after, roster, squares, idents, i + 1)
  {
  }

  /** Writing the identity of square row `i` into its cell extends the
      cell-by-cell picture from `i` rows to `i + 1`. */
  lemma ClaimStep(squares: seq<ConvexSquare>, idents: map<Schema.ParticipantId, PoolStore.PlayerIdentity>, i: nat,
                  before: seq<seq<PoolStore.Square>>, after: seq<seq<PoolStore.Square>>)
    requires i < |squares| && 0 <= squares[i].index < 100
    requires squares[i].participantId.Some? && squares[i].participantId.value in idents
    requires GridAfter(before, squares, idents, i)
    requires var row, col := squares[i].index / 10, squares[i].index % 10;
      after == before[row := before[row][col := before[row][col].(claimedBy := Some(idents[squares[i].participantId.value]))]]
    ensures GridAfter(after, squares, idents, i + 1)
  {
    var row, col := squares[i].index / 10, squares[i].index % 10;
    forall r, c | 0 <= r < 10 && 0 <= c < 10
      ensures after[r][c] == PoolStore.Square(r, c, LastClaim(squares, idents, 10 * r + c, i + 1))
    {
      if r == row && c == col {
        assert KnownClaimAt(squares[i], idents, 10 * r + c);
      } else {
        assert 10 * r + c != squares[i].index by {
          if r == row { assert c != col; } else if r < row { assert 10 * r + c < 10 * row; } else { assert 10 * r >= 10 * row + 10; }
        }
        assert after[r][c] == before[r][c];
        assert !KnownClaimAt(squares[i], idents, 10 * r + c);
      }
    }
  }

  /** When square indices do not repeat, a row claimed by a known
      participant shows that participant's identity on its cell. */
  lemma ClaimedRowShows(squares: seq<ConvexSquare>, idents: map<Schema.ParticipantId, PoolStore.PlayerIdentity>, k: nat)
    requires k < |squares|
    requires forall i, j :: 0 <= i < j < |squares| ==> squares[i].index != squares[j].index
    requires squares[k].participantId.Some? && squares[k].participantId.value in idents
    ensures LastClaim(squares, idents, squares[k].index, |squares|) == Some(idents[squares[k].participantId.value])
  {
    var o := LastClaim(squares, idents, squares[k].index, |squares|);
    LastClaimIsLastRow(squares, idents, squares[k].index, |squares|);
    assert KnownClaimAt(squares[k], idents, squares[k].index);
    var k' :| 0 <= k' < |squares| && KnownClaimAt(squares[k'], idents, squares[k].index)
              && o.value == idents[squares[k'].participantId.value]
              && forall j :: k' < j < |squares| ==> !KnownClaimAt(squares[j], idents, squares[k].index);
    assert k' == k;
  }

  /** Only pools that are open and whose 100 square rows all carry a
      participant show as full, when there are at most 100 rows. */
  lemma FullMeansEveryRowAssigned(status: Schema.PoolStatus, squares: seq<ConvexSquare>)
    requires |squares| <= 100
    ensures ClientStatusOf(status, AssignedAmong(squares, |squares|)) == PoolStore.Full <==>
      status == Schema.Open && |squares| == 100 && forall k :: 0 <= k < 100 ==> squares[k].participantId.Some?
  {
  }
}
