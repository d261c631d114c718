/** The local (offline) pool reducer of `app/page.tsx`: `handleClaimSquare`
    is a copy-on-write update of the client pool, and `handleAssignNumbers`
    shuffles 0..9 for both headers and locks the board. */
module HomePage {
  import opened Wrappers
  import opened PoolStore
  import Shuffle
  import SquaresGrid

  /** A 10×10 grid whose cell [r][c] records row r and column c, as
      `createEmptyGrid` builds it. */
  predicate WellPlaced(g: seq<seq<Square>>) {
    IsGrid(g) && forall r, c :: 0 <= r < 10 && 0 <= c < 10 ==> g[r][c].row == r && g[r][c].col == c
  }

  /** The grid `map` of `handleClaimSquare`: every cell whose own row and
      column are the target's takes the identity as claimant. */
  function ClaimCell(g: seq<seq<Square>>, identity: PlayerIdentity, row: int, col: int): (ng: seq<seq<Square>>)
    ensures |ng| == |g| && forall r :: 0 <= r < |g| ==> |ng[r]| == |g[r]|
  {
    seq(|g|, r requires 0 <= r < |g| =>
      seq(|g[r]|, c requires 0 <= c < |g[r]| =>
        var s := g[r][c];
        if s.row == row && s.col == col then s.(claimedBy := Some(identity)) else s))
  }

  /** The `players` update: create the entry with count 0 when the name has
      none, then add one to its count. */
  function AddOne(players: map<string, PlayerEntry>, identity: PlayerIdentity): (m: map<string, PlayerEntry>)
    ensures m.Keys == players.Keys + {identity.name}
    ensures identity.name in players ==> m[identity.name] == players[identity.name].(count := players[identity.name].count + 1)
    ensures identity.name !in players ==> m[identity.name] == PlayerEntry(identity, 1)
    ensures forall n :: n in players && n != identity.name ==> m[n] == players[n]
  {
    var entry := if identity.name in players then players[identity.name] else PlayerEntry(identity, 0);
    players[identity.name := entry.(count := entry.count + 1)]
  }

  /** The state updater inside `handleClaimSquare`: an owned cell or a
      player at quota leaves the pool as it was; otherwise the cell is
      claimed, the player's count goes up, and a board that is now full
      becomes "full". */
  function ClaimSquare(prev: ClientPool, identity: PlayerIdentity, row: int, col: int): (next: ClientPool)
    requires 0 <= row < |prev.squares| && 0 <= col < |prev.squares[row]|
    ensures prev.squares[row][col].claimedBy.Some? ==> next == prev
    ensures PlayerSquareCount(prev, identity.name) >= prev.squaresPerPerson ==> next == prev
    ensures next.id == prev.id && next.squaresPerPerson == prev.squaresPerPerson
    ensures next.rowNumbers == prev.rowNumbers && next.colNumbers == prev.colNumbers
  {
    if prev.squares[row][col].claimedBy.Some? then prev
    else if PlayerSquareCount(prev, identity.name) >= prev.squaresPerPerson then prev
    else
      var updated := prev.(squares := ClaimCell(prev.squares, identity, row, col),
                           players := AddOne(prev.players, identity));
      if IsBoardFull(updated) then updated.(status := Full) else updated
  }

  /** `setPool((prev) => …)`: no pool, nothing to update. */
  function HandleClaimSquare(prev: Option<ClientPool>, identity: PlayerIdentity, row: int, col: int): (next: Option<ClientPool>)
    requires prev.Some? ==> 0 <= row < |prev.value.squares| && 0 <= col < |prev.value.squares[row]|
    ensures next.Some? <==> prev.Some?
    ensures prev.Some? ==> next.value == ClaimSquare(prev.value, identity, row, col)
  {
    if prev.None? then None else Some(ClaimSquare(prev.value, identity, row, col))
  }

  /** Changing one cell of a list changes the count for `name` by what the
      old cell and the new cell contribute. */
  lemma {:induction false} CountNamedUpdate(cells: seq<Square>, k: nat, x: Square, name: string)
    requires k < |cells|
    ensures CountNamed(cells[k := x], name) + (if ClaimedByName(cells[k], name) then 1 else 0)
         == CountNamed(cells, name) + (if ClaimedByName(x, name) then 1 else 0)
  {
    if k == 0 {
      assert cells[k := x][0] == x;
      assert cells[k := x][1..] == cells[1..];
    } else {
      assert cells[k := x][0] == cells[0];
      assert cells[k := x][1..] == cells[1..][k - 1 := x];
      CountNamedUpdate(cells[1..], k - 1, x, name);
    }
  }

  /** The same for the number of claimed cells. */
  lemma {:induction false} CountClaimedUpdate(cells: seq<Square>, k: nat, x: Square)
    requires k < |cells|
    ensures CountClaimed(cells[k := x]) + (if cells[k].claimedBy.Some? then 1 else 0)
         == CountClaimed(cells) + (if x.claimedBy.Some? then 1 else 0)
  {
    if k == 0 {
      assert cells[k := x][0] == x;
      assert cells[k := x][1..] == cells[1..];
    } else {
      assert cells[k := x][0] == cells[0];
      assert cells[k := x][1..] == cells[1..][k - 1 := x];
      CountClaimedUpdate(cells[1..], k - 1, x);
    }
  }

  /** On a well-placed grid, `ClaimCell` changes exactly cell [row][col]:
      the flattened grid differs from the old one at position 10·row + col
      only. */
  lemma ClaimCellFlat(g: seq<seq<Square>>, identity: PlayerIdentity, row: int, col: int)
    requires WellPlaced(g) && 0 <= row < 10 && 0 <= col < 10
    ensures WellPlaced(ClaimCell(g, identity, row, col))
    ensures forall r, c :: 0 <= r < 10 && 0 <= c < 10 ==>
      ClaimCell(g, identity, row, col)[r][c] ==
        if r == row && c == col then g[r][c].(claimedBy := Some(identity)) else g[r][c]
    ensures |Flatten(g)| == 100
    ensures Flatten(ClaimCell(g, identity, row, col)) == Flatten(g)[10 * row + col := g[row][col].(claimedBy := Some(identity))]
  {
    var ng := ClaimCell(g, identity, row, col);
    var x := g[row][col].(claimedBy := Some(identity));
    FlattenGrid(g);
    FlattenGrid(ng);
    var a := Flatten(ng);
    var b := Flatten(g)[10 * row + col := x];
    forall k | 0 <= k < 100 ensures a[k] == b[k] {
      assert a[10 * (k / 10) + k % 10] == ng[k / 10][k % 10];
      assert Flatten(g)[10 * (k / 10) + k % 10] == g[k / 10][k % 10];
    }
  }

  /** Every claimed cell's claimant has an entry in the `players` record. */
  ghost predicate ClaimantsListed(p: ClientPool)
    requires IsGrid(p.squares)
  {
    forall r, c :: 0 <= r < 10 && 0 <= c < 10 && p.squares[r][c].claimedBy.Some? ==>
      p.squares[r][c].claimedBy.value.name in p.players
  }

  /** What the local pool keeps true: a well-placed grid, every claimant
      listed, and each listed count equal to the squares that name holds. */
  ghost predicate Consistent(p: ClientPool) {
    WellPlaced(p.squares) && ClaimantsListed(p) && CountsAgree(p)
  }

  /** A freshly created pool is consistent. */
  lemma CreatedConsistent(id: string, squaresPerPerson: int)
    ensures Consistent(CreatePool(id, squaresPerPerson))
  {
  }

  /** A name without an entry holds no squares. */
  lemma UnlistedHoldsNothing(p: ClientPool, name: string)
    requires WellPlaced(p.squares) && ClaimantsListed(p) && name !in p.players
    ensures PlayerSquareCount(p, name) == 0
  {
    var cells := Flatten(p.squares);
    FlattenGrid(p.squares);
    forall k | 0 <= k < |cells| ensures !ClaimedByName(cells[k], name) {
      assert cells[10 * (k / 10) + k % 10] == p.squares[k / 10][k % 10];
    }
  }

  /** A claim that goes through changes only the target cell, which takes
      the identity, and creates or bumps the claimant's entry. */
  lemma ClaimEffect(prev: ClientPool, identity: PlayerIdentity, row: int, col: int)
    requires WellPlaced(prev.squares) && 0 <= row < 10 && 0 <= col < 10
    requires prev.squares[row][col].claimedBy.None?
    requires PlayerSquareCount(prev, identity.name) < prev.squaresPerPerson
    ensures var next := ClaimSquare(prev, identity, row, col);
      && WellPlaced(next.squares)
      && next.squares[row][col] == prev.squares[row][col].(claimedBy := Some(identity))
      && (forall r, c :: 0 <= r < 10 && 0 <= c < 10 && (r != row || c != col) ==> next.squares[r][c] == prev.squares[r][c])
      && next.players == AddOne(prev.players, identity)
  {
    ClaimCellFlat(prev.squares, identity, row, col);
  }

  /** The flattened grid after a claim that goes through is the old one
      with position 10·row + col replaced by the claimed cell. */
  lemma FlatAfterClaim(prev: ClientPool, identity: PlayerIdentity, row: int, col: int)
    requires WellPlaced(prev.squares) && 0 <= row < 10 && 0 <= col < 10
    requires prev.squares[row][col].claimedBy.None?
    requires PlayerSquareCount(prev, identity.name) < prev.squaresPerPerson
    ensures |Flatten(prev.squares)| == 100 && Flatten(prev.squares)[10 * row + col] == prev.squares[row][col]
    ensures Flatten(ClaimSquare(prev, identity, row, col).squares)
         == Flatten(prev.squares)[10 * row + col := prev.squares[row][col].(claimedBy := Some(identity))]
  {
    ClaimCellFlat(prev.squares, identity, row, col);
    FlattenGrid(prev.squares);
  }

  /** A claim that goes through adds one to the claimed count and to the
      claimant's square count, which stays within the quota; nobody
      else's count moves. */
  lemma ClaimCounts(prev: ClientPool, identity: PlayerIdentity, row: int, col: int)
    requires WellPlaced(prev.squares) && 0 <= row < 10 && 0 <= col < 10
    requires prev.squares[row][col].claimedBy.None?
    requires PlayerSquareCount(prev, identity.name) < prev.squaresPerPerson
    ensures var next := ClaimSquare(prev, identity, row, col);
      && ClaimedCount(next) == ClaimedCount(prev) + 1
      && PlayerSquareCount(next, identity.name) == PlayerSquareCount(prev, identity.name) + 1 <= prev.squaresPerPerson
      && (forall n :: n != identity.name ==> PlayerSquareCount(next, n) == PlayerSquareCount(prev, n))
  {
    var next := ClaimSquare(prev, identity, row, col);
    var x := prev.squares[row][col].(claimedBy := Some(identity));
    var cells := Flatten(prev.squares);
    var k := 10 * row + col;
    FlatAfterClaim(prev, identity, row, col);
    CountClaimedUpdate(cells, k, x);
    assert IsGrid(next.squares);
    forall n ensures PlayerSquareCount(next, n) == PlayerSquareCount(prev, n) + (if n == identity.name then 1 else 0) {
      CountNamedUpdate(cells, k, x, n);
    }
  }

  /** After a claim that goes through, the status is "full" exactly when
      every cell is claimed (or it already was "full"), and otherwise it
      is what it was. */
  lemma ClaimStatus(prev: ClientPool, identity: PlayerIdentity, row: int, col: int)
    requires WellPlaced(prev.squares) && 0 <= row < 10 && 0 <= col < 10
    requires prev.squares[row][col].claimedBy.None?
    requires PlayerSquareCount(prev, identity.name) < prev.squaresPerPerson
    ensures var next := ClaimSquare(prev, identity, row, col);
      && (next.status == Full <==>
            (prev.status == Full || forall r, c :: 0 <= r < 10 && 0 <= c < 10 ==> next.squares[r][c].claimedBy.Some?))
      && ((exists r, c :: 0 <= r < 10 && 0 <= c < 10 && next.squares[r][c].claimedBy.None?) ==> next.status == prev.status)
  {
    var next := ClaimSquare(prev, identity, row, col);
    ClaimCellFlat(prev.squares, identity, row, col);
    FullIffAllClaimed(next);
  }

  /** `handleClaimSquare` keeps the local pool consistent. */
  lemma ClaimKeepsConsistent(prev: ClientPool, identity: PlayerIdentity, row: int, col: int)
    requires Consistent(prev) && 0 <= row < 10 && 0 <= col < 10
    ensures Consistent(ClaimSquare(prev, identity, row, col))
  {
    if prev.squares[row][col].claimedBy.None? && PlayerSquareCount(prev, identity.name) < prev.squaresPerPerson {
      var next := ClaimSquare(prev, identity, row, col);
      ClaimEffect(prev, identity, row, col);
      ClaimCounts(prev, identity, row, col);
      if identity.name !in prev.players {
        UnlistedHoldsNothing(prev, identity.name);
      }
      forall n | n in next.players ensures next.players[n].count == PlayerSquareCount(next, n) {
      }
    }
  }

  /** Ten header slots, each holding a digit, the digits 0..9 in some order. */
  predicate IsDigitHeader(ns: seq<Option<int>>) {
    |ns| == 10 && (forall i :: 0 <= i < 10 ==> ns[i].Some?) && Shuffle.IsDigitPermutation(Values(ns))
  }

  /** The digits held by a header, `None` read as -1. */
  function Values(ns: seq<Option<int>>): (ds: seq<int>)
    ensures |ds| == |ns| && forall i :: 0 <= i < |ns| && ns[i].Some? ==> ds[i] == ns[i].value
  {
    seq(|ns|, i requires 0 <= i < |ns| => if ns[i].Some? then ns[i].value else -1)
  }

  /** Shuffled digits as header slots. */
  function AsHeader(ds: seq<int>): (ns: seq<Option<int>>)
    ensures |ns| == |ds| && forall i :: 0 <= i < |ds| ==> ns[i] == Some(ds[i])
  {
    seq(|ds|, i requires 0 <= i < |ds| => Some(ds[i]))
  }

  /** `handleAssignNumbers`: both headers become fresh shuffles of 0..9 and
      the board locks; nothing else in the pool changes. */
  method HandleAssignNumbers(prev: Option<ClientPool>) returns (next: Option<ClientPool>)
    ensures next.Some? <==> prev.Some?
    ensures prev.Some? ==>
      && IsDigitHeader(next.value.rowNumbers) && IsDigitHeader(next.value.colNumbers)
      && next.value == prev.value.(rowNumbers := next.value.rowNumbers,
                                   colNumbers := next.value.colNumbers, status := Locked)
  {
    if prev.None? {
      return None;
    }
    var rows := Shuffle.ShuffleDigits();
    var cols := Shuffle.ShuffleDigits();
    assert Values(AsHeader(rows)) == rows;
    assert Values(AsHeader(cols)) == cols;
    next := Some(prev.value.(rowNumbers := AsHeader(rows), colNumbers := AsHeader(cols), status := Locked));
  }

  /** Once both headers hold the digits, every pair of last digits names a
      cell, so every score has a winning square. */
  lemma AssignedHeadersCoverEveryScore(rowNumbers: seq<Option<int>>, colNumbers: seq<Option<int>>, r: int, c: int)
    requires IsDigitHeader(rowNumbers) && IsDigitHeader(colNumbers)
    requires 0 <= r < 10 && 0 <= c < 10
    ensures SquaresGrid.CellOf(rowNumbers, colNumbers, r, c).Some?
  {
    Shuffle.DigitPermutationFacts(Values(rowNumbers));
    Shuffle.DigitPermutationFacts(Values(colNumbers));
    assert r in Values(rowNumbers) && c in Values(colNumbers);
    var i :| 0 <= i < |Values(rowNumbers)| && Values(rowNumbers)[i] == r;
    var j :| 0 <= j < |Values(colNumbers)| && Values(colNumbers)[j] == c;
    assert rowNumbers[i] == Some(r);
    assert colNumbers[j] == Some(c);
  }
}
