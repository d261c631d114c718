/** The decision rules of `components/admin-board.tsx`: the view link, the
    open-square count, whether numbers are set, what the assign button
    does, the "distribute & assign" sequence, when the distribute button
    shows, and the status badge. */
module AdminBoard {
  import opened Wrappers
  import Text
  import opened PoolStore
  import Schema
  import Squares
  import Pools
  import Shuffle
  import PlayerBoard
  import HomePage

  /** `shareUrl.replace(/\/play\//, "/view/")`. */
  function ViewUrl(shareUrl: string): string {
    Text.ReplaceFirst(shareUrl, "/play/", "/view/")
  }

  /** The view link has the share link's length; without "/play/" it is
      the share link itself, and otherwise it differs only in the first
      "/play/", which reads "/view/". */
  lemma ViewUrlShape(shareUrl: string)
    ensures |ViewUrl(shareUrl)| == |shareUrl|
    ensures !Text.Contains(shareUrl, "/play/") ==> ViewUrl(shareUrl) == shareUrl
    ensures Text.Contains(shareUrl, "/play/") ==>
      var k := Text.Find(shareUrl, "/play/");
      && Text.MatchesAt(ViewUrl(shareUrl), "/view/", k)
      && (forall i :: 0 <= i < |shareUrl| && !(k <= i < k + 6) ==> ViewUrl(shareUrl)[i] == shareUrl[i])
  {
    if Text.Contains(shareUrl, "/play/") {
      var k := Text.Find(shareUrl, "/play/");
      var v := ViewUrl(shareUrl);
      assert v == shareUrl[..k] + "/view/" + shareUrl[k + 6..];
      assert v[k..k + 6] == "/view/";
    }
  }

  /** `openCount` is the same derivation as the player board's. */
  function OpenCount(pool: ClientPool): int {
    PlayerBoard.OpenCount(pool)
  }

  /** `rowNumbers.some((n) => n !== null)`. */
  predicate NumbersAssigned(pool: ClientPool) {
    exists i :: 0 <= i < |pool.rowNumbers| && pool.rowNumbers[i].Some?
  }

  /** A new pool has no numbers; after the local assignment it has. */
  lemma NumbersAssignedLifecycle(id: string, squaresPerPerson: int, p: ClientPool)
    requires HomePage.IsDigitHeader(p.rowNumbers)
    ensures !NumbersAssigned(CreatePool(id, squaresPerPerson))
    ensures NumbersAssigned(p)
  {
    assert p.rowNumbers[0].Some?;
  }

  /** What an assign click leads to. */
  datatype AssignAction = ConfirmReassign | ConfirmOpenSquares | AssignNow

  /** `handleAssignClick`: numbers already set ask to re-assign; open
      squares ask to confirm; a full board with no numbers assigns at
      once. */
  function AssignClick(pool: ClientPool): (a: AssignAction) {
    if NumbersAssigned(pool) then ConfirmReassign
    else if OpenCount(pool) > 0 then ConfirmOpenSquares
    else AssignNow
  }

  /** On a 10×10 grid, the click assigns at once exactly when no numbers
      are set and every square is claimed; it asks to re-assign exactly
      when numbers are set. */
  lemma AssignClickCases(pool: ClientPool)
    requires IsGrid(pool.squares)
    ensures AssignClick(pool) == AssignNow <==>
      !NumbersAssigned(pool) && forall r, c :: 0 <= r < 10 && 0 <= c < 10 ==> pool.squares[r][c].claimedBy.Some?
    ensures AssignClick(pool) == ConfirmReassign <==> NumbersAssigned(pool)
    ensures AssignClick(pool) == ConfirmOpenSquares <==> !NumbersAssigned(pool) && !IsBoardFull(pool)
  {
    PlayerBoard.OpenCountZeroIffFull(pool);
  }

  /** The distribute button shows only while squares are open and at least
      one player has joined. */
  predicate ShowDistribute(pool: ClientPool) {
    OpenCount(pool) > 0 && |pool.players| > 0
  }

  /** On a 10×10 grid the distribute button shows exactly when the board
      is not full and the players record is not empty. */
  lemma ShowDistributeIff(pool: ClientPool)
    requires IsGrid(pool.squares)
    ensures ShowDistribute(pool) <==> !IsBoardFull(pool) && pool.players != map[]
  {
    PlayerBoard.OpenCountZeroIffFull(pool);
    if pool.players != map[] {
      var n :| n in pool.players;
    }
  }

  /** `StatusBadge`'s label. */
  function StatusBadge(status: ClientStatus, numbersAssigned: bool): (badge: string)
    ensures badge in {"Numbers Set", "Open", "Locked"}
  {
    if numbersAssigned then "Numbers Set"
    else if status == Open then "Open"
    else "Locked"
  }

  /** Numbers take precedence; otherwise only an open pool shows "Open",
      and "setup", "full" and "locked" all show "Locked". */
  lemma StatusBadgeCases(status: ClientStatus, numbersAssigned: bool)
    ensures StatusBadge(status, numbersAssigned) == "Numbers Set" <==> numbersAssigned
    ensures StatusBadge(status, numbersAssigned) == "Open" <==> !numbersAssigned && status == Open
    ensures StatusBadge(status, numbersAssigned) == "Locked" <==> !numbersAssigned && status != Open
  {
    assert "Numbers Set" != "Open" && "Numbers Set"[0] != "Locked"[0] && "Open"[0] != "Locked"[0];
  }

  /** `handleDistributeAndAssign`: `distributeSquares` runs to completion,
      then `assignNumbers` runs whatever the distribution answered. With no
      player the distribution is refused and every square stays as it was;
      with at least one, every square ends owned, earlier owners are kept
      and each participant gains its round-robin share of the squares that
      were free. Either way both headers become a permutation of 0..9 and
      the pool's other fields and its participants are untouched. */
  method DistributeAndAssign(pool: Schema.Pool)
    requires pool.Valid()
    modifies pool, pool.owners
    ensures pool.Valid()
    ensures |pool.participants| == 0 ==> pool.owners[..] == old(pool.owners[..])
    ensures |pool.participants| > 0 ==> forall i :: 0 <= i < Schema.BoardSize ==> pool.owners[i].Some?
    ensures forall i :: 0 <= i < Schema.BoardSize && old(pool.owners[i]).Some? ==> pool.owners[i] == old(pool.owners[i])
    ensures forall i :: 0 <= i < Schema.BoardSize && pool.owners[i].Some? ==> pool.owners[i].value in Schema.Ids(pool.participants)
    ensures forall k :: 0 <= k < |pool.participants| ==>
      Schema.CountOwned(pool.owners[..], pool.participants[k].id)
        == Schema.CountOwned(old(pool.owners[..]), pool.participants[k].id)
           + Squares.Share(Schema.BoardSize - Schema.CountClaimed(old(pool.owners[..])), |pool.participants|, k)
    ensures pool.rowNumbers.Some? && Shuffle.IsDigitPermutation(pool.rowNumbers.value)
    ensures pool.colNumbers.Some? && Shuffle.IsDigitPermutation(pool.colNumbers.value)
    ensures pool.participants == old(pool.participants)
    ensures unchanged(pool`slug, pool`title, pool`adminEmail, pool`status, pool`createdAt, pool`maxSquaresPerPerson)
  {
    ghost var before := pool.owners[..];
    Schema.CountClaimedFull(before);
    var d := Squares.DistributeSquares(pool);
    if !d.ok {
      assert pool.owners[..] == before;
      assert forall i :: 0 <= i < Schema.BoardSize ==> pool.owners[i] == before[i];
    }
    var a := Pools.AssignNumbers(pool);
  }
}
