/** The decision rules of `components/player-board.tsx`: joining under a
    trimmed name, the remaining quota, when picking is allowed, which
    clicks reach the claim reducer, and the open-square count. */
module PlayerBoard {
  import opened Wrappers
  import Text
  import opened PoolStore
  import HomePage

  /** The board's local state: `isJoined` and `identity`. */
  datatype JoinState = JoinState(isJoined: bool, identity: Option<PlayerIdentity>)

  /** `handleJoin`: a name that is blank once trimmed leaves the state as it
      was; otherwise the player joins under the trimmed name, its initials
      and the selected graphic. */
  function HandleJoin(st: JoinState, playerName: string, selectedGraphic: string): (next: JoinState)
    ensures Text.AllSpace(playerName) ==> next == st
    ensures !Text.AllSpace(playerName) ==>
      && next.isJoined && next.identity.Some?
      && next.identity.value.name == Text.Trim(playerName)
      && next.identity.value.name != []
      && Text.IsTrimmed(next.identity.value.name)
      && next.identity.value.graphic == selectedGraphic
  {
    var trimmed := Text.Trim(playerName);
    if |trimmed| > 0 then JoinState(true, Some(PlayerIdentity(trimmed, GetInitials(trimmed), selectedGraphic)))
    else st
  }

  /** The initials stored at join time are those of the name as typed:
      trimming first does not change them. */
  lemma JoinInitials(st: JoinState, playerName: string, selectedGraphic: string)
    requires !Text.AllSpace(playerName)
    ensures HandleJoin(st, playerName, selectedGraphic).identity.value.initials == GetInitials(playerName)
  {
    var t := Text.Trim(playerName);
    assert Text.Trim(t) == t;
  }

  /** Joining again with the same name and graphic changes nothing. */
  lemma JoinIdempotent(st: JoinState, playerName: string, selectedGraphic: string)
    ensures var once := HandleJoin(st, playerName, selectedGraphic);
      HandleJoin(once, playerName, selectedGraphic) == once
  {
  }

  /** `currentCount`: the player's squares, 0 before joining. */
  function CurrentCount(pool: ClientPool, identity: Option<PlayerIdentity>): nat
  {
    if identity.Some? then PlayerSquareCount(pool, identity.value.name) else 0
  }

  /** `remaining`. */
  function Remaining(pool: ClientPool, identity: Option<PlayerIdentity>): int
  {
    pool.squaresPerPerson - CurrentCount(pool, identity)
  }

  /** `canPick`: quota left and the board not full. */
  predicate CanPick(pool: ClientPool, identity: Option<PlayerIdentity>) {
    Remaining(pool, identity) > 0 && !IsBoardFull(pool)
  }

  /** The grid's `onSquareClick`: the click reaches `onClaimSquare`, with
      the player's identity, only when picking is allowed and the player
      has joined. */
  function ForwardClick(pool: ClientPool, identity: Option<PlayerIdentity>, row: int, col: int)
    : (call: Option<(PlayerIdentity, int, int)>)
    ensures call.Some? <==> identity.Some? && CanPick(pool, identity)
    ensures call.Some? ==> call.value == (identity.value, row, col)
  {
    if CanPick(pool, identity) && identity.Some? then Some((identity.value, row, col)) else None
  }

  /** The "open" figure: 100 minus the claimed squares. */
  function OpenCount(pool: ClientPool): (n: int)
    ensures IsGrid(pool.squares) ==> 0 <= n <= 100
  {
    100 - ClaimedCount(pool)
  }

  /** No square is open exactly when the board is full. */
  lemma OpenCountZeroIffFull(pool: ClientPool)
    requires IsGrid(pool.squares)
    ensures OpenCount(pool) == 0 <==> IsBoardFull(pool)
    ensures OpenCount(pool) == 0 <==> forall r, c :: 0 <= r < 10 && 0 <= c < 10 ==> pool.squares[r][c].claimedBy.Some?
  {
    FullIffAllClaimed(pool);
  }

  /** A click that the board forwards, on an open square of a well-placed
      grid, is a claim the reducer accepts: the square becomes the
      player's and the player stays within the quota. */
  lemma ForwardedClaimLands(pool: ClientPool, identity: Option<PlayerIdentity>, row: int, col: int)
    requires HomePage.WellPlaced(pool.squares) && 0 <= row < 10 && 0 <= col < 10
    requires pool.squares[row][col].claimedBy.None?
    requires ForwardClick(pool, identity, row, col).Some?
    ensures var next := HomePage.ClaimSquare(pool, identity.value, row, col);
      && next.squares[row][col].claimedBy == Some(identity.value)
      && PlayerSquareCount(next, identity.value.name) <= pool.squaresPerPerson
      && Remaining(next, identity) == Remaining(pool, identity) - 1
  {
    HomePage.ClaimEffect(pool, identity.value, row, col);
    HomePage.ClaimCounts(pool, identity.value, row, col);
  }
}
