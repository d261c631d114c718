/** The client-side pool of `lib/pool-store.ts` (types from
    `lib/types/pool.ts`): a 10×10 grid of squares, each optionally claimed
    by a player identity, the two number rows, and a per-name player
    record; with the counting helpers the boards use. */
module PoolStore {
  import opened Wrappers
  import Text
  import Js

  datatype PlayerIdentity = PlayerIdentity(name: string, initials: string, graphic: string)

  /** `claimedBy` null is `None`. */
  datatype Square = Square(row: int, col: int, claimedBy: Option<PlayerIdentity>)

  /** `PoolStatusClient`. */
  datatype ClientStatus = Setup | Open | Full | Locked

  datatype PlayerEntry = PlayerEntry(identity: PlayerIdentity, count: int)

  /** `Pool`; a null slot of `rowNumbers`/`colNumbers` is `None`, and the
      `players` record is a map from display name. */
  datatype ClientPool = ClientPool(id: string, squaresPerPerson: int, status: ClientStatus,
                                   squares: seq<seq<Square>>,
                                   rowNumbers: seq<Option<int>>, colNumbers: seq<Option<int>>,
                                   players: map<string, PlayerEntry>)

  /** Ten rows of ten squares. */
  predicate IsGrid(g: seq<seq<Square>>) {
    |g| == 10 && forall r :: 0 <= r < 10 ==> |g[r]| == 10
  }

  /** `Array(10).fill(null)`. */
  function NoNumbers(): (ns: seq<Option<int>>)
    ensures |ns| == 10 && forall i :: 0 <= i < 10 ==> ns[i] == None
  {
    seq(10, i => None)
  }

  /** `createEmptyGrid`: cell [r][c] sits at row r, column c, unclaimed. */
  function EmptyGrid(): (g: seq<seq<Square>>)
    ensures IsGrid(g)
    ensures forall r, c :: 0 <= r < 10 && 0 <= c < 10 ==> g[r][c] == Square(r, c, None)
  {
    seq(10, r => seq(10, c => Square(r, c, None)))
  }

  /** `squares.flat()`: the cells in row-major order. */
  function Flatten(g: seq<seq<Square>>): (cells: seq<Square>)
  {
    if g == [] then [] else g[0] + Flatten(g[1..])
  }

  /** On a 10×10 grid, the flattened list has 100 cells and cell [r][c]
      is at position 10r + c. */
  lemma {:induction false} FlattenGrid(g: seq<seq<Square>>)
    requires forall r :: 0 <= r < |g| ==> |g[r]| == 10
    ensures |Flatten(g)| == 10 * |g|
    ensures forall r, c :: 0 <= r < |g| && 0 <= c < 10 ==> Flatten(g)[10 * r + c] == g[r][c]
  {
    if g != [] {
      FlattenGrid(g[1..]);
      forall r, c | 0 <= r < |g| && 0 <= c < 10 ensures Flatten(g)[10 * r + c] == g[r][c] {
        if r > 0 {
          assert Flatten(g)[10 * r + c] == Flatten(g[1..])[10 * (r - 1) + c];
        }
      }
    }
  }

  /** The number of claimed cells in a list. */
  function CountClaimed(cells: seq<Square>): (n: nat)
    ensures n <= |cells|
    ensures n == |cells| <==> forall k :: 0 <= k < |cells| ==> cells[k].claimedBy.Some?
    ensures n == 0 <==> forall k :: 0 <= k < |cells| ==> cells[k].claimedBy.None?
  {
    if cells == [] then 0
    else
      assert forall k :: 1 <= k < |cells| ==> cells[k] == cells[1..][k - 1];
      (if cells[0].claimedBy.Some? then 1 else 0) + CountClaimed(cells[1..])
  }

  /** Does the cell hold a claim by a player called `name`? (`claimedBy?.name === name`) */
  predicate ClaimedByName(s: Square, name: string) {
    s.claimedBy.Some? && s.claimedBy.value.name == name
  }

  /** The number of cells in a list claimed by a player called `name`. */
  function CountNamed(cells: seq<Square>, name: string): (n: nat)
    ensures n <= CountClaimed(cells)
    ensures n == 0 <==> forall k :: 0 <= k < |cells| ==> !ClaimedByName(cells[k], name)
  {
    if cells == [] then 0
    else
      assert forall k :: 1 <= k < |cells| ==> cells[k] == cells[1..][k - 1];
      (if ClaimedByName(cells[0], name) then 1 else 0) + CountNamed(cells[1..], name)
  }

  /** `createPool`: open, empty grid, no numbers, no players. */
  function CreatePool(id: string, squaresPerPerson: int): (p: ClientPool)
    ensures p.id == id && p.squaresPerPerson == squaresPerPerson && p.status == Open
    ensures IsGrid(p.squares) && ClaimedCount(p) == 0 && !IsBoardFull(p)
    ensures p.rowNumbers == NoNumbers() && p.colNumbers == NoNumbers() && p.players == map[]
  {
    var p := ClientPool(id, squaresPerPerson, Open, EmptyGrid(), NoNumbers(), NoNumbers(), map[]);
    FlattenGrid(p.squares);
    forall k | 0 <= k < |Flatten(p.squares)| ensures Flatten(p.squares)[k].claimedBy.None? {
      assert Flatten(p.squares)[10 * (k / 10) + k % 10] == p.squares[k / 10][k % 10];
    }
    p
  }

  /** `getClaimedCount`. */
  function ClaimedCount(pool: ClientPool): (n: nat)
    ensures n <= |Flatten(pool.squares)|
    ensures IsGrid(pool.squares) ==> n <= 100
  {
    if IsGrid(pool.squares) then FlattenGrid(pool.squares); CountClaimed(Flatten(pool.squares))
    else CountClaimed(Flatten(pool.squares))
  }

  /** `getPlayerSquareCount`. */
  function PlayerSquareCount(pool: ClientPool, playerName: string): (n: nat)
    ensures n <= ClaimedCount(pool)
  {
    CountNamed(Flatten(pool.squares), playerName)
  }

  /** `isBoardFull`. */
  predicate IsBoardFull(pool: ClientPool) {
    ClaimedCount(pool) >= 100
  }

  /** On a 10×10 grid the board is full exactly when every square is claimed. */
  lemma FullIffAllClaimed(pool: ClientPool)
    requires IsGrid(pool.squares)
    ensures IsBoardFull(pool) <==> forall r, c :: 0 <= r < 10 && 0 <= c < 10 ==> pool.squares[r][c].claimedBy.Some?
  {
    var cells := Flatten(pool.squares);
    FlattenGrid(pool.squares);
    if forall r, c :: 0 <= r < 10 && 0 <= c < 10 ==> pool.squares[r][c].claimedBy.Some? {
      forall k | 0 <= k < 100 ensures cells[k].claimedBy.Some? {
        assert cells[10 * (k / 10) + k % 10] == pool.squares[k / 10][k % 10];
      }
    }
  }

  /** Every entry of the `players` record counts exactly the squares its
      name holds on the grid. */
  ghost predicate CountsAgree(pool: ClientPool) {
    forall name :: name in pool.players ==> pool.players[name].count == PlayerSquareCount(pool, name)
  }

  /** The sum of the per-name counts over a list of names. */
  function SumCounts(names: seq<string>, cells: seq<Square>): nat
  {
    if names == [] then 0 else CountNamed(cells, names[0]) + SumCounts(names[1..], cells)
  }

  /** How many of `names` the cell's claimant is called (0 when unclaimed). */
  function Hits(names: seq<string>, s: Square): nat
  {
    if names == [] then 0 else (if ClaimedByName(s, names[0]) then 1 else 0) + Hits(names[1..], s)
  }

  lemma {:induction false} SumCountsCons(names: seq<string>, s: Square, cells: seq<Square>)
    ensures SumCounts(names, [s] + cells) == Hits(names, s) + SumCounts(names, cells)
  {
    if names != [] {
      assert ([s] + cells)[1..] == cells;
      SumCountsCons(names[1..], s, cells);
    }
  }

  lemma {:induction false} HitsDistinct(names: seq<string>, s: Square)
    requires forall i, j :: 0 <= i < j < |names| ==> names[i] != names[j]
    ensures s.claimedBy.Some? && s.claimedBy.value.name in names ==> Hits(names, s) == 1
    ensures s.claimedBy.None? || s.claimedBy.value.name !in names ==> Hits(names, s) == 0
  {
    if names != [] {
      assert forall i, j :: 0 <= i < j < |names[1..]| ==> names[1..][i] != names[1..][j];
      HitsDistinct(names[1..], s);
      if s.claimedBy.Some? && s.claimedBy.value.name == names[0] {
        assert names[0] !in names[1..];
      }
    }
  }

  /** Summed over distinct names that include every claimant, the players'
      square counts add up to the claimed count. */
  lemma {:induction false} CountsAddUp(names: seq<string>, cells: seq<Square>)
    requires forall i, j :: 0 <= i < j < |names| ==> names[i] != names[j]
    requires forall k :: 0 <= k < |cells| && cells[k].claimedBy.Some? ==> cells[k].claimedBy.value.name in names
    ensures SumCounts(names, cells) == CountClaimed(cells)
  {
    if cells == [] {
      SumCountsEmpty(names);
    } else {
      assert cells == [cells[0]] + cells[1..];
      SumCountsCons(names, cells[0], cells[1..]);
      HitsDistinct(names, cells[0]);
      CountsAddUp(names, cells[1..]);
    }
  }

  lemma {:induction false} SumCountsEmpty(names: seq<string>)
    ensures SumCounts(names, []) == 0
  {
    if names != [] {
      SumCountsEmpty(names[1..]);
    }
  }

  /** `getPlayerSquareCount` summed over distinct names covering every
      claimant is `getClaimedCount`. */
  lemma PlayerCountsAddUp(pool: ClientPool, names: seq<string>)
    requires forall i, j :: 0 <= i < j < |names| ==> names[i] != names[j]
    requires forall k :: 0 <= k < |Flatten(pool.squares)| && Flatten(pool.squares)[k].claimedBy.Some? ==>
               Flatten(pool.squares)[k].claimedBy.value.name in names
    ensures SumCounts(names, Flatten(pool.squares)) == ClaimedCount(pool)
  {
    CountsAddUp(names, Flatten(pool.squares));
  }

  /** `PLAYER_COLORS`. */
  const PlayerColors: seq<string> := [
    "oklch(0.65 0.18 30)", "oklch(0.60 0.16 60)", "oklch(0.55 0.18 140)", "oklch(0.55 0.16 200)",
    "oklch(0.55 0.18 260)", "oklch(0.60 0.14 320)", "oklch(0.65 0.14 80)", "oklch(0.50 0.16 180)",
    "oklch(0.60 0.12 350)", "oklch(0.55 0.14 110)"]

  /** `getPlayerColor`: the colour at the player's position modulo 10; for a
      name not in the list, `indexOf` gives -1 and `-1 % 10` is -1, so the
      lookup is `undefined`, here `None`. */
  function PlayerColor(playerName: string, allPlayers: seq<string>): (c: Option<string>)
    ensures c.Some? <==> playerName in allPlayers
  {
    var index := Js.IndexOf(allPlayers, playerName);
    var slot := Js.Rem(index, |PlayerColors|);
    if 0 <= slot < |PlayerColors| then Some(PlayerColors[slot]) else None
  }

  /** In a list without repeated names, the k-th player gets colour k mod
      10: colours repeat every ten players. */
  lemma PlayerColorCycles(allPlayers: seq<string>, k: nat)
    requires k < |allPlayers|
    requires forall i, j :: 0 <= i < j < |allPlayers| ==> allPlayers[i] != allPlayers[j]
    ensures PlayerColor(allPlayers[k], allPlayers) == Some(PlayerColors[k % 10])
  {
    Js.IndexOfDistinct(allPlayers, k);
  }

  /** `getInitials` (also `lib/convex-to-pool.ts`): with two or more words,
      the first letters of the first and the last word; otherwise the
      first two characters; upper-cased (ASCII letters only). */
  function GetInitials(name: string): (r: string)
    ensures |r| <= 2
    ensures forall i :: 0 <= i < |r| ==> !Text.IsLowerAscii(r[i])
  {
    InitialsOfTrimmed(Text.Trim(name))
  }

  /** `getInitials` once the name is trimmed. */
  function InitialsOfTrimmed(t: string): (r: string)
    requires Text.IsTrimmed(t)
    ensures |r| <= 2
    ensures forall i :: 0 <= i < |r| ==> !Text.IsLowerAscii(r[i])
  {
    var parts := Text.Split(t);
    if |parts| >= 2 then Text.SplitTrimmed(t); InitialsOfParts(t, parts) else InitialsOfParts(t, parts)
  }

  /** `getInitials` given the trimmed name and its split into words. */
  function InitialsOfParts(t: string, parts: seq<string>): (r: string)
    requires |parts| >= 2 ==> parts[0] != [] && parts[|parts| - 1] != []
    ensures |r| <= 2
    ensures forall i :: 0 <= i < |r| ==> !Text.IsLowerAscii(r[i])
  {
    if |parts| >= 2 then Text.Upper([parts[0][0], parts[|parts| - 1][0]])
    else Text.Upper(t[..if |t| < 2 then |t| else 2])
  }

  lemma PartsPair(t: string, parts: seq<string>)
    requires |parts| >= 2 && parts[0] != [] && parts[|parts| - 1] != []
    ensures InitialsOfParts(t, parts) == [Text.UpperChar(parts[0][0]), Text.UpperChar(parts[|parts| - 1][0])]
  {
    Text.UpperPair(parts[0][0], parts[|parts| - 1][0]);
  }

  /** A trimmed name holding white space (two or more words) gives the
      first letter of the name and the first letter of its last word. */
  lemma InitialsOfWords(t: string)
    requires Text.IsTrimmed(t) && Text.HasSpace(t)
    ensures |Text.Split(t)| >= 2 && LastWord(t) != []
    ensures InitialsOfTrimmed(t) == [Text.UpperChar(t[0]), Text.UpperChar(LastWord(t)[0])]
  {
    var parts := Text.Split(t);
    Text.SplitTrimmed(t);
    Text.SplitFirst(t);
    assert InitialsOfTrimmed(t) == InitialsOfParts(t, parts);
    PartsPair(t, parts);
    assert parts[0][0] == t[0];
  }

  /** A trimmed name without white space (one word, or blank) gives its
      first two characters, upper-cased. */
  lemma InitialsOfOneWord(t: string)
    requires Text.IsTrimmed(t) && !Text.HasSpace(t)
    ensures InitialsOfTrimmed(t) == Text.Upper(t[..if |t| < 2 then |t| else 2])
  {
    var parts := Text.Split(t);
    Text.SplitFirst(t);
    assert parts == [t];
    assert InitialsOfTrimmed(t) == InitialsOfParts(t, parts);
  }

  /** The last word of `s.split(/\s+/)`. */
  function LastWord(s: string): string {
    var parts := Text.Split(s);
    parts[|parts| - 1]
  }

  /** A name of two or more words gives two letters: the first letter of
      the trimmed name and the first letter of its last word; a name of one
      word gives its first two characters (one for a one-letter name, none
      for a blank one). */
  lemma GetInitialsCases(name: string)
    ensures Text.HasSpace(Text.Trim(name)) ==>
      LastWord(Text.Trim(name)) != []
      && GetInitials(name) == [Text.UpperChar(Text.Trim(name)[0]), Text.UpperChar(LastWord(Text.Trim(name))[0])]
    ensures !Text.HasSpace(Text.Trim(name)) ==>
      GetInitials(name) == Text.Upper(Text.Trim(name)[..if |Text.Trim(name)| < 2 then |Text.Trim(name)| else 2])
  {
    var t := Text.Trim(name);
    assert GetInitials(name) == InitialsOfTrimmed(t);
    if Text.HasSpace(t) {
      InitialsOfWords(t);
    } else {
      InitialsOfOneWord(t);
    }
  }
}
