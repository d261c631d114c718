/** The fixed pools the landing-page demo shows (`components/demo/demo-data.ts`):
    ten players holding ten squares each, dealt onto the grid by a seeded
    shuffle; a partly claimed and an empty grid; fixed header numbers and
    four quarter scores; and the lookup of a quarter's winner. */
module DemoData {
  import opened Wrappers
  import Js
  import Shuffle
  import opened PoolStore
  import SquaresGrid

  /** `DEMO_PLAYERS`. */
  const DemoPlayers: seq<PlayerIdentity> := [
    PlayerIdentity("Mike M.", "MM", "\U{1F3C8}"),
    PlayerIdentity("Sarah K.", "SK", "\U{1F985}"),
    PlayerIdentity("Dad", "DA", "\U{1F3C6}"),
    PlayerIdentity("Uncle Joe", "UJ", "\U{2B50}"),
    PlayerIdentity("Emily R.", "ER", "\U{1F525}"),
    PlayerIdentity("Tyler B.", "TB", "\U{1F48E}"),
    PlayerIdentity("Grandma", "GR", "\U{1F340}"),
    PlayerIdentity("Chris P.", "CP", "\U{26A1}"),
    PlayerIdentity("Jen W.", "JW", "\U{1F31F}"),
    PlayerIdentity("Rob T.", "RT", "\U{1F451}")
  ]

  /** No two demo players share a name. */
  lemma DemoNamesDistinct()
    ensures |DemoPlayers| == 10
    ensures DistinctNames(DemoPlayers)
  {
    var firsts := "MSDUETGCJR";
    assert forall i :: 0 <= i < 10 ==> DemoPlayers[i].name[0] == firsts[i];
  }

  // ---------------------------------------------------------------------------
  // The seeded shuffle

  /** One step of the generator: `s * 16807 mod 2147483647`. */
  function NextSeed(s: nat): nat {
    (s * 16807 + 0) % 2147483647
  }

  /** The swaps of `seededShuffle` for positions `i` down to 1, from the
      generator state `s`. The destructuring swap reads both cells before
      writing either, and leaves the sequence alone when `j == i`. */
  function ShuffleFrom<T>(out: seq<T>, s: nat, i: int): seq<T>
    requires -1 <= i < |out|
    decreases i
  {
    if i <= 0 then out
    else
      var s2 := NextSeed(s);
      var j := s2 % (i + 1);
      ShuffleFrom(out[i := out[j]][j := out[i]], s2, i - 1)
  }

  /** What `seededShuffle(arr, seed)` returns. */
  function Shuffled<T>(arr: seq<T>, seed: nat): seq<T> {
    ShuffleFrom(arr, seed, |arr| - 1)
  }

  /** A swap keeps the elements. */
  lemma SwapPermutes<T>(out: seq<T>, i: nat, j: nat)
    requires i < |out| && j < |out|
    ensures multiset(out[i := out[j]][j := out[i]]) == multiset(out)
  {
  }

  /** Each swap keeps the elements, so the shuffle returns a permutation of
      its input. */
  lemma {:induction false} ShuffleFromPermutes<T>(out: seq<T>, s: nat, i: int)
    requires -1 <= i < |out|
    ensures |ShuffleFrom(out, s, i)| == |out|
    ensures multiset(ShuffleFrom(out, s, i)) == multiset(out)
    decreases i
  {
    if i > 0 {
      var s2 := NextSeed(s);
      var j := s2 % (i + 1);
      SwapPermutes(out, i, j);
      ShuffleFromPermutes(out[i := out[j]][j := out[i]], s2, i - 1);
    }
  }

  lemma ShuffledPermutes<T>(arr: seq<T>, seed: nat)
    ensures |Shuffled(arr, seed)| == |arr| && multiset(Shuffled(arr, seed)) == multiset(arr)
  {
    ShuffleFromPermutes(arr, seed, |arr| - 1);
  }

  /** `seededShuffle`: copy the input, then swap from the last position
      down; the same input and seed always give the same result, and it is
      a permutation of the input. A negative seed is not modelled (its
      swap index would be negative). */
  method SeededShuffle<T>(arr: seq<T>, seed: nat) returns (r: seq<T>)
    ensures r == Shuffled(arr, seed)
    ensures |r| == |arr| && multiset(r) == multiset(arr)
  {
    var out := new T[|arr|](k requires 0 <= k < |arr| => arr[k]);
    var s: nat := seed;
    var i := out.Length - 1;
    assert out[..] == arr;
    while i > 0
      invariant -1 <= i < out.Length
      invariant ShuffleFrom(out[..], s, i) == Shuffled(arr, seed)
    {
      s := (s * 16807 + 0) % 2147483647;
      var j := s % (i + 1);
      out[i], out[j] := out[j], out[i];
      i := i - 1;
    }
    r := out[..];
    ShuffledPermutes(arr, seed);
  }

  // ---------------------------------------------------------------------------
  // The fully claimed grid

  /** `Array(n).fill(x)`. */
  function Repeat<T>(x: T, n: nat): (r: seq<T>)
    ensures |r| == n
  {
    if n == 0 then [] else [x] + Repeat(x, n - 1)
  }

  lemma {:induction false} RepeatCount<T>(x: T, n: nat)
    ensures forall y :: multiset(Repeat(x, n))[y] == if y == x then n else 0
  {
    if n > 0 {
      RepeatCount(x, n - 1);
    }
  }

  /** `players.flatMap((p) => Array(10).fill(p))`. */
  function TenOfEach(ps: seq<PlayerIdentity>): (r: seq<PlayerIdentity>)
    ensures |r| == 10 * |ps|
  {
    if ps == [] then [] else Repeat(ps[0], 10) + TenOfEach(ps[1..])
  }

  /** Each player occurs ten times as often as in the list. */
  lemma {:induction false} TenOfEachCounts(ps: seq<PlayerIdentity>)
    ensures forall p :: multiset(TenOfEach(ps))[p] == 10 * multiset(ps)[p]
  {
    if ps != [] {
      TenOfEachCounts(ps[1..]);
      RepeatCount(ps[0], 10);
      assert ps == [ps[0]] + ps[1..];
    }
  }

  /** No two players in the list share a name. */
  predicate DistinctNames(ps: seq<PlayerIdentity>) {
    forall i, j :: 0 <= i < j < |ps| ==> ps[i].name != ps[j].name
  }

  /** Shuffling ten copies of each of a list of differently named players
      gives a deck holding each of them exactly ten times and nobody else. */
  lemma DealCounts(ps: seq<PlayerIdentity>, seed: nat)
    requires DistinctNames(ps)
    ensures |Shuffled(TenOfEach(ps), seed)| == 10 * |ps|
    ensures forall p :: multiset(Shuffled(TenOfEach(ps), seed))[p] == if p in ps then 10 else 0
  {
    ShuffledPermutes(TenOfEach(ps), seed);
    TenOfEachCounts(ps);
    Shuffle.DistinctMultiplicityOne(ps);
  }

  /** The shuffled deck of the demo. */
  function DemoAssignments(): (a: seq<PlayerIdentity>)
    ensures |a| == 100
  {
    ShuffledPermutes(TenOfEach(DemoPlayers), 42);
    Shuffled(TenOfEach(DemoPlayers), 42)
  }

  /** Every demo player occurs exactly ten times in the demo deck. */
  lemma DemoAssignmentCounts()
    ensures forall p :: multiset(DemoAssignments())[p] == if p in DemoPlayers then 10 else 0
  {
    DemoNamesDistinct();
    DealCounts(DemoPlayers, 42);
  }

  /** Row `r` of the grid dealt from `assignments`: cell c is claimed by
      `assignments[10r + c]`. */
  function ClaimedRow(assignments: seq<PlayerIdentity>, r: nat): (cells: seq<Square>)
    requires |assignments| == 100 && r < 10
    ensures |cells| == 10
  {
    seq(10, c requires 0 <= c < 10 => Square(r, c, Some(assignments[10 * r + c])))
  }

  /** The grid whose cell [r][c] is claimed by `assignments[10r + c]`. */
  function ClaimedGrid(assignments: seq<PlayerIdentity>): (g: seq<seq<Square>>)
    requires |assignments| == 100
    ensures IsGrid(g)
  {
    seq(10, r requires 0 <= r < 10 => ClaimedRow(assignments, r))
  }

  /** Appending the next element to a prefix gives the next prefix. */
  lemma SnocPrefix<T>(s: seq<T>, k: nat)
    requires k < |s|
    ensures s[..k] + [s[k]] == s[..k + 1]
  {
  }

  /** `buildClaimedGrid`: shuffle the deck with seed 42 and deal it onto
      the cells in row-major order. */
  method BuildClaimedGrid() returns (g: seq<seq<Square>>)
    ensures g == ClaimedGrid(DemoAssignments())
  {
    var assignments := SeededShuffle(TenOfEach(DemoPlayers), 42);
    g := DealRowMajor(assignments);
  }

  /** The two nested `Array.from` calls of `buildClaimedGrid`, the counter
      `idx` advancing once per cell. */
  method DealRowMajor(assignments: seq<PlayerIdentity>) returns (g: seq<seq<Square>>)
    requires |assignments| == 100
    ensures g == ClaimedGrid(assignments)
  {
    var idx := 0;
    g := [];
    var row := 0;
    while row < 10
      invariant 0 <= row <= 10 && idx == 10 * row
      invariant g == ClaimedGrid(assignments)[..row]
    {
      var cells := [];
      var col := 0;
      while col < 10
        invariant 0 <= col <= 10 && idx == 10 * row + col
        invariant cells == ClaimedRow(assignments, row)[..col]
      {
        SnocPrefix(ClaimedRow(assignments, row), col);
        cells := cells + [Square(row, col, Some(assignments[idx]))];
        idx := idx + 1;
        col := col + 1;
      }
      assert ClaimedRow(assignments, row)[..10] == ClaimedRow(assignments, row);
      SnocPrefix(ClaimedGrid(assignments), row);
      g := g + [cells];
      row := row + 1;
    }
    assert ClaimedGrid(assignments)[..10] == ClaimedGrid(assignments);
  }

  /** Counting a name over cells claimed one-to-one by a list of
      differently named players counts that player's occurrences. */
  lemma {:induction false} CountNamedDistinct(cells: seq<Square>, a: seq<PlayerIdentity>,
                                              ps: seq<PlayerIdentity>, p: PlayerIdentity)
    requires |cells| == |a| && p in ps && DistinctNames(ps)
    requires forall k :: 0 <= k < |a| ==> cells[k].claimedBy == Some(a[k]) && a[k] in ps
    ensures CountNamed(cells, p.name) == multiset(a)[p]
  {
    if a != [] {
      CountNamedDistinct(cells[1..], a[1..], ps, p);
      assert a == [a[0]] + a[1..];
      assert ClaimedByName(cells[0], p.name) <==> a[0] == p;
    }
  }

  /** Dealt from a deck holding each of `ps` ten times, the grid is full,
      each cell claimed by one of `ps`, and each of them holds ten cells. */
  lemma ClaimedGridCounts(ps: seq<PlayerIdentity>, a: seq<PlayerIdentity>)
    requires |a| == 100 && DistinctNames(ps)
    requires forall p :: multiset(a)[p] == if p in ps then 10 else 0
    ensures var g := ClaimedGrid(a);
      && (forall r, c :: 0 <= r < 10 && 0 <= c < 10 ==>
            g[r][c].row == r && g[r][c].col == c && g[r][c].claimedBy.Some? && g[r][c].claimedBy.value in ps)
      && CountClaimed(Flatten(g)) == 100
      && forall k :: 0 <= k < |ps| ==> CountNamed(Flatten(g), ps[k].name) == 10
  {
    var g := ClaimedGrid(a);
    var cells := Flatten(g);
    FlattenGrid(g);
    forall k | 0 <= k < 100 ensures cells[k].claimedBy == Some(a[k]) && a[k] in ps {
      assert cells[10 * (k / 10) + k % 10] == g[k / 10][k % 10];
      assert a[k] in multiset(a);
    }
    forall k | 0 <= k < |ps| ensures CountNamed(cells, ps[k].name) == 10 {
      CountNamedDistinct(cells, a, ps, ps[k]);
    }
  }

  /** The demo grid is full, and each demo player holds exactly ten of its
      cells. */
  lemma ClaimedGridFacts()
    ensures var g := ClaimedGrid(DemoAssignments());
      && (forall r, c :: 0 <= r < 10 && 0 <= c < 10 ==>
            g[r][c].row == r && g[r][c].col == c && g[r][c].claimedBy.Some? && g[r][c].claimedBy.value in DemoPlayers)
      && CountClaimed(Flatten(g)) == 100
      && forall k :: 0 <= k < |DemoPlayers| ==> CountNamed(Flatten(g), DemoPlayers[k].name) == 10
  {
    DemoNamesDistinct();
    DemoAssignmentCounts();
    ClaimedGridCounts(DemoPlayers, DemoAssignments());
  }

  // ---------------------------------------------------------------------------
  // The partly claimed grid

  /** Row `r` of `full` with the claims kept only on cells whose
      row-major position is below `claimedCount`. */
  function PartialRow(full: seq<seq<Square>>, claimedCount: int, r: nat): (cells: seq<Square>)
    requires IsGrid(full) && r < 10
    ensures |cells| == 10
  {
    seq(10, c requires 0 <= c < 10 =>
      if 10 * r + c < claimedCount then full[r][c] else full[r][c].(claimedBy := None))
  }

  /** The first `claimedCount` cells of `full`, in row-major order, keep
      their claim; the others are cleared. */
  function PartialGrid(full: seq<seq<Square>>, claimedCount: int): (g: seq<seq<Square>>)
    requires IsGrid(full)
    ensures IsGrid(g)
  {
    seq(10, r requires 0 <= r < 10 => PartialRow(full, claimedCount, r))
  }

  /** `buildPartialGrid`: the claimed grid with all but its first
      `claimedCount` cells cleared. */
  method BuildPartialGrid(claimedCount: int) returns (g: seq<seq<Square>>)
    ensures g == PartialGrid(ClaimedGrid(DemoAssignments()), claimedCount)
  {
    var full := BuildClaimedGrid();
    g := KeepFirst(full, claimedCount);
  }

  /** The `map` of `buildPartialGrid`: a countdown `remaining` lets the
      first cells through unchanged and clears the rest. */
  method KeepFirst(full: seq<seq<Square>>, claimedCount: int) returns (g: seq<seq<Square>>)
    requires IsGrid(full)
    ensures g == PartialGrid(full, claimedCount)
  {
    var remaining := claimedCount;
    g := [];
    var row := 0;
    while row < 10
      invariant 0 <= row <= 10
      invariant g == PartialGrid(full, claimedCount)[..row]
      invariant remaining > 0 <==> claimedCount > 10 * row
      invariant remaining > 0 ==> remaining == claimedCount - 10 * row
    {
      var cells := [];
      var col := 0;
      while col < 10
        invariant 0 <= col <= 10
        invariant cells == PartialRow(full, claimedCount, row)[..col]
        invariant remaining > 0 <==> claimedCount > 10 * row + col
        invariant remaining > 0 ==> remaining == claimedCount - (10 * row + col)
      {
        SnocPrefix(PartialRow(full, claimedCount, row), col);
        var sq := full[row][col];
        if remaining > 0 {
          remaining := remaining - 1;
          cells := cells + [sq];
        } else {
          cells := cells + [sq.(claimedBy := None)];
        }
        col := col + 1;
      }
      assert PartialRow(full, claimedCount, row)[..10] == PartialRow(full, claimedCount, row);
      SnocPrefix(PartialGrid(full, claimedCount), row);
      g := g + [cells];
      row := row + 1;
    }
    assert PartialGrid(full, claimedCount)[..10] == PartialGrid(full, claimedCount);
  }

  /** Over cells claimed exactly below position `m`, the claimed count is
      `m` clamped to 0 .. the number of cells. */
  lemma {:induction false} PrefixClaimedCount(cells: seq<Square>, m: int)
    requires forall k :: 0 <= k < |cells| ==> (cells[k].claimedBy.Some? <==> k < m)
    ensures CountClaimed(cells) == if m <= 0 then 0 else if m >= |cells| then |cells| else m
  {
    if cells != [] {
      assert forall k :: 0 <= k < |cells| - 1 ==> cells[1..][k] == cells[k + 1];
      PrefixClaimedCount(cells[1..], m - 1);
    }
  }

  /** Cut down from a fully claimed grid, cell [r][c] keeps its claim
      exactly when 10r + c is below the count, and the grid holds
      min(max(count, 0), 100) claims. */
  lemma PartialGridCounts(full: seq<seq<Square>>, claimedCount: int)
    requires IsGrid(full)
    requires forall r, c :: 0 <= r < 10 && 0 <= c < 10 ==> full[r][c].claimedBy.Some?
    ensures var g := PartialGrid(full, claimedCount);
      && (forall r, c :: 0 <= r < 10 && 0 <= c < 10 ==>
            && g[r][c].row == full[r][c].row && g[r][c].col == full[r][c].col
            && (g[r][c].claimedBy.Some? <==> 10 * r + c < claimedCount)
            && (10 * r + c < claimedCount ==> g[r][c] == full[r][c]))
      && CountClaimed(Flatten(g)) == if claimedCount <= 0 then 0 else if claimedCount >= 100 then 100 else claimedCount
  {
    var g := PartialGrid(full, claimedCount);
    FlattenGrid(g);
    var cells := Flatten(g);
    forall k | 0 <= k < 100 ensures cells[k].claimedBy.Some? <==> k < claimedCount {
      assert cells[10 * (k / 10) + k % 10] == g[k / 10][k % 10];
    }
    PrefixClaimedCount(cells, claimedCount);
  }

  /** The demo's partial grid: the first cells in row-major order keep
      their demo claim, and min(max(count, 0), 100) cells are claimed. */
  lemma PartialGridFacts(claimedCount: int)
    ensures var g := PartialGrid(ClaimedGrid(DemoAssignments()), claimedCount);
      && (forall r, c :: 0 <= r < 10 && 0 <= c < 10 ==>
            && g[r][c].row == r && g[r][c].col == c
            && (g[r][c].claimedBy.Some? <==> 10 * r + c < claimedCount))
      && CountClaimed(Flatten(g)) == if claimedCount <= 0 then 0 else if claimedCount >= 100 then 100 else claimedCount
  {
    ClaimedGridFacts();
    PartialGridCounts(ClaimedGrid(DemoAssignments()), claimedCount);
  }

  // ---------------------------------------------------------------------------
  // The players record and the demo pools

  /** The record after assigning the first `n` of a list of differently
      named players, ten squares each: each name maps to its own player. */
  function RecordOf(ps: seq<PlayerIdentity>, n: nat): map<string, PlayerEntry>
    requires n <= |ps| && DistinctNames(ps)
  {
    map k | 0 <= k < n :: ps[k].name := PlayerEntry(ps[k], 10)
  }

  /** Assigning the next player extends the record by that player. */
  lemma RecordStep(ps: seq<PlayerIdentity>, i: nat)
    requires i < |ps| && DistinctNames(ps)
    ensures RecordOf(ps, i)[ps[i].name := PlayerEntry(ps[i], 10)] == RecordOf(ps, i + 1)
  {
  }

  /** `buildPlayersRecord`: one entry per demo player, in order. */
  method BuildPlayersRecord() returns (rec: map<string, PlayerEntry>)
    ensures DistinctNames(DemoPlayers) && rec == RecordOf(DemoPlayers, |DemoPlayers|)
  {
    DemoNamesDistinct();
    rec := map[];
    var i := 0;
    while i < |DemoPlayers|
      invariant 0 <= i <= |DemoPlayers|
      invariant rec == RecordOf(DemoPlayers, i)
    {
      var p := DemoPlayers[i];
      RecordStep(DemoPlayers, i);
      rec := rec[p.name := PlayerEntry(p, 10)];
      i := i + 1;
    }
  }

  const DemoRowNumbers: seq<Option<int>> :=
    [Some(3), Some(7), Some(1), Some(9), Some(0), Some(5), Some(8), Some(2), Some(6), Some(4)]
  const DemoColNumbers: seq<Option<int>> :=
    [Some(6), Some(2), Some(8), Some(0), Some(4), Some(9), Some(1), Some(5), Some(3), Some(7)]

  /** `DEMO_POOL_FULL`. */
  function DemoPoolFull(): ClientPool {
    DemoNamesDistinct();
    ClientPool("DEMO01", 10, Locked, ClaimedGrid(DemoAssignments()), DemoRowNumbers, DemoColNumbers,
               RecordOf(DemoPlayers, |DemoPlayers|))
  }

  /** `DEMO_POOL_EMPTY`. */
  function DemoPoolEmpty(): ClientPool {
    ClientPool("DEMO01", 10, Open, EmptyGrid(), NoNumbers(), NoNumbers(), map[])
  }

  /** `DEMO_POOL_NO_NUMBERS`: the full pool, open, with blank headers. */
  function DemoPoolNoNumbers(): ClientPool {
    DemoPoolFull().(status := Open, rowNumbers := NoNumbers(), colNumbers := NoNumbers())
  }

  /** The record lists exactly the players of `ps`, each under its own
      name with ten squares. */
  ghost predicate RecordLists(players: map<string, PlayerEntry>, ps: seq<PlayerIdentity>) {
    && (forall name :: name in players <==> exists k :: 0 <= k < |ps| && ps[k].name == name)
    && (forall k :: 0 <= k < |ps| ==> ps[k].name in players && players[ps[k].name] == PlayerEntry(ps[k], 10))
  }

  /** A pool whose full grid gives each of `ps` ten squares and whose
      record lists `ps` keeps every recorded count equal to the number of
      squares the grid gives that player. */
  lemma RecordCountsAgree(ps: seq<PlayerIdentity>, pool: ClientPool)
    requires DistinctNames(ps) && pool.players == RecordOf(ps, |ps|)
    requires forall k :: 0 <= k < |ps| ==> PlayerSquareCount(pool, ps[k].name) == 10
    ensures CountsAgree(pool) && RecordLists(pool.players, ps)
  {
  }

  /** The full demo pool agrees with itself: the board is full, the record
      lists the ten demo players, and each recorded count of ten is the
      number of squares the grid gives that player. */
  lemma DemoPoolFullConsistent()
    ensures IsBoardFull(DemoPoolFull()) && CountsAgree(DemoPoolFull())
    ensures RecordLists(DemoPoolFull().players, DemoPlayers)
  {
    var pool := DemoPoolFull();
    ClaimedGridFacts();
    FullIffAllClaimed(pool);
    DemoNamesDistinct();
    RecordCountsAgree(DemoPlayers, pool);
  }

  /** The empty demo pool is the pool `createPool` makes. */
  lemma DemoPoolEmptyIsFresh()
    ensures DemoPoolEmpty() == CreatePool("DEMO01", 10)
  {
  }

  // ---------------------------------------------------------------------------
  // Quarters and winners

  datatype DemoQuarter = DemoQuarter(quarterLabel: string, eaglesScore: int, patriotsScore: int)

  /** `DEMO_QUARTERS`. */
  const DemoQuarters: seq<DemoQuarter> := [
    DemoQuarter("Q1", 7, 3), DemoQuarter("Q2", 14, 10), DemoQuarter("Q3", 21, 17), DemoQuarter("Q4", 28, 24)
  ]

  /** `getWinningSquare`: the last digit of each score, JavaScript's `%`. */
  function GetWinningSquare(eaglesScore: int, patriotsScore: int, quarterLabel: string): (w: SquaresGrid.WinningSquare)
    ensures w.quarterLabel == quarterLabel
    ensures eaglesScore >= 0 ==> 0 <= w.row < 10 && (eaglesScore - w.row) % 10 == 0
    ensures patriotsScore >= 0 ==> 0 <= w.col < 10 && (patriotsScore - w.col) % 10 == 0
  {
    SquaresGrid.WinningSquare(quarterLabel, Js.Rem(eaglesScore, 10), Js.Rem(patriotsScore, 10))
  }

  /** `DEMO_WINNING_SQUARES`. */
  function DemoWinningSquares(): (ws: seq<SquaresGrid.WinningSquare>)
    ensures |ws| == |DemoQuarters|
  {
    seq(|DemoQuarters|, k requires 0 <= k < |DemoQuarters| =>
      GetWinningSquare(DemoQuarters[k].eaglesScore, DemoQuarters[k].patriotsScore, DemoQuarters[k].quarterLabel))
  }

  /** The demo header numbers are the digits 0..9, each once. */
  lemma DemoNumbersAreDigits()
    ensures Shuffle.Distinct(DemoRowNumbers) && Shuffle.Distinct(DemoColNumbers)
    ensures forall d :: 0 <= d < 10 ==> Some(d) in DemoRowNumbers && Some(d) in DemoColNumbers
  {
  }

  /** The demo quarters' winning digits are 7–3, 4–0, 1–7 and 8–4. */
  lemma DemoWinningDigits()
    ensures DemoWinningSquares() == [SquaresGrid.WinningSquare("Q1", 7, 3), SquaresGrid.WinningSquare("Q2", 4, 0),
                                     SquaresGrid.WinningSquare("Q3", 1, 7), SquaresGrid.WinningSquare("Q4", 8, 4)]
  {
  }

  /** With the demo headers, the four quarters win on four different
      cells: [1][8], [9][3], [2][9] and [6][4]. */
  lemma DemoWinningCells()
    ensures SquaresGrid.CellOf(DemoRowNumbers, DemoColNumbers, 7, 3) == Some((1, 8))
    ensures SquaresGrid.CellOf(DemoRowNumbers, DemoColNumbers, 4, 0) == Some((9, 3))
    ensures SquaresGrid.CellOf(DemoRowNumbers, DemoColNumbers, 1, 7) == Some((2, 9))
    ensures SquaresGrid.CellOf(DemoRowNumbers, DemoColNumbers, 8, 4) == Some((6, 4))
  {
    DemoNumbersAreDigits();
    Js.IndexOfDistinct(DemoRowNumbers, 1);
    Js.IndexOfDistinct(DemoRowNumbers, 9);
    Js.IndexOfDistinct(DemoRowNumbers, 2);
    Js.IndexOfDistinct(DemoRowNumbers, 6);
    Js.IndexOfDistinct(DemoColNumbers, 8);
    Js.IndexOfDistinct(DemoColNumbers, 3);
    Js.IndexOfDistinct(DemoColNumbers, 9);
    Js.IndexOfDistinct(DemoColNumbers, 4);
  }

  /** Cell [r][c] is the one `indexOf` finds for the digits: the first row
      header showing `dr` and the first column header showing `dc`, inside
      the grid. */
  predicate FirstCell(pool: ClientPool, dr: int, dc: int, r: int, c: int) {
    && 0 <= r < |pool.squares| && 0 <= c < |pool.squares[r]|
    && r < |pool.rowNumbers| && pool.rowNumbers[r] == Some(dr) && (forall j :: 0 <= j < r ==> pool.rowNumbers[j] != Some(dr))
    && c < |pool.colNumbers| && pool.colNumbers[c] == Some(dc) && (forall j :: 0 <= j < c ==> pool.colNumbers[j] != Some(dc))
  }

  /** `getWinnerName`: the name of whoever claimed the cell that the two
      scores' last digits land on, or an em dash when a digit is not among
      the headers, the cell lies outside the grid or nobody claimed it. */
  function GetWinnerName(pool: ClientPool, eaglesScore: int, patriotsScore: int): (name: string)
    ensures name != "\U{2014}" ==> exists r, c ::
      && 0 <= r < |pool.squares| && 0 <= c < |pool.squares[r]|
      && r < |pool.rowNumbers| && pool.rowNumbers[r] == Some(Js.Rem(eaglesScore, 10))
      && c < |pool.colNumbers| && pool.colNumbers[c] == Some(Js.Rem(patriotsScore, 10))
      && ClaimedByName(pool.squares[r][c], name)
    ensures forall r, c ::
      FirstCell(pool, Js.Rem(eaglesScore, 10), Js.Rem(patriotsScore, 10), r, c) && pool.squares[r][c].claimedBy.Some?
      ==> name == pool.squares[r][c].claimedBy.value.name
    ensures (forall r, c :: FirstCell(pool, Js.Rem(eaglesScore, 10), Js.Rem(patriotsScore, 10), r, c) ==>
      pool.squares[r][c].claimedBy.None?) ==> name == "\U{2014}"
  {
    var cell := SquaresGrid.CellOf(pool.rowNumbers, pool.colNumbers, Js.Rem(eaglesScore, 10), Js.Rem(patriotsScore, 10));
    if cell.Some? && cell.value.0 < |pool.squares| && cell.value.1 < |pool.squares[cell.value.0]|
       && pool.squares[cell.value.0][cell.value.1].claimedBy.Some?
    then pool.squares[cell.value.0][cell.value.1].claimedBy.value.name
    else "\U{2014}"
  }

  /** On a grid whose headers hold each value at most once, the winner
      is the claimant of the one cell whose headers show the two last
      digits, and the dash when that cell is free. */
  lemma WinnerOfCell(pool: ClientPool, eaglesScore: int, patriotsScore: int, r: nat, c: nat)
    requires IsGrid(pool.squares) && |pool.rowNumbers| == 10 && |pool.colNumbers| == 10
    requires forall i, j :: 0 <= i < j < 10 ==> pool.rowNumbers[i] != pool.rowNumbers[j]
    requires forall i, j :: 0 <= i < j < 10 ==> pool.colNumbers[i] != pool.colNumbers[j]
    requires r < 10 && pool.rowNumbers[r] == Some(Js.Rem(eaglesScore, 10))
    requires c < 10 && pool.colNumbers[c] == Some(Js.Rem(patriotsScore, 10))
    ensures pool.squares[r][c].claimedBy.Some? ==> GetWinnerName(pool, eaglesScore, patriotsScore) == pool.squares[r][c].claimedBy.value.name
    ensures pool.squares[r][c].claimedBy.None? ==> GetWinnerName(pool, eaglesScore, patriotsScore) == "\U{2014}"
  {
    var dr, dc := Js.Rem(eaglesScore, 10), Js.Rem(patriotsScore, 10);
    assert FirstCell(pool, dr, dc, r, c);
    forall r', c' | FirstCell(pool, dr, dc, r', c')
      ensures r' == r && c' == c
    {
      assert pool.rowNumbers[r'] == pool.rowNumbers[r];
      assert pool.colNumbers[c'] == pool.colNumbers[c];
    }
  }

  /** The winner depends on each score only through its last digit. */
  lemma WinnerByLastDigit(pool: ClientPool, e1: int, p1: int, e2: int, p2: int)
    requires e1 >= 0 && e2 >= 0 && p1 >= 0 && p2 >= 0
    requires e1 % 10 == e2 % 10 && p1 % 10 == p2 % 10
    ensures GetWinnerName(pool, e1, p1) == GetWinnerName(pool, e2, p2)
  {
  }

  /** While the headers are blank nobody wins. */
  lemma NoNumbersNoWinner(pool: ClientPool, eaglesScore: int, patriotsScore: int)
    requires pool.rowNumbers == NoNumbers()
    ensures GetWinnerName(pool, eaglesScore, patriotsScore) == "\U{2014}"
  {
    assert Some(Js.Rem(eaglesScore, 10)) !in NoNumbers();
  }

  /** The demo pool without numbers has no winner for any quarter. */
  lemma DemoNoNumbersNoWinner(eaglesScore: int, patriotsScore: int)
    ensures GetWinnerName(DemoPoolNoNumbers(), eaglesScore, patriotsScore) == "\U{2014}"
  {
    NoNumbersNoWinner(DemoPoolNoNumbers(), eaglesScore, patriotsScore);
  }

  /** The first quarter (7–3) is won by the holder of cell [1][8] of the
      full demo pool, who is one of the demo players. */
  lemma Q1Winner()
    ensures DemoPoolFull().squares[1][8].claimedBy.Some?
    ensures GetWinnerName(DemoPoolFull(), 7, 3) == DemoPoolFull().squares[1][8].claimedBy.value.name
    ensures exists p :: p in DemoPlayers && GetWinnerName(DemoPoolFull(), 7, 3) == p.name
  {
    ClaimedGridFacts();
    DemoWinningCells();
    var p := DemoPoolFull().squares[1][8].claimedBy.value;
    assert p in DemoPlayers;
  }
}
