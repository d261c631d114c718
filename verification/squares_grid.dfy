/** The decisions of `components/squares-grid.tsx`: which cell each quarter's
    winning digits land on, how several quarters on one cell are labelled,
    which cell holds the live score, which cells may be clicked, the colour
    of a winning cell and the accessible label of a cell. */
module SquaresGrid {
  import opened Wrappers
  import Text
  import Js
  import opened PoolStore

  /** `WinningSquare`: `row` and `col` are score digits, not positions. */
  datatype WinningSquare = WinningSquare(quarterLabel: string, row: int, col: int)

  /** A winning cell's badge text and the quarter that decides its colour. */
  datatype WinnerInfo = WinnerInfo(text: string, quarter: string)

  /** A cell position (row index, column index). The source keys its map by
      the string `${rowIdx},${colIdx}`, which is one-to-one on such pairs. */
  type CellKey = (int, int)

  /** The cell whose row header shows `row` and whose column header shows
      `col`: the first position of each digit, or None when either digit is
      not among the headers. */
  function CellOf(rowNumbers: seq<Option<int>>, colNumbers: seq<Option<int>>, row: int, col: int): (k: Option<CellKey>)
    ensures k.Some? <==> Some(row) in rowNumbers && Some(col) in colNumbers
    ensures k.Some? ==>
      && 0 <= k.value.0 < |rowNumbers| && rowNumbers[k.value.0] == Some(row)
      && 0 <= k.value.1 < |colNumbers| && colNumbers[k.value.1] == Some(col)
      && (forall j :: 0 <= j < k.value.0 ==> rowNumbers[j] != Some(row))
      && (forall j :: 0 <= j < k.value.1 ==> colNumbers[j] != Some(col))
  {
    var rowIdx := Js.IndexOf(rowNumbers, Some(row));
    var colIdx := Js.IndexOf(colNumbers, Some(col));
    if rowIdx >= 0 && colIdx >= 0 then Some((rowIdx, colIdx)) else None
  }

  /** The labels, in input order, of the first `n` winning entries that
      land on `key`. */
  function LabelsAt(rowNumbers: seq<Option<int>>, colNumbers: seq<Option<int>>,
                    ws: seq<WinningSquare>, key: CellKey, n: nat): seq<string>
    requires n <= |ws|
  {
    if n == 0 then []
    else
      var prev := LabelsAt(rowNumbers, colNumbers, ws, key, n - 1);
      if CellOf(rowNumbers, colNumbers, ws[n - 1].row, ws[n - 1].col) == Some(key)
      then prev + [ws[n - 1].quarterLabel] else prev
  }

  /** The labels of the entries landing on a cell are exactly those entries'
      labels: each one comes from such an entry, and there are as many as
      entries landing there. */
  lemma {:induction false} LabelsAtCount(rowNumbers: seq<Option<int>>, colNumbers: seq<Option<int>>,
                                         ws: seq<WinningSquare>, key: CellKey, n: nat)
    requires n <= |ws|
    ensures LabelsAt(rowNumbers, colNumbers, ws, key, n) == [] <==>
      forall j :: 0 <= j < n ==> CellOf(rowNumbers, colNumbers, ws[j].row, ws[j].col) != Some(key)
    ensures forall t :: 0 <= t < |LabelsAt(rowNumbers, colNumbers, ws, key, n)| ==>
      exists j :: 0 <= j < n && CellOf(rowNumbers, colNumbers, ws[j].row, ws[j].col) == Some(key)
                  && LabelsAt(rowNumbers, colNumbers, ws, key, n)[t] == ws[j].quarterLabel
  {
    if n > 0 {
      LabelsAtCount(rowNumbers, colNumbers, ws, key, n - 1);
    }
  }

  /** The map after the first `i` entries: a cell is present exactly when
      some of them land on it; its text joins their labels with spaces and
      its quarter is the first of them. */
  ghost predicate WinnersAfter(m: map<CellKey, WinnerInfo>, rowNumbers: seq<Option<int>>,
                               colNumbers: seq<Option<int>>, ws: seq<WinningSquare>, i: nat)
    requires i <= |ws|
  {
    forall key: CellKey ::
      var labels := LabelsAt(rowNumbers, colNumbers, ws, key, i);
      (key in m <==> labels != []) &&
      (key in m ==> m[key] == WinnerInfo(Text.Join(labels, " "), labels[0]))
  }

  /** The `winningByKey` loop: every winning entry whose digits are both
      among the headers adds its label to its cell, after the labels
      already there, and the first quarter on a cell keeps its colour. */
  method WinningByKey(rowNumbers: seq<Option<int>>, colNumbers: seq<Option<int>>, ws: seq<WinningSquare>)
    returns (m: map<CellKey, WinnerInfo>)
    ensures forall key: CellKey :: key in m <==> LabelsAt(rowNumbers, colNumbers, ws, key, |ws|) != []
    ensures forall key: CellKey :: key in m ==>
      var labels := LabelsAt(rowNumbers, colNumbers, ws, key, |ws|);
      m[key] == WinnerInfo(Text.Join(labels, " "), labels[0])
  {
    m := map[];
    var i := 0;
    while i < |ws|
      invariant 0 <= i <= |ws|
      invariant WinnersAfter(m, rowNumbers, colNumbers, ws, i)
    {
      var w := ws[i];
      var rowIdx := Js.IndexOf(rowNumbers, Some(w.row));
      var colIdx := Js.IndexOf(colNumbers, Some(w.col));
      var m0 := m;
      if rowIdx >= 0 && colIdx >= 0 {
        var k := (rowIdx, colIdx);
        if k in m {
          var existing := m[k];
          m := m[k := WinnerInfo(existing.text + " " + w.quarterLabel, existing.quarter)];
        } else {
          m := m[k := WinnerInfo(w.quarterLabel, w.quarterLabel)];
        }
      }
      WinnerStep(m0, m, rowNumbers, colNumbers, ws, i);
      i := i + 1;
    }
  }

  /** One turn of the `winningByKey` loop keeps `WinnersAfter`. */
  lemma WinnerStep(m0: map<CellKey, WinnerInfo>, m: map<CellKey, WinnerInfo>, rowNumbers: seq<Option<int>>,
                   colNumbers: seq<Option<int>>, ws: seq<WinningSquare>, i: nat)
    requires i < |ws| && WinnersAfter(m0, rowNumbers, colNumbers, ws, i)
    requires var c := CellOf(rowNumbers, colNumbers, ws[i].row, ws[i].col);
      && (c.None? ==> m == m0)
      && (c.Some? && c.value in m0 ==>
            m == m0[c.value := WinnerInfo(m0[c.value].text + " " + ws[i].quarterLabel, m0[c.value].quarter)])
      && (c.Some? && c.value !in m0 ==> m == m0[c.value := WinnerInfo(ws[i].quarterLabel, ws[i].quarterLabel)])
    ensures WinnersAfter(m, rowNumbers, colNumbers, ws, i + 1)
  {
    var c := CellOf(rowNumbers, colNumbers, ws[i].row, ws[i].col);
    forall key: CellKey
      ensures var labels := LabelsAt(rowNumbers, colNumbers, ws, key, i + 1);
        (key in m <==> labels != []) &&
        (key in m ==> m[key] == WinnerInfo(Text.Join(labels, " "), labels[0]))
    {
      var before := LabelsAt(rowNumbers, colNumbers, ws, key, i);
      if c == Some(key) && before != [] {
        Text.JoinSnoc(before, ws[i].quarterLabel, " ");
      }
    }
  }

  /** Two quarters whose digits land on one cell, with no other entries:
      the badge reads "Q1 Q2" and the cell takes Q1's colour. */
  lemma TwoQuartersOneCell(rowNumbers: seq<Option<int>>, colNumbers: seq<Option<int>>, row: int, col: int)
    requires Some(row) in rowNumbers && Some(col) in colNumbers
    ensures var ws := [WinningSquare("Q1", row, col), WinningSquare("Q2", row, col)];
      var key := CellOf(rowNumbers, colNumbers, row, col).value;
      LabelsAt(rowNumbers, colNumbers, ws, key, 2) == ["Q1", "Q2"]
      && Text.Join(["Q1", "Q2"], " ") == "Q1 Q2"
  {
    var ws := [WinningSquare("Q1", row, col), WinningSquare("Q2", row, col)];
    var key := CellOf(rowNumbers, colNumbers, row, col).value;
    assert LabelsAt(rowNumbers, colNumbers, ws, key, 1) == ["Q1"];
  }

  /** `currentScoreKey`: the cell of the live score's digits; None when
      there is no live score or a digit is not among the headers. */
  function CurrentScoreKey(rowNumbers: seq<Option<int>>, colNumbers: seq<Option<int>>,
                           currentScore: Option<(int, int)>): (k: Option<CellKey>)
    ensures currentScore.None? ==> k.None?
    ensures currentScore.Some? ==> k == CellOf(rowNumbers, colNumbers, currentScore.value.0, currentScore.value.1)
  {
    if currentScore.None? then None
    else CellOf(rowNumbers, colNumbers, currentScore.value.0, currentScore.value.1)
  }

  /** While the headers show no numbers, no winning entry and no live
      score lands on any cell. */
  lemma {:induction false} NoNumbersNoHighlights(ws: seq<WinningSquare>, currentScore: Option<(int, int)>, key: CellKey)
    ensures CurrentScoreKey(NoNumbers(), NoNumbers(), currentScore).None?
    ensures LabelsAt(NoNumbers(), NoNumbers(), ws, key, |ws|) == []
  {
    assert forall d: int :: Some(d) !in NoNumbers();
    LabelsAtCount(NoNumbers(), NoNumbers(), ws, key, |ws|);
  }

  /** `isCurrentPlayer`: a non-empty current name that the claimant's name equals. */
  predicate IsCurrentPlayer(square: Square, currentPlayerName: Option<string>) {
    currentPlayerName.Some? && currentPlayerName.value != "" && ClaimedByName(square, currentPlayerName.value)
  }

  /** `canClick`. */
  predicate CanClick(square: Square, currentPlayerName: Option<string>, interactive: bool, canRelease: bool) {
    interactive && (square.claimedBy.None? || (canRelease && IsCurrentPlayer(square, currentPlayerName)))
  }

  /** A cell is clickable exactly when the grid is interactive and the cell
      is either free, or releasable and held by the current player; so a
      cell held by someone else never is. */
  lemma CanClickCases(square: Square, currentPlayerName: Option<string>, interactive: bool, canRelease: bool)
    ensures !interactive ==> !CanClick(square, currentPlayerName, interactive, canRelease)
    ensures interactive && square.claimedBy.None? ==> CanClick(square, currentPlayerName, interactive, canRelease)
    ensures square.claimedBy.Some? ==>
      (CanClick(square, currentPlayerName, interactive, canRelease) <==>
         interactive && canRelease && currentPlayerName.Some? && currentPlayerName.value != ""
         && square.claimedBy.value.name == currentPlayerName.value)
  {
  }

  /** The three colours of a winning cell. */
  datatype QuarterColor = QuarterColor(ring: string, bg: string, badge: string)

  /** `QUARTER_COLORS[quarter] ?? DEFAULT_Q_COLOR`: Q1 green, Q2 blue,
      Q3 orange, Q4 gold, and Q1's colours for a label the palette lacks.
      A label that names an inherited property finds that property (a
      function, not `undefined`), which has no colours: `None`. */
  function ColorOf(quarter: string): Option<QuarterColor> {
    if quarter == "Q2" then
      Some(QuarterColor("oklch(0.55 0.20 260)", "oklch(0.55 0.20 260 / 0.12)", "oklch(0.42 0.15 260)"))
    else if quarter == "Q3" then
      Some(QuarterColor("oklch(0.60 0.22 25)", "oklch(0.60 0.22 25 / 0.12)", "oklch(0.48 0.18 25)"))
    else if quarter == "Q4" then
      Some(QuarterColor("oklch(0.65 0.18 85)", "oklch(0.65 0.18 85 / 0.15)", "oklch(0.50 0.15 85)"))
    else if quarter in Js.ObjectPrototypeKeys then None
    else
      Some(QuarterColor("oklch(0.60 0.20 145)", "oklch(0.60 0.20 145 / 0.12)", "oklch(0.45 0.15 145)"))
  }

  /** A label other than Q2..Q4 is coloured like Q1, unless it names a
      property every object inherits; such a label gets no colours. */
  lemma UnknownQuarterIsQ1(quarter: string)
    requires quarter != "Q2" && quarter != "Q3" && quarter != "Q4"
    ensures quarter !in Js.ObjectPrototypeKeys ==> ColorOf(quarter) == ColorOf("Q1")
    ensures quarter in Js.ObjectPrototypeKeys ==> ColorOf(quarter) == None
    ensures ColorOf("Q1").Some?
  {
    assert "Q1" !in Js.ObjectPrototypeKeys;
  }

  /** The four quarters have four different ring colours. */
  lemma QuarterColorsDiffer()
    ensures ColorOf("Q1").Some? && ColorOf("Q2").Some? && ColorOf("Q3").Some? && ColorOf("Q4").Some?
    ensures ColorOf("Q1").value.ring != ColorOf("Q2").value.ring && ColorOf("Q1").value.ring != ColorOf("Q3").value.ring
    ensures ColorOf("Q1").value.ring != ColorOf("Q4").value.ring && ColorOf("Q2").value.ring != ColorOf("Q3").value.ring
    ensures ColorOf("Q2").value.ring != ColorOf("Q4").value.ring && ColorOf("Q3").value.ring != ColorOf("Q4").value.ring
  {
    assert "Q1" !in Js.ObjectPrototypeKeys;
    var r1, r2, r3, r4 := ColorOf("Q1").value.ring, ColorOf("Q2").value.ring, ColorOf("Q3").value.ring, ColorOf("Q4").value.ring;
    assert r1[8] == '6' && r2[8] == '5';
    assert r3[8] == '6' && r4[8] == '6';
    assert r1[9] == '0' && r3[9] == '0' && r4[9] == '5';
    assert |r1| == 20 && |r3| == 19;
  }

  /** The accessible label of a cell. */
  function AriaLabel(square: Square): (r: string)
    ensures square.claimedBy.Some? ==> r == "Square claimed by " + square.claimedBy.value.name
    ensures square.claimedBy.None? ==> Text.StartsWith(r, "Empty square at row ")
  {
    if square.claimedBy.Some? then "Square claimed by " + square.claimedBy.value.name
    else "Empty square at row " + Text.IntToString(square.row + 1) + ", column " + Text.IntToString(square.col + 1)
  }

  /** On a fresh grid, cell [r][c] is announced with 1-based positions. */
  lemma EmptyCellLabel(r: nat, c: nat)
    requires r < 9 && c < 9
    ensures AriaLabel(EmptyGrid()[r][c]) ==
      "Empty square at row " + [Text.DigitChar(r + 1)] + ", column " + [Text.DigitChar(c + 1)]
  {
  }

  /** A claimed cell's label never reads as an empty one's. */
  lemma ClaimedLabelDiffers(a: Square, b: Square)
    requires a.claimedBy.Some? && b.claimedBy.None?
    ensures AriaLabel(a) != AriaLabel(b)
  {
    assert AriaLabel(a)[0] == 'S' && AriaLabel(b)[0] == 'E';
  }
}
