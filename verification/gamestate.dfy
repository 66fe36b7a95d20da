/** The board: a grid of cells with its row and column hints, and the whole
    board checks built from the line checks. */
module GameStates {
  import opened Failures
  import opened Hints
  import opened Lines
  import opened SolvedCheck
  import opened ValidCheck

  /** `cells[r][c]` is the cell in row `r`, column `c`. The height is the
      number of row hints and the width the number of column hints. */
  datatype GameState = GameState(cells: seq<Line>, rowHints: HintSet, columnHints: HintSet) {

    function Height(): nat {
      rowHints.Length()
    }

    function Width(): nat {
      columnHints.Length()
    }

    /** One row of cells per row hint, one cell per column hint in each row. */
    predicate WellFormed() {
      |cells| == Height() && forall r :: 0 <= r < |cells| ==> |cells[r]| == Width()
    }

    function Column(j: nat): (c: Line)
      requires WellFormed() && j < Width()
      ensures |c| == Height()
      ensures forall r :: 0 <= r < |c| ==> c[r] == cells[r][j]
    {
      seq(|cells|, r requires 0 <= r < |cells| => cells[r][j])
    }

    /** A copy of the board with row `i` replaced. */
    function WithRow(i: nat, line: Line): (g: GameState)
      requires i < |cells|
      ensures g.rowHints == rowHints && g.columnHints == columnHints
      ensures |g.cells| == |cells| && g.cells[i] == line
      ensures forall r :: 0 <= r < |cells| && r != i ==> g.cells[r] == cells[r]
    {
      this.(cells := cells[i := line])
    }
  }

  /** The board is solved: every row and every column realises its hint. */
  predicate Solution(b: GameState) {
    && b.WellFormed()
    && (forall i :: 0 <= i < b.Height() ==> Realises(b.cells[i], b.rowHints.At(i)))
    && (forall j :: 0 <= j < b.Width() ==> Realises(b.Column(j), b.columnHints.At(j)))
  }

  /** `IsBlank`: whether every cell is still undecided. */
  method IsBlank(b: GameState) returns (r: bool)
    requires b.WellFormed()
    ensures r <==> forall i, j :: 0 <= i < |b.cells| && 0 <= j < b.Width() ==> b.cells[i][j] == Blank
  {
    var i := 0;
    while i < |b.cells|
      invariant 0 <= i <= |b.cells|
      invariant forall i', j :: 0 <= i' < i && 0 <= j < b.Width() ==> b.cells[i'][j] == Blank
    {
      var j := 0;
      while j < |b.cells[0]|
        invariant 0 <= j <= |b.cells[0]| == b.Width()
        invariant forall j' :: 0 <= j' < j ==> b.cells[i][j'] == Blank
      {
        if b.cells[i][j] != Blank {
          return false;
        }
        j := j + 1;
      }
      i := i + 1;
    }
    return true;
  }

  /** `IsRowSolved(i)`: the final check of row `i`. */
  function IsRowSolved(b: GameState, i: nat): (r: Result<bool>)
    requires b.WellFormed() && i < b.Height()
    ensures r == Ok(true) ==> Committed(b.cells[i])
  {
    LineSolved(b.rowHints.At(i), b.cells[i])
  }

  /** `IsColumnSolved(j)`: the final check of column `j`. */
  function IsColumnSolved(b: GameState, j: nat): (r: Result<bool>)
    requires b.WellFormed() && j < b.Width()
    ensures r == Ok(true) ==> Committed(b.Column(j))
  {
    LineSolved(b.columnHints.At(j), b.Column(j))
  }

  /** The row checks from row `i` on, stopping at the first that fails. */
  function RowsSolvedFrom(b: GameState, i: nat): (r: Result<bool>)
    requires b.WellFormed() && i <= b.Height()
    ensures r == Ok(true) <==> forall i' :: i <= i' < b.Height() ==> IsRowSolved(b, i') == Ok(true)
    decreases b.Height() - i
  {
    if i == |b.cells| then Ok(true)
    else
      var ok :- IsRowSolved(b, i);
      if !ok then Ok(false) else RowsSolvedFrom(b, i + 1)
  }

  /** The column checks from column `j` on, stopping at the first that fails. */
  function ColumnsSolvedFrom(b: GameState, j: nat): (r: Result<bool>)
    requires b.WellFormed() && j <= b.Width()
    ensures r == Ok(true) <==> forall j' :: j <= j' < b.Width() ==> IsColumnSolved(b, j') == Ok(true)
    decreases b.Width() - j
  {
    if j == b.Width() then Ok(true)
    else
      var ok :- IsColumnSolved(b, j);
      if !ok then Ok(false) else ColumnsSolvedFrom(b, j + 1)
  }

  /** `IsSolved`: every row check, then every column check; the column loop
      reads the first row's length, so a board without rows throws. */
  function IsSolved(b: GameState): (r: Result<bool>)
    requires b.WellFormed()
    ensures r == Ok(true) <==>
      && |b.cells| > 0
      && (forall i :: 0 <= i < b.Height() ==> IsRowSolved(b, i) == Ok(true))
      && (forall j :: 0 <= j < b.Width() ==> IsColumnSolved(b, j) == Ok(true))
    ensures |b.cells| == 0 ==> r == Err(IndexOutOfRange)
  {
    var rows :- RowsSolvedFrom(b, 0);
    if !rows then Ok(false)
    else if |b.cells| == 0 then Err(IndexOutOfRange)
    else ColumnsSolvedFrom(b, 0)
  }

  /** Every solved board with at least one row passes `IsSolved`. */
  lemma {:induction false} SolutionIsSolved(b: GameState)
    requires Solution(b) && b.Height() > 0
    ensures IsSolved(b) == Ok(true)
  {
    forall i | 0 <= i < b.Height()
      ensures IsRowSolved(b, i) == Ok(true)
    {
      LineSolvedComplete(b.rowHints.At(i), b.cells[i]);
    }
    forall j | 0 <= j < b.Width()
      ensures IsColumnSolved(b, j) == Ok(true)
    {
      LineSolvedComplete(b.columnHints.At(j), b.Column(j));
    }
  }

  /** `IsSolved` with the corrected line check: the rows from `i` on. */
  predicate RowsFixedFrom(b: GameState, i: nat)
    requires b.WellFormed()
    decreases b.Height() - i
  {
    i >= b.Height() || (LineSolvedFixed(b.rowHints.At(i), b.cells[i]) && RowsFixedFrom(b, i + 1))
  }

  /** `IsSolved` with the corrected line check: the columns from `j` on. */
  predicate ColumnsFixedFrom(b: GameState, j: nat)
    requires b.WellFormed()
    decreases b.Width() - j
  {
    j >= b.Width() || (LineSolvedFixed(b.columnHints.At(j), b.Column(j)) && ColumnsFixedFrom(b, j + 1))
  }

  /** `IsSolved` with the corrected line check. */
  predicate IsSolvedFixed(b: GameState)
    requires b.WellFormed()
  {
    RowsFixedFrom(b, 0) && ColumnsFixedFrom(b, 0)
  }

  lemma {:induction false} RowsFixedExact(b: GameState, i: nat)
    requires b.WellFormed()
    ensures RowsFixedFrom(b, i) <==> forall i' :: i <= i' < b.Height() ==> Realises(b.cells[i'], b.rowHints.At(i'))
    decreases b.Height() - i
  {
    if i < b.Height() {
      LineSolvedFixedExact(b.rowHints.At(i), b.cells[i]);
      RowsFixedExact(b, i + 1);
    }
  }

  lemma {:induction false} ColumnsFixedExact(b: GameState, j: nat)
    requires b.WellFormed()
    ensures ColumnsFixedFrom(b, j) <==> forall j' :: j <= j' < b.Width() ==> Realises(b.Column(j'), b.columnHints.At(j'))
    decreases b.Width() - j
  {
    if j < b.Width() {
      LineSolvedFixedExact(b.columnHints.At(j), b.Column(j));
      ColumnsFixedExact(b, j + 1);
    }
  }

  /** The corrected board check holds exactly for solutions. */
  lemma {:induction false} IsSolvedFixedExact(b: GameState)
    requires b.WellFormed()
    ensures IsSolvedFixed(b) <==> Solution(b)
  {
    RowsFixedExact(b, 0);
    ColumnsFixedExact(b, 0);
  }

  /** `IsRowValid(i)`: the cumulative check of row `i`, with the row rule and
      the width as extent. */
  function IsRowValid(b: GameState, i: nat): (r: Result<bool>)
    requires b.WellFormed() && i < b.Height()
    ensures r.Err? ==> r == Err(IndexOutOfRange)
  {
    LineValid(Exact, b.rowHints.At(i), b.cells[i], b.Width())
  }

  /** `IsColumnValid(j)`: the cumulative check of column `j`, with the column
      rule and the height as extent. */
  function IsColumnValid(b: GameState, j: nat): (r: Result<bool>)
    requires b.WellFormed() && j < b.Width()
    ensures r.Err? ==> r == Err(IndexOutOfRange)
  {
    LineValid(AtMost, b.columnHints.At(j), b.Column(j), b.Height())
  }

  /** A column check throws only on a column that holds a `Void` cell. */
  lemma {:induction false} ColumnThrowsAtVoid(b: GameState, j: nat)
    requires b.WellFormed() && j < b.Width()
    ensures IsColumnValid(b, j).Err? ==> exists t :: 0 <= t < b.Height() && b.cells[t][j] == Void
  {
    if IsColumnValid(b, j).Err? {
      var h := b.columnHints.At(j);
      ThrowsAtVoid(AtMost, false, h, b.Height(), b.Column(j), 0, ValidStart(h, b.Height()));
      var t :| 0 <= t < |b.Column(j)| && b.Column(j)[t] == Void;
      assert b.cells[t][j] == Void;
    }
  }

  /** `ValidatePermutation`: the column checks from column `j` on, stopping at
      the first that fails. */
  function ColumnsValidFrom(b: GameState, j: nat): (r: Result<bool>)
    requires b.WellFormed() && j <= b.Width()
    ensures r == Ok(true) <==> forall j' :: j <= j' < b.Width() ==> IsColumnValid(b, j') == Ok(true)
    decreases b.Width() - j
  {
    if j == b.Width() then Ok(true)
    else
      var ok :- IsColumnValid(b, j);
      if !ok then Ok(false) else ColumnsValidFrom(b, j + 1)
  }

  /** Column `k` is the first from `j` on whose check does not pass. */
  predicate FirstFailing(b: GameState, j: nat, k: nat)
    requires b.WellFormed()
  {
    && j <= k < b.Width()
    && (forall j' :: j <= j' < k ==> IsColumnValid(b, j') == Ok(true))
    && IsColumnValid(b, k) != Ok(true)
  }

  /** When the column checks do not all pass, the result is that of the first
      column whose check does not pass: `false`, or its exception. */
  lemma {:induction false} ColumnsValidStops(b: GameState, j: nat)
    requires b.WellFormed() && j <= b.Width()
    requires ColumnsValidFrom(b, j) != Ok(true)
    ensures exists k :: FirstFailing(b, j, k) && ColumnsValidFrom(b, j) == IsColumnValid(b, k)
    decreases b.Width() - j
  {
    if IsColumnValid(b, j) == Ok(true) {
      ColumnsValidStops(b, j + 1);
      var k :| FirstFailing(b, j + 1, k) && ColumnsValidFrom(b, j + 1) == IsColumnValid(b, k);
      assert ColumnsValidFrom(b, j) == ColumnsValidFrom(b, j + 1);
      assert FirstFailing(b, j, k);
    } else {
      assert ColumnsValidFrom(b, j) == IsColumnValid(b, j);
      assert FirstFailing(b, j, j);
    }
  }

  /** The column loop throws only when one of the column checks throws. */
  lemma {:induction false} ColumnsValidThrows(b: GameState, j: nat)
    requires b.WellFormed() && j <= b.Width()
    ensures ColumnsValidFrom(b, j).Err? ==> exists k :: j <= k < b.Width() && IsColumnValid(b, k).Err?
    decreases b.Width() - j
  {
    if j < b.Width() && IsColumnValid(b, j) == Ok(true) {
      ColumnsValidThrows(b, j + 1);
    }
  }

  function ValidatePermutation(b: GameState): (r: Result<bool>)
    requires b.WellFormed()
    ensures r == Ok(true) <==> forall j :: 0 <= j < b.Width() ==> IsColumnValid(b, j) == Ok(true)
  {
    ColumnsValidFrom(b, 0)
  }
}
