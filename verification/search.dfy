/** The row-by-row backtracking search of the `src/nonogram` solvers: commit
    one generated permutation to the next row of a copy of the board, prune
    when a column check fails, and record the board at the last row or
    recurse into the next row. */
module Search {
  import opened Failures
  import opened Hints
  import opened Lines
  import opened Permutations
  import opened ValidCheck
  import opened GameStates

  /** What a solver does at the last row: `firstOnly` returns after the first
      accepted board of a branch; `checkFinal` (the corrected search) demands
      a solved board there instead of passing column checks. */
  datatype Policy = Policy(firstOnly: bool, checkFinal: bool)

  /** `SequentialSolver` and `ThreadPoolSolver`: every accepted board. */
  const AppendAll := Policy(false, false)
  /** The older `Solver`: at most one board per last-row branch. */
  const AppendFirst := Policy(true, false)
  /** The corrected search: every solved board. */
  const CheckedAll := Policy(false, true)

  /** The board the solver was built with: well formed, with block lengths the
      generator can place. */
  predicate Searchable(board: GameState) {
    && board.WellFormed()
    && forall i :: 0 <= i < board.Height() ==> board.rowHints.At(i).NonNegative()
  }

  /** A grid with the board's shape, searched with the board's hints. */
  predicate Fits(board: GameState, cells: seq<Line>) {
    && |cells| == board.Height()
    && forall r :: 0 <= r < |cells| ==> |cells[r]| == board.Width()
  }

  function Board(board: GameState, cells: seq<Line>): (g: GameState)
    requires Fits(board, cells)
    ensures g.WellFormed()
  {
    GameState(cells, board.rowHints, board.columnHints)
  }

  /** The permutations the generator yields for every row, in its order. The
      generator is a pure function of the row's hint and the width, so the
      search may compute them once. */
  function Candidates(rowHints: HintSet, width: nat): (cands: seq<seq<Line>>)
    ensures |cands| == rowHints.Length()
    ensures forall r, p :: 0 <= r < |cands| && p in cands[r] ==> |p| == width
  {
    seq(rowHints.Length(), r requires 0 <= r < rowHints.Length() => RowPermutations(rowHints.At(r), width))
  }

  /** Per-row candidate lists of the board's shape. */
  predicate FitsCandidates(board: GameState, cands: seq<seq<Line>>) {
    && |cands| == board.Height()
    && forall r, p :: 0 <= r < |cands| && p in cands[r] ==> |p| == board.Width()
  }

  /** The check a candidate board must pass. */
  function Accept(cand: GameState, last: bool, policy: Policy): Result<bool>
    requires cand.WellFormed()
  {
    if policy.checkFinal && last then Ok(IsSolvedFixed(cand)) else ValidatePermutation(cand)
  }

  /** What every recorded board satisfies: the board's hints and shape, the
      rows before `row` untouched, each later row one of its candidates, and
      the last check passed. */
  predicate Recorded(board: GameState, cands: seq<seq<Line>>, cells: seq<Line>, row: nat, policy: Policy, s: GameState)
    requires FitsCandidates(board, cands) && Fits(board, cells)
  {
    && s.rowHints == board.rowHints && s.columnHints == board.columnHints
    && Fits(board, s.cells)
    && (forall r :: 0 <= r < row && r < |cells| ==> s.cells[r] == cells[r])
    && (forall r :: row <= r < |cells| ==> s.cells[r] in cands[r])
    && Accept(s, true, policy) == Ok(true)
  }

  /** `Solve(gameState, row)`: the boards recorded from row `row` on. The row
      hint is read first, so a row past the last throws. */
  function Expand(board: GameState, cands: seq<seq<Line>>, cells: seq<Line>, row: nat, policy: Policy)
    : (r: Result<seq<GameState>>)
    requires FitsCandidates(board, cands) && Fits(board, cells)
    ensures r.Ok? ==> forall s | s in r.value :: Recorded(board, cands, cells, row, policy, s)
    ensures row >= board.Height() ==> r == Err(IndexOutOfRange)
    decreases board.Height() - row, 1, 0, 0
  {
    if row >= board.Height() then Err(IndexOutOfRange)
    else TryFrom(board, cands, cells, row, policy, 0)
  }

  /** The loop over the row's permutations from the `n`-th on; with
      `firstOnly`, the first board recorded at the last row ends it. */
  function TryFrom(board: GameState, cands: seq<seq<Line>>, cells: seq<Line>, row: nat, policy: Policy, n: nat)
    : (r: Result<seq<GameState>>)
    requires FitsCandidates(board, cands) && Fits(board, cells) && row < board.Height()
    ensures r.Ok? ==> forall s | s in r.value :: Recorded(board, cands, cells, row, policy, s)
    ensures r.Ok? && policy.firstOnly && row == board.Height() - 1 ==> |r.value| <= 1
    decreases board.Height() - row, 0, |cands[row]| - n, 1
  {
    if n >= |cands[row]| then Ok([])
    else
      var here :- Branch(board, cands, cells, row, policy, n);
      if policy.firstOnly && row == board.Height() - 1 && |here| > 0 then Ok(here)
      else
        var rest :- TryFrom(board, cands, cells, row, policy, n + 1);
        Ok(here + rest)
  }

  /** One pass of the loop: commit permutation `n` to the row of a copy of the
      grid and check it; a rejected candidate contributes nothing, an accepted
      one at the last row contributes itself, and one above it the boards of
      the search from the next row. */
  function Branch(board: GameState, cands: seq<seq<Line>>, cells: seq<Line>, row: nat, policy: Policy, n: nat)
    : (r: Result<seq<GameState>>)
    requires FitsCandidates(board, cands) && Fits(board, cells) && row < board.Height() && n < |cands[row]|
    ensures r.Ok? ==> forall s | s in r.value :: Recorded(board, cands, cells, row, policy, s)
    ensures r.Ok? && row == board.Height() - 1 ==> |r.value| <= 1
    decreases board.Height() - row, 0, |cands[row]| - n, 0
  {
    var cand := Board(board, cells[row := cands[row][n]]);
    var last := row == board.Height() - 1;
    var ok :- Accept(cand, last, policy);
    if !ok then Ok([])
    else if last then Ok([cand])
    else Expand(board, cands, cand.cells, row + 1, policy)
  }

  /** `SequentialSolver.Solve()`: the search from row 0 on the stored board,
      recording every board that passes the column checks. `ThreadPoolSolver`
      runs the same search, sequentially despite its name: it checks the
      columns with `ValidatePermutation`, which is this column loop. */
  function SequentialSolve(board: GameState): (r: Result<seq<GameState>>)
    requires Searchable(board)
    ensures r.Ok? ==> forall s | s in r.value ::
      && s.WellFormed() && |s.cells| == board.Height()
      && (forall i :: 0 <= i < board.Height() ==> s.cells[i] in RowPermutations(board.rowHints.At(i), board.Width()))
      && ValidatePermutation(s) == Ok(true)
    ensures board.Height() == 0 ==> r == Err(IndexOutOfRange)
  {
    Expand(board, Candidates(board.rowHints, board.Width()), board.cells, 0, AppendAll)
  }

  /** The older `Solver.Solve()`: the same search, returning after the first
      accepted board of every last-row branch. */
  function SolverSolve(board: GameState): (r: Result<seq<GameState>>)
    requires Searchable(board)
    ensures r.Ok? ==> forall s | s in r.value ::
      && s.WellFormed() && |s.cells| == board.Height()
      && (forall i :: 0 <= i < board.Height() ==> s.cells[i] in RowPermutations(board.rowHints.At(i), board.Width()))
      && ValidatePermutation(s) == Ok(true)
    ensures board.Height() == 1 && r.Ok? ==> |r.value| <= 1
    ensures board.Height() == 0 ==> r == Err(IndexOutOfRange)
  {
    Expand(board, Candidates(board.rowHints, board.Width()), board.cells, 0, AppendFirst)
  }

  /** The corrected search: at the last row a board is recorded only when it is
      solved. */
  function CheckedSolve(board: GameState): (r: Result<seq<GameState>>)
    requires Searchable(board)
    ensures r.Ok? ==> forall s | s in r.value :: s.WellFormed() && IsSolvedFixed(s)
  {
    Expand(board, Candidates(board.rowHints, board.Width()), board.cells, 0, CheckedAll)
  }

  /** Every board the corrected search records is a solution. */
  lemma {:induction false} CheckedSolveSound(board: GameState)
    requires Searchable(board)
    ensures CheckedSolve(board).Ok? ==> forall s | s in CheckedSolve(board).value :: Solution(s)
  {
    if CheckedSolve(board).Ok? {
      forall s | s in CheckedSolve(board).value
        ensures Solution(s)
      {
        IsSolvedFixedExact(s);
      }
    }
  }

  /** Rows from `row` on are still undecided. */
  predicate BlankFrom(cells: seq<Line>, row: nat) {
    forall r, c :: row <= r < |cells| && 0 <= c < |cells[r]| ==> cells[r][c] == Blank
  }

  /** A column of the candidate that commits row `row` of a solution `t` on a
      grid that agrees with `t` above `row` and is blank below it is that
      solution's column cut off after `row`. */
  lemma {:induction false} CandidateColumn(board: GameState, cells: seq<Line>, row: nat, t: seq<Line>, j: nat)
    requires Fits(board, cells) && Fits(board, t) && row < board.Height() && j < board.Width()
    requires forall r :: 0 <= r < row ==> cells[r] == t[r]
    requires BlankFrom(cells, row + 1)
    ensures Board(board, cells[row := t[row]]).Column(j) == Partial(Board(board, t).Column(j), row + 1)
  {
    var a := Board(board, cells[row := t[row]]).Column(j);
    var b := Partial(Board(board, t).Column(j), row + 1);
    forall r | 0 <= r < |a|
      ensures a[r] == b[r]
    {
      if r < row {
        assert a[r] == cells[r][j] == t[r][j];
      }
    }
  }

  /** A candidate that commits the next row of a solution passes the check. */
  lemma {:induction false} CandidateAccepted(board: GameState, cells: seq<Line>, row: nat, policy: Policy, t: seq<Line>)
    requires Fits(board, cells) && Fits(board, t) && row < board.Height()
    requires Solution(Board(board, t))
    requires forall r :: 0 <= r < row ==> cells[r] == t[r]
    requires BlankFrom(cells, row + 1)
    ensures Accept(Board(board, cells[row := t[row]]), row == board.Height() - 1, policy) == Ok(true)
  {
    var cand := Board(board, cells[row := t[row]]);
    var sol := Board(board, t);
    if policy.checkFinal && row == board.Height() - 1 {
      assert cand.cells == t;
      IsSolvedFixedExact(cand);
    } else {
      forall j | 0 <= j < board.Width()
        ensures IsColumnValid(cand, j) == Ok(true)
      {
        CandidateColumn(board, cells, row, t, j);
        PartialAccepted(AtMost, board.columnHints.At(j), sol.Column(j), row + 1);
      }
    }
  }

  /** Without `firstOnly`, a board of the later permutations is a board of
      the earlier ones. */
  lemma {:induction false} TryFromRest(board: GameState, cands: seq<seq<Line>>, cells: seq<Line>, row: nat, policy: Policy, n: nat, x: GameState)
    requires FitsCandidates(board, cands) && Fits(board, cells) && row < board.Height()
    requires !policy.firstOnly && n < |cands[row]|
    requires TryFrom(board, cands, cells, row, policy, n).Ok?
    ensures TryFrom(board, cands, cells, row, policy, n + 1).Ok?
    ensures x in TryFrom(board, cands, cells, row, policy, n + 1).value ==> x in TryFrom(board, cands, cells, row, policy, n).value
  {
    var cand := Board(board, cells[row := cands[row][n]]);
    var last := row == board.Height() - 1;
    var whole := TryFrom(board, cands, cells, row, policy, n).value;
    var rest := TryFrom(board, cands, cells, row, policy, n + 1).value;
    if Accept(cand, last, policy) == Ok(false) {
      assert whole == rest;
    } else if last {
      assert whole == [cand] + rest;
    } else {
      var sub := Expand(board, cands, cand.cells, row + 1, policy).value;
      assert whole == sub + rest;
    }
  }

  /** Without `firstOnly`, the boards of permutation `m` on are among the
      boards of permutation `n` on, for `n <= m`. */
  lemma {:induction false} TryFromSkip(board: GameState, cands: seq<seq<Line>>, cells: seq<Line>, row: nat, policy: Policy, n: nat, m: nat, x: GameState)
    requires FitsCandidates(board, cands) && Fits(board, cells) && row < board.Height()
    requires !policy.firstOnly && n <= m <= |cands[row]|
    requires TryFrom(board, cands, cells, row, policy, n).Ok?
    ensures TryFrom(board, cands, cells, row, policy, m).Ok?
    ensures x in TryFrom(board, cands, cells, row, policy, m).value ==> x in TryFrom(board, cands, cells, row, policy, n).value
    decreases m - n
  {
    if n < m {
      TryFromRest(board, cands, cells, row, policy, n, x);
      TryFromSkip(board, cands, cells, row, policy, n + 1, m, x);
      var here := TryFrom(board, cands, cells, row, policy, n).value;
      var next := TryFrom(board, cands, cells, row, policy, n + 1).value;
      var later := TryFrom(board, cands, cells, row, policy, m).value;
      assert x in later ==> x in next;
      assert x in next ==> x in here;
    }
  }

  /** Without `firstOnly`, an accepted candidate contributes its own boards
      ahead of those of the later permutations. */
  lemma {:induction false} TryFromHit(board: GameState, cands: seq<seq<Line>>, cells: seq<Line>, row: nat, policy: Policy, n: nat)
    requires FitsCandidates(board, cands) && Fits(board, cells) && row < board.Height()
    requires !policy.firstOnly && n < |cands[row]|
    requires Accept(Board(board, cells[row := cands[row][n]]), row == board.Height() - 1, policy) == Ok(true)
    requires TryFrom(board, cands, cells, row, policy, n).Ok?
    ensures row == board.Height() - 1 ==>
      Board(board, cells[row := cands[row][n]]) in TryFrom(board, cands, cells, row, policy, n).value
    ensures row < board.Height() - 1 ==>
      && Expand(board, cands, cells[row := cands[row][n]], row + 1, policy).Ok?
      && forall s | s in Expand(board, cands, cells[row := cands[row][n]], row + 1, policy).value ::
        s in TryFrom(board, cands, cells, row, policy, n).value
  {
    var cand := Board(board, cells[row := cands[row][n]]);
    assert cand.cells == cells[row := cands[row][n]];
  }

  /** Committing the next row over a grid whose rows from it on are still
      undecided never makes the column checks throw, when it is the first row
      or the rows above it passed them. */
  lemma {:induction false} CommitColumnsNoThrow(board: GameState, cells: seq<Line>, row: nat, line: Line)
    requires Fits(board, cells) && row < board.Height() && |line| == board.Width()
    requires BlankFrom(cells, row)
    requires row == 0 || ValidatePermutation(Board(board, cells)) == Ok(true)
    ensures ValidatePermutation(Board(board, cells[row := line])).Ok?
  {
    var parent := Board(board, cells);
    var child := Board(board, cells[row := line]);
    forall j | 0 <= j < board.Width()
      ensures IsColumnValid(child, j).Ok?
    {
      var h := board.columnHints.At(j);
      if row > 0 {
        assert IsColumnValid(parent, j) == Ok(true);
      }
      ColumnCommitNoThrow(h, board.Height(), parent.Column(j), child.Column(j), row);
    }
    ColumnsValidThrows(child, 0);
  }

  /** From a grid whose rows from `row` on are undecided, and whose decided
      rows passed the column checks, the search never throws: a column check
      reads a hint entry past the end only when the check of the parent grid
      already failed. */
  lemma {:induction false} ExpandNoThrow(board: GameState, cands: seq<seq<Line>>, cells: seq<Line>, row: nat, policy: Policy)
    requires FitsCandidates(board, cands) && Fits(board, cells) && row < board.Height()
    requires BlankFrom(cells, row)
    requires row == 0 || ValidatePermutation(Board(board, cells)) == Ok(true)
    ensures Expand(board, cands, cells, row, policy).Ok?
    decreases board.Height() - row, 1
  {
    TryFromNoThrow(board, cands, cells, row, policy, 0);
  }

  lemma {:induction false} TryFromNoThrow(board: GameState, cands: seq<seq<Line>>, cells: seq<Line>, row: nat, policy: Policy, n: nat)
    requires FitsCandidates(board, cands) && Fits(board, cells) && row < board.Height()
    requires BlankFrom(cells, row)
    requires row == 0 || ValidatePermutation(Board(board, cells)) == Ok(true)
    ensures TryFrom(board, cands, cells, row, policy, n).Ok?
    decreases board.Height() - row, 0, |cands[row]| - n
  {
    if n < |cands[row]| {
      var next := cells[row := cands[row][n]];
      var cand := Board(board, next);
      var last := row == board.Height() - 1;
      CommitColumnsNoThrow(board, cells, row, cands[row][n]);
      if Accept(cand, last, policy) == Ok(true) && !last {
        assert BlankFrom(next, row + 1);
        ExpandNoThrow(board, cands, next, row + 1, policy);
      }
      TryFromNoThrow(board, cands, cells, row, policy, n + 1);
    }
  }

  /** From a blank board with at least one row, none of the searches throws. */
  lemma {:induction false} SolveNoThrow(board: GameState)
    requires Searchable(board) && board.Height() > 0 && BlankFrom(board.cells, 0)
    ensures SequentialSolve(board).Ok?
    ensures SolverSolve(board).Ok?
    ensures CheckedSolve(board).Ok?
  {
    var cands := Candidates(board.rowHints, board.Width());
    ExpandNoThrow(board, cands, board.cells, 0, AppendAll);
    ExpandNoThrow(board, cands, board.cells, 0, AppendFirst);
    ExpandNoThrow(board, cands, board.cells, 0, CheckedAll);
  }

  /** A grid that agrees with a solution above `row` and is undecided from
      `row` on passes the column checks. */
  lemma {:induction false} PrefixAccepted(board: GameState, cells: seq<Line>, row: nat, t: seq<Line>)
    requires Fits(board, cells) && Fits(board, t) && row <= board.Height()
    requires Solution(Board(board, t))
    requires forall r :: 0 <= r < row ==> cells[r] == t[r]
    requires BlankFrom(cells, row)
    ensures ValidatePermutation(Board(board, cells)) == Ok(true)
  {
    var g := Board(board, cells);
    var sol := Board(board, t);
    forall j | 0 <= j < board.Width()
      ensures IsColumnValid(g, j) == Ok(true)
    {
      var a := g.Column(j);
      var b := Partial(sol.Column(j), row);
      forall r | 0 <= r < |a|
        ensures a[r] == b[r]
      {
        if r < row {
          assert a[r] == cells[r][j] == t[r][j];
        }
      }
      assert a == b;
      PartialAccepted(AtMost, board.columnHints.At(j), sol.Column(j), row);
    }
  }

  /** Completeness of the search that records every board: on a grid whose
      undecided rows are blank, every solution that agrees with the decided
      rows and whose later rows are candidates is recorded, and the search
      does not throw. */
  lemma {:induction false} ExpandComplete(board: GameState, cands: seq<seq<Line>>, cells: seq<Line>, row: nat, policy: Policy, t: seq<Line>)
    requires FitsCandidates(board, cands) && Fits(board, cells) && row < board.Height() && !policy.firstOnly
    requires Fits(board, t) && Solution(Board(board, t))
    requires forall r :: row <= r < board.Height() ==> t[r] in cands[r]
    requires forall r :: 0 <= r < row ==> cells[r] == t[r]
    requires BlankFrom(cells, row)
    ensures Expand(board, cands, cells, row, policy).Ok?
    ensures Board(board, t) in Expand(board, cands, cells, row, policy).value
    decreases board.Height() - row, 1
  {
    if row > 0 {
      PrefixAccepted(board, cells, row, t);
    }
    ExpandNoThrow(board, cands, cells, row, policy);
    var m :| 0 <= m < |cands[row]| && cands[row][m] == t[row];
    TryFromSkip(board, cands, cells, row, policy, 0, m, Board(board, t));
    TryFromCompleteAt(board, cands, cells, row, policy, m, t);
  }

  /** The candidate that is the solution's row contributes the solution. */
  lemma {:induction false} TryFromCompleteAt(board: GameState, cands: seq<seq<Line>>, cells: seq<Line>, row: nat, policy: Policy, n: nat, t: seq<Line>)
    requires FitsCandidates(board, cands) && Fits(board, cells) && row < board.Height() && !policy.firstOnly
    requires Fits(board, t) && Solution(Board(board, t))
    requires forall r :: row <= r < board.Height() ==> t[r] in cands[r]
    requires n < |cands[row]| && cands[row][n] == t[row]
    requires forall r :: 0 <= r < row ==> cells[r] == t[r]
    requires BlankFrom(cells, row)
    requires TryFrom(board, cands, cells, row, policy, n).Ok?
    ensures Board(board, t) in TryFrom(board, cands, cells, row, policy, n).value
    decreases board.Height() - row, 0
  {
    var next := cells[row := t[row]];
    assert cells[row := cands[row][n]] == next;
    CandidateAccepted(board, cells, row, policy, t);
    TryFromHit(board, cands, cells, row, policy, n);
    if row == board.Height() - 1 {
      CommitLastRow(cells, t, row);
    } else {
      CommitKeepsBlank(cells, row, t[row]);
      ExpandComplete(board, cands, next, row + 1, policy, t);
    }
  }

  /** Committing the solution's last row to a grid that agrees with it above
      gives the solution's grid. */
  lemma {:induction false} CommitLastRow(cells: seq<Line>, t: seq<Line>, row: nat)
    requires |cells| == |t| == row + 1
    requires forall r :: 0 <= r < row ==> cells[r] == t[r]
    ensures cells[row := t[row]] == t
  {
    var next := cells[row := t[row]];
    assert forall r :: 0 <= r < |t| ==> next[r] == t[r];
  }

  /** Committing a row keeps the grid blank below it. */
  lemma {:induction false} CommitKeepsBlank(cells: seq<Line>, row: nat, line: Line)
    requires row < |cells| && BlankFrom(cells, row)
    ensures BlankFrom(cells[row := line], row + 1)
  {
    var next := cells[row := line];
    forall r, c | row + 1 <= r < |next| && 0 <= c < |next[r]|
      ensures next[r][c] == Blank
    {
      assert next[r] == cells[r];
    }
  }

  /** The search from a blank board that records every board finds every
      solution, and the corrected search finds exactly the solutions. */
  lemma {:induction false} SolveFindsEverySolution(board: GameState, t: seq<Line>)
    requires Searchable(board) && board.Height() > 0 && BlankFrom(board.cells, 0)
    requires Fits(board, t) && Solution(Board(board, t))
    ensures SequentialSolve(board).Ok? && Board(board, t) in SequentialSolve(board).value
    ensures CheckedSolve(board).Ok? && Board(board, t) in CheckedSolve(board).value
  {
    var cands := Candidates(board.rowHints, board.Width());
    forall r | 0 <= r < board.Height()
      ensures t[r] in cands[r]
    {
      var h := board.rowHints.At(r);
      assert Realises(t[r], h) by {
        assert Board(board, t).cells[r] == t[r];
      }
      if h.blocks != [0] {
        RunsPositive(t[r]);
        assert h.Positive();
      }
      RowPermutationsExact(h, board.Width(), t[r]);
    }
    ExpandComplete(board, cands, board.cells, 0, AppendAll, t);
    ExpandComplete(board, cands, board.cells, 0, CheckedAll, t);
  }

  /** Returning after the first hit of each last-row branch explores part of
      the same tree: whenever the full search succeeds, the early-return search
      succeeds with some of its boards, and finds one exactly when it does. */
  lemma {:induction false} FirstWithinAll(board: GameState, cands: seq<seq<Line>>, cells: seq<Line>, row: nat)
    requires FitsCandidates(board, cands) && Fits(board, cells) && row < board.Height()
    requires Expand(board, cands, cells, row, AppendAll).Ok?
    ensures Expand(board, cands, cells, row, AppendFirst).Ok?
    ensures forall s | s in Expand(board, cands, cells, row, AppendFirst).value ::
      s in Expand(board, cands, cells, row, AppendAll).value
    ensures |Expand(board, cands, cells, row, AppendFirst).value| > 0
      <==> |Expand(board, cands, cells, row, AppendAll).value| > 0
    decreases board.Height() - row, 1
  {
    TryFromFirstWithinAll(board, cands, cells, row, 0);
  }

  lemma {:induction false} TryFromFirstWithinAll(board: GameState, cands: seq<seq<Line>>, cells: seq<Line>, row: nat, n: nat)
    requires FitsCandidates(board, cands) && Fits(board, cells) && row < board.Height()
    requires TryFrom(board, cands, cells, row, AppendAll, n).Ok?
    ensures TryFrom(board, cands, cells, row, AppendFirst, n).Ok?
    ensures forall s | s in TryFrom(board, cands, cells, row, AppendFirst, n).value ::
      s in TryFrom(board, cands, cells, row, AppendAll, n).value
    ensures |TryFrom(board, cands, cells, row, AppendFirst, n).value| > 0
      <==> |TryFrom(board, cands, cells, row, AppendAll, n).value| > 0
    decreases board.Height() - row, 0, |cands[row]| - n
  {
    if n < |cands[row]| {
      var cand := Board(board, cells[row := cands[row][n]]);
      var last := row == board.Height() - 1;
      assert Accept(cand, last, AppendFirst) == Accept(cand, last, AppendAll);
      if Accept(cand, last, AppendAll) == Ok(false) {
        TryFromFirstWithinAll(board, cands, cells, row, n + 1);
      } else if !last {
        FirstWithinAll(board, cands, cand.cells, row + 1);
        TryFromFirstWithinAll(board, cands, cells, row, n + 1);
      }
    }
  }

  /** A 1 by 1 puzzle whose column hint asks for a run of two. */
  function Unsolvable(): GameState {
    GameState([[Blank]], HintSet([Hint([1])]), HintSet([Hint([2])]))
  }

  /** The only permutation of the single row. */
  lemma {:induction false} UnsolvableCandidates()
    ensures Searchable(Unsolvable())
    ensures Candidates(Unsolvable().rowHints, 1) == [[[Fill]]]
  {
    var h := Hint([1]);
    assert Unsolvable().rowHints.At(0) == h;
    assert h.Occupation(1) == -1;
    assert FillRun(NewLine(1), 0, 1) == [Fill];
    assert Starts(h, NewLine(1), 0, 0, 1) == [] + Place(h, [Fill], 1, 2);
    assert RowPermutations(h, 1) == [[Fill]];
  }

  /** The filled board passes the column check but is not a solution. */
  lemma {:induction false} UnsolvableFilled()
    ensures Fits(Unsolvable(), [[Fill]])
    ensures ValidatePermutation(Board(Unsolvable(), [[Fill]])) == Ok(true)
    ensures !Solution(Board(Unsolvable(), [[Fill]]))
  {
    var g := Board(Unsolvable(), [[Fill]]);
    assert g.Column(0) == [Fill];
    assert IsColumnValid(g, 0) == Ok(true) by {
      assert LineValid(AtMost, Hint([2]), [Fill], 1) == Ok(true);
    }
    assert Runs([Fill]) == [1] by {
      RunsBlock([Fill], 0, 1);
      assert [Fill][0..] == [Fill];
    }
  }

  /** The column check accepts a finished board whose column run is too short,
      so the search records a board that is not a solution; the corrected
      search records nothing. */
  lemma {:induction false} SearchRecordsNonSolution()
    ensures Searchable(Unsolvable())
    ensures SequentialSolve(Unsolvable()) == Ok([Board(Unsolvable(), [[Fill]])])
    ensures !Solution(Board(Unsolvable(), [[Fill]]))
    ensures CheckedSolve(Unsolvable()) == Ok([])
  {
    var board := Unsolvable();
    UnsolvableCandidates();
    UnsolvableFilled();
    var g := Board(board, [[Fill]]);
    var cands := Candidates(board.rowHints, 1);
    assert board.cells[0 := cands[0][0]] == [[Fill]];
    assert TryFrom(board, cands, board.cells, 0, AppendAll, 1) == Ok([]);
    assert TryFrom(board, cands, board.cells, 0, AppendAll, 0) == Ok([g] + []);
    assert [g] + [] == [g];
    IsSolvedFixedExact(g);
    assert TryFrom(board, cands, board.cells, 0, CheckedAll, 1) == Ok([]);
    assert TryFrom(board, cands, board.cells, 0, CheckedAll, 0) == Ok([]);
  }

  /** A 1 by 1 puzzle whose row and column are both written `0,`. */
  function EmptyPuzzle(): GameState {
    GameState([[Blank]], HintSet([Hint([0])]), HintSet([Hint([0])]))
  }

  /** The generator yields the all-`Void` line twice for the single row. */
  lemma {:induction false} EmptyPuzzleCandidates()
    ensures Searchable(EmptyPuzzle())
    ensures Candidates(EmptyPuzzle().rowHints, 1) == [[[Void], [Void]]]
  {
    var h := EmptyPuzzle().rowHints.At(0);
    assert h == Hint([0]);
    assert NewLine(1) == [Void];
    ZeroHintPermutations(1);
    var ls := RowPermutations(h, 1);
    assert ls == [[Void], [Void]] by {
      assert |ls| == 2 && ls[0] == NewLine(1) && ls[1] == NewLine(1);
    }
    var cands := Candidates(EmptyPuzzle().rowHints, 1);
    assert |cands| == 1 && cands[0] == ls;
  }

  /** The empty cell is a solution, and passes the corrected final check. */
  lemma {:induction false} EmptyCellSolves()
    ensures Fits(EmptyPuzzle(), [[Void]])
    ensures Solution(Board(EmptyPuzzle(), [[Void]]))
    ensures IsSolvedFixed(Board(EmptyPuzzle(), [[Void]]))
  {
    var g := Board(EmptyPuzzle(), [[Void]]);
    assert g.WellFormed();
    assert g.Column(0) == [Void];
    RealisesZero([Void]);
    assert g.rowHints.At(0) == Hint([0]) && g.columnHints.At(0) == Hint([0]);
    IsSolvedFixedExact(g);
  }

  /** The empty cell passes the column checks. */
  lemma {:induction false} EmptyCellValid()
    ensures Fits(EmptyPuzzle(), [[Void]])
    ensures ValidatePermutation(Board(EmptyPuzzle(), [[Void]])) == Ok(true)
  {
    var g := Board(EmptyPuzzle(), [[Void]]);
    assert g.Column(0) == [Void];
    RealisesZero([Void]);
    ZeroAccepted(AtMost, false, [Void], 1);
    assert Partial([Void], 1) == [Void];
    assert g.columnHints.At(0) == Hint([0]);
    assert IsColumnValid(g, 0) == Ok(true);
    assert ColumnsValidFrom(g, 1) == Ok(true);
  }

  /** Either copy of the all-`Void` line is accepted and recorded, whether
      or not the final check is the corrected one, and with or without the
      early return. */
  lemma {:induction false} EmptyPuzzleBranch(policy: Policy, n: nat)
    requires policy == AppendAll || policy == AppendFirst || policy == CheckedAll
    requires n < 2
    ensures Searchable(EmptyPuzzle())
    ensures FitsCandidates(EmptyPuzzle(), Candidates(EmptyPuzzle().rowHints, 1))
    ensures Branch(EmptyPuzzle(), Candidates(EmptyPuzzle().rowHints, 1), EmptyPuzzle().cells, 0, policy, n)
      == Ok([Board(EmptyPuzzle(), [[Void]])])
  {
    var board := EmptyPuzzle();
    var g := Board(board, [[Void]]);
    EmptyPuzzleCandidates();
    EmptyCellSolves();
    EmptyCellValid();
    var cands := Candidates(board.rowHints, 1);
    assert board.cells[0 := cands[0][n]] == [[Void]];
    assert Accept(g, true, policy) == Ok(true);
  }

  /** The loop over the two copies records the empty cell once per copy. */
  lemma {:induction false} EmptyPuzzleSearch(policy: Policy)
    requires policy == AppendAll || policy == CheckedAll
    ensures Searchable(EmptyPuzzle())
    ensures TryFrom(EmptyPuzzle(), Candidates(EmptyPuzzle().rowHints, 1), EmptyPuzzle().cells, 0, policy, 0)
      == Ok([Board(EmptyPuzzle(), [[Void]]), Board(EmptyPuzzle(), [[Void]])])
  {
    var board := EmptyPuzzle();
    var g := Board(board, [[Void]]);
    var cands := Candidates(board.rowHints, 1);
    EmptyPuzzleCandidates();
    assert board.Height() == 1 && |cands[0]| == 2;
    var last := TryFrom(board, cands, board.cells, 0, policy, 2);
    assert last == Ok([]);
    var second := TryFrom(board, cands, board.cells, 0, policy, 1);
    assert second == Ok([g]) by {
      EmptyPuzzleBranch(policy, 1);
      assert [g] + [] == [g];
    }
    assert TryFrom(board, cands, board.cells, 0, policy, 0) == Ok([g, g]) by {
      EmptyPuzzleBranch(policy, 0);
      assert [g] + [g] == [g, g];
    }
  }

  /** The older search returns after the first copy of the all-`Void` line,
      so it records the empty cell once, where the search that records every
      accepted board records it twice. */
  lemma {:induction false} EmptyPuzzleFirstHit()
    ensures Searchable(EmptyPuzzle())
    ensures SolverSolve(EmptyPuzzle()) == Ok([Board(EmptyPuzzle(), [[Void]])])
    ensures SequentialSolve(EmptyPuzzle())
      == Ok([Board(EmptyPuzzle(), [[Void]]), Board(EmptyPuzzle(), [[Void]])])
  {
    var board := EmptyPuzzle();
    var g := Board(board, [[Void]]);
    var cands := Candidates(board.rowHints, 1);
    EmptyPuzzleCandidates();
    EmptyPuzzleSearch(AppendAll);
    assert board.Width() == 1 && board.Height() == 1 && |cands[0]| == 2;
    assert TryFrom(board, cands, board.cells, 0, AppendFirst, 0) == Ok([g]) by {
      EmptyPuzzleBranch(AppendFirst, 0);
    }
  }

  /** The empty cell solves it, and every search records it once per copy
      of the all-`Void` line the generator yields for the lone-zero hint. */
  lemma {:induction false} EmptyPuzzleSolved()
    ensures Searchable(EmptyPuzzle())
    ensures Solution(Board(EmptyPuzzle(), [[Void]]))
    ensures SequentialSolve(EmptyPuzzle()) == Ok([Board(EmptyPuzzle(), [[Void]]), Board(EmptyPuzzle(), [[Void]])])
    ensures CheckedSolve(EmptyPuzzle()) == Ok([Board(EmptyPuzzle(), [[Void]]), Board(EmptyPuzzle(), [[Void]])])
  {
    var board := EmptyPuzzle();
    EmptyCellSolves();
    EmptyPuzzleSearch(AppendAll);
    EmptyPuzzleSearch(CheckedAll);
    assert board.Width() == 1 && board.Height() == 1;
  }
}
