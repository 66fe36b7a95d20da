/** The search of the `Nonogram` solvers: a state carries its board and the
    row to fill next (the target row); committing a permutation to the target
    row moves the target on, and the solutions found so far are threaded
    through the search. */
module CursorSearch {
  import opened Failures
  import opened Hints
  import opened Lines
  import opened Permutations
  import opened GameStates
  import opened Search

  /** A board together with the row the next permutation goes into. */
  datatype SearchState = SearchState(board: GameState, targetRow: int) {

    /** Every row has been committed. */
    predicate IsFinal() {
      targetRow == board.Height()
    }

    /** Commits `line` to the target row and moves the target to the next row. */
    function SetTargetRow(line: Line): (s: SearchState)
      requires 0 <= targetRow < |board.cells|
      ensures s.targetRow == targetRow + 1
      ensures s.board.rowHints == board.rowHints && s.board.columnHints == board.columnHints
      ensures |s.board.cells| == |board.cells| && s.board.cells[targetRow] == line
      ensures forall r :: 0 <= r < |board.cells| && r != targetRow ==> s.board.cells[r] == board.cells[r]
    {
      SearchState(board.WithRow(targetRow, line), targetRow + 1)
    }
  }

  /** The board's grid with every cell reset to `Blank`. */
  function Template(b: GameState): (t: GameState)
    ensures t.rowHints == b.rowHints && t.columnHints == b.columnHints
    ensures t.WellFormed() && BlankFrom(t.cells, 0)
  {
    b.(cells := seq(b.Height(), _ => Repeat(Blank, b.Width())))
  }

  /** `Clear`: every cell back to `Blank` and the target back to the first row. */
  function Clear(st: SearchState): (s: SearchState)
    ensures s.targetRow == 0
    ensures s.board.rowHints == st.board.rowHints && s.board.columnHints == st.board.columnHints
    ensures s.board.WellFormed() && BlankFrom(s.board.cells, 0)
  {
    SearchState(Template(st.board), 0)
  }

  /** `StatePermutations`: one copy of the state per permutation of the target
      row's hint, in the generator's order, each with that permutation
      committed. Reading the target row's hint throws past the last row. The
      permutations of every row come precomputed in `cands`. */
  function StatePermutations(st: SearchState, cands: seq<seq<Line>>): (r: Result<seq<SearchState>>)
    requires st.board.WellFormed() && FitsCandidates(st.board, cands)
    ensures r.Ok? <==> 0 <= st.targetRow < st.board.Height()
    ensures r.Err? ==> r.fault == IndexOutOfRange
    ensures r.Ok? ==>
      && |r.value| == |cands[st.targetRow]|
      && forall k :: 0 <= k < |r.value| ==>
        && r.value[k].targetRow == st.targetRow + 1
        && r.value[k].board.WellFormed()
        && r.value[k].board.rowHints == st.board.rowHints
        && r.value[k].board.columnHints == st.board.columnHints
        && r.value[k].board.cells[st.targetRow] == cands[st.targetRow][k]
        && forall i :: 0 <= i < st.board.Height() && i != st.targetRow ==>
          r.value[k].board.cells[i] == st.board.cells[i]
  {
    if 0 <= st.targetRow < st.board.Height() then
      var perms := cands[st.targetRow];
      Ok(seq(|perms|, k requires 0 <= k < |perms| => st.SetTargetRow(perms[k])))
    else Err(IndexOutOfRange)
  }

  /** A solution recorded by the search from `st`: a final state whose board
      keeps the rows above the target, holds generated permutations from the
      target row down, and passes the column checks. */
  predicate Found(st: SearchState, cands: seq<seq<Line>>, s: SearchState)
    requires st.board.WellFormed() && FitsCandidates(st.board, cands) && 0 <= st.targetRow
  {
    s.IsFinal() && Recorded(st.board, cands, st.board.cells, st.targetRow, AppendFirst, s.board)
  }

  /** `Solve(state)`: appends to `acc` the states found from `st`. Unless
      every solution is wanted, a search that already holds one returns at
      once. */
  function Solve(st: SearchState, cands: seq<seq<Line>>, acc: seq<SearchState>, solveAll: bool): (r: Result<seq<SearchState>>)
    requires st.board.WellFormed() && FitsCandidates(st.board, cands) && 0 <= st.targetRow <= st.board.Height()
    ensures r.Ok? ==> acc <= r.value
    ensures r.Ok? ==> forall k :: |acc| <= k < |r.value| ==> Found(st, cands, r.value[k])
    ensures !solveAll && |acc| > 0 ==> r == Ok(acc)
    ensures !solveAll && r.Ok? ==> |r.value| <= |acc| + 1
    ensures st.targetRow == st.board.Height() ==> r.Err? || (!solveAll && |acc| > 0)
    decreases st.board.Height() - st.targetRow, 1, 0
  {
    if !solveAll && |acc| > 0 then Ok(acc)
    else
      var subs :- StatePermutations(st, cands);
      SolveEach(st, cands, subs, 0, acc, solveAll)
  }

  /** The loop of `Solve(state)` over the permutations from the `n`-th on. A
      final state that passes the column checks is recorded and ends the
      loop. */
  function SolveEach(st: SearchState, cands: seq<seq<Line>>, subs: seq<SearchState>, n: nat, acc: seq<SearchState>, solveAll: bool)
    : (r: Result<seq<SearchState>>)
    requires st.board.WellFormed() && FitsCandidates(st.board, cands) && 0 <= st.targetRow < st.board.Height()
    requires StatePermutations(st, cands) == Ok(subs)
    ensures r.Ok? ==> acc <= r.value
    ensures r.Ok? ==> forall k :: |acc| <= k < |r.value| ==> Found(st, cands, r.value[k])
    ensures !solveAll && r.Ok? ==> |r.value| <= |acc| + 1
    ensures !solveAll && |acc| > 0 && st.targetRow + 1 < st.board.Height() && r.Ok? ==> r.value == acc
    decreases st.board.Height() - st.targetRow, 0, |subs| - n
  {
    if n >= |subs| then Ok(acc)
    else
      var sub := subs[n];
      var ok :- ValidatePermutation(sub.board);
      if !ok then SolveEach(st, cands, subs, n + 1, acc, solveAll)
      else if sub.IsFinal() then
        FoundFinal(st, cands, sub, n);
        Ok(acc + [sub])
      else
        var next :- Solve(sub, cands, acc, solveAll);
        FoundLifts(st, cands, sub, n, acc, next);
        SolveEach(st, cands, subs, n + 1, next, solveAll)
  }

  /** A final permutation state that passes the column checks is a solution
      found from `st`. */
  lemma {:induction false} FoundFinal(st: SearchState, cands: seq<seq<Line>>, sub: SearchState, n: nat)
    requires st.board.WellFormed() && FitsCandidates(st.board, cands) && 0 <= st.targetRow < st.board.Height()
    requires StatePermutations(st, cands).Ok? && n < |StatePermutations(st, cands).value|
    requires sub == StatePermutations(st, cands).value[n]
    requires sub.IsFinal() && ValidatePermutation(sub.board) == Ok(true)
    ensures Found(st, cands, sub)
  {
    assert sub.board.cells[st.targetRow] == cands[st.targetRow][n];
  }

  /** What is found from a permutation state is found from its parent. */
  lemma {:induction false} FoundLifts(st: SearchState, cands: seq<seq<Line>>, sub: SearchState, n: nat, acc: seq<SearchState>, next: seq<SearchState>)
    requires st.board.WellFormed() && FitsCandidates(st.board, cands) && 0 <= st.targetRow < st.board.Height()
    requires StatePermutations(st, cands).Ok? && n < |StatePermutations(st, cands).value|
    requires sub == StatePermutations(st, cands).value[n]
    requires acc <= next
    requires forall k :: |acc| <= k < |next| ==> Found(sub, cands, next[k])
    ensures forall k :: |acc| <= k < |next| ==> Found(st, cands, next[k])
  {
    assert sub.board.cells[st.targetRow] == cands[st.targetRow][n];
    forall k | |acc| <= k < |next|
      ensures Found(st, cands, next[k])
    {
      var s := next[k].board;
      assert s.cells[st.targetRow] == sub.board.cells[st.targetRow];
    }
  }

  /** `Solve()`: clears the initial state and searches from its first row. */
  function SolveFresh(init: SearchState, solveAll: bool): (r: Result<seq<SearchState>>)
    requires Searchable(init.board)
    ensures r.Ok? ==> forall k :: 0 <= k < |r.value| ==>
      && r.value[k].IsFinal() && r.value[k].board.WellFormed()
      && r.value[k].board.rowHints == init.board.rowHints
      && r.value[k].board.columnHints == init.board.columnHints
      && ValidatePermutation(r.value[k].board) == Ok(true)
    ensures !solveAll && r.Ok? ==> |r.value| <= 1
    ensures init.board.Height() == 0 ==> r == Err(IndexOutOfRange)
  {
    Solve(Clear(init), Candidates(init.board.rowHints, init.board.Width()), [], solveAll)
  }

  /** The final states over the boards the `src/nonogram` search records. */
  function Finals(gs: seq<GameState>): (r: seq<SearchState>)
    ensures |r| == |gs|
    ensures forall k :: 0 <= k < |gs| ==> r[k].board == gs[k] && r[k].IsFinal()
  {
    seq(|gs|, k requires 0 <= k < |gs| => SearchState(gs[k], gs[k].Height()))
  }

  /** The states a cursor search holds once `acc` is extended by the boards
      of a `src/nonogram` search, or that search's failure. */
  function Extend(r: Result<seq<GameState>>, acc: seq<SearchState>): Result<seq<SearchState>> {
    if r.Err? then Err(r.fault) else Ok(acc + Finals(r.value))
  }

  lemma {:induction false} FinalsConcat(acc: seq<SearchState>, a: seq<GameState>, b: seq<GameState>)
    ensures acc + Finals(a + b) == (acc + Finals(a)) + Finals(b)
  {
    assert Finals(a + b) == Finals(a) + Finals(b);
  }

  /** Searching for every solution, the cursor search does exactly what the
      older `src/nonogram` solver does: it records, in the same order, the
      same boards, returning after the first hit of each last-row branch, and
      fails exactly when that search fails. */
  lemma {:induction false} AllModeIsFirstHitSearch(st: SearchState, cands: seq<seq<Line>>, acc: seq<SearchState>)
    requires st.board.WellFormed() && FitsCandidates(st.board, cands) && 0 <= st.targetRow <= st.board.Height()
    ensures Solve(st, cands, acc, true)
      == Extend(Expand(Template(st.board), cands, st.board.cells, st.targetRow, AppendFirst), acc)
    decreases st.board.Height() - st.targetRow, 1
  {
    if st.targetRow < st.board.Height() {
      var subs := StatePermutations(st, cands).value;
      EachIsTryFrom(st, cands, subs, 0, acc);
    }
  }

  /** On the puzzle whose row and column are both written `0,`, all-solutions
      mode returns one state: the generator yields the all-`Void` line twice,
      and the return after the first hit of the last row skips the second
      copy, which the search that records every board records as well. */
  lemma {:induction false} AllModeDropsCopy(targetRow: int)
    ensures Searchable(EmptyPuzzle())
    ensures SolveFresh(SearchState(EmptyPuzzle(), targetRow), true)
      == Ok([SearchState(Board(EmptyPuzzle(), [[Void]]), 1)])
    ensures SequentialSolve(EmptyPuzzle()).Ok? && |SequentialSolve(EmptyPuzzle()).value| == 2
  {
    var board := EmptyPuzzle();
    var g := Board(board, [[Void]]);
    var init := SearchState(board, targetRow);
    EmptyPuzzleFirstHit();
    var cands := Candidates(board.rowHints, board.Width());
    var st := Clear(init);
    assert st == SearchState(board, 0) by {
      assert Repeat(Blank, 1) == [Blank];
      assert Template(board) == board;
    }
    assert Expand(Template(st.board), cands, st.board.cells, 0, AppendFirst) == SolverSolve(board);
    assert Extend(SolverSolve(board), []) == Ok([SearchState(g, 1)]) by {
      assert Finals([g]) == [SearchState(g, 1)];
      assert [] + [SearchState(g, 1)] == [SearchState(g, 1)];
    }
    AllModeIsFirstHitSearch(st, cands, []);
  }

  lemma {:induction false} EachIsTryFrom(st: SearchState, cands: seq<seq<Line>>, subs: seq<SearchState>, n: nat, acc: seq<SearchState>)
    requires st.board.WellFormed() && FitsCandidates(st.board, cands) && 0 <= st.targetRow < st.board.Height()
    requires StatePermutations(st, cands) == Ok(subs)
    ensures SolveEach(st, cands, subs, n, acc, true)
      == Extend(TryFrom(Template(st.board), cands, st.board.cells, st.targetRow, AppendFirst, n), acc)
    decreases st.board.Height() - st.targetRow, 0, |subs| - n, 1
  {
    var t := Template(st.board);
    var row := st.targetRow;
    if n >= |subs| {
      assert acc + Finals([]) == acc;
    } else {
      var sub := subs[n];
      var cand := Board(t, st.board.cells[row := cands[row][n]]);
      assert sub.board == cand;
      assert Accept(cand, row == st.board.Height() - 1, AppendFirst) == ValidatePermutation(sub.board);
      if ValidatePermutation(sub.board) == Ok(true) {
        if sub.IsFinal() {
          assert Branch(t, cands, st.board.cells, row, AppendFirst, n) == Ok([cand]);
          assert Finals([cand]) == [sub];
        } else {
          DescendIsTryFrom(st, cands, subs, n, acc);
        }
      } else if ValidatePermutation(sub.board) == Ok(false) {
        assert Branch(t, cands, st.board.cells, row, AppendFirst, n) == Ok([]);
        EachIsTryFrom(st, cands, subs, n + 1, acc);
        var rest := TryFrom(t, cands, st.board.cells, row, AppendFirst, n + 1);
        if rest.Ok? {
          assert [] + rest.value == rest.value;
        }
      }
    }
  }

  /** The step of `EachIsTryFrom` that descends into a permutation state
      below the last row. */
  lemma {:induction false} DescendIsTryFrom(st: SearchState, cands: seq<seq<Line>>, subs: seq<SearchState>, n: nat, acc: seq<SearchState>)
    requires st.board.WellFormed() && FitsCandidates(st.board, cands) && 0 <= st.targetRow < st.board.Height()
    requires StatePermutations(st, cands) == Ok(subs)
    requires n < |subs| && ValidatePermutation(subs[n].board) == Ok(true) && !subs[n].IsFinal()
    requires subs[n].board == Board(Template(st.board), st.board.cells[st.targetRow := cands[st.targetRow][n]])
    ensures SolveEach(st, cands, subs, n, acc, true)
      == Extend(TryFrom(Template(st.board), cands, st.board.cells, st.targetRow, AppendFirst, n), acc)
    decreases st.board.Height() - st.targetRow, 0, |subs| - n, 0
  {
    var t := Template(st.board);
    var row := st.targetRow;
    var sub := subs[n];
    var cand := sub.board;
    assert Template(sub.board) == t;
    AllModeIsFirstHitSearch(sub, cands, acc);
    var e := Expand(t, cands, cand.cells, row + 1, AppendFirst);
    assert Branch(t, cands, st.board.cells, row, AppendFirst, n) == e;
    assert Solve(sub, cands, acc, true) == Extend(e, acc);
    if e.Ok? {
      var next := acc + Finals(e.value);
      EachIsTryFrom(st, cands, subs, n + 1, next);
      var rest := TryFrom(t, cands, st.board.cells, row, AppendFirst, n + 1);
      if rest.Ok? {
        FinalsConcat(acc, e.value, rest.value);
      }
    }
  }

  /** The solver never throws on a board with at least one row, in either
      mode: it clears the board first, and the search it then performs is the
      older search from a blank board. */
  lemma {:induction false} SolveFreshNoThrow(init: SearchState, solveAll: bool)
    requires Searchable(init.board) && init.board.Height() > 0
    ensures SolveFresh(init, solveAll).Ok?
  {
    var st := Clear(init);
    var cands := Candidates(init.board.rowHints, init.board.Width());
    AllModeIsFirstHitSearch(st, cands, []);
    ExpandNoThrow(Template(st.board), cands, st.board.cells, 0, AppendFirst);
    if !solveAll {
      OneModeIsFirstOfAll(st, cands, []);
    }
  }

  /** How much of the full search's result the search for one solution keeps:
      `acc` if it already held a solution, else the first solution found, if
      any. */
  function FirstCut(acc: seq<SearchState>, all: seq<SearchState>): nat {
    if |acc| > 0 then |acc| else if |all| > 0 then 1 else 0
  }

  /** Searching for one solution returns the first solution the search for
      every solution finds, whenever that search succeeds. */
  lemma {:induction false} OneModeIsFirstOfAll(st: SearchState, cands: seq<seq<Line>>, acc: seq<SearchState>)
    requires st.board.WellFormed() && FitsCandidates(st.board, cands) && 0 <= st.targetRow <= st.board.Height()
    requires Solve(st, cands, acc, true).Ok?
    ensures FirstCut(acc, Solve(st, cands, acc, true).value) <= |Solve(st, cands, acc, true).value|
    ensures Solve(st, cands, acc, false) == Ok(Solve(st, cands, acc, true).value[..FirstCut(acc, Solve(st, cands, acc, true).value)])
    decreases st.board.Height() - st.targetRow, 1, 0
  {
    var all := Solve(st, cands, acc, true).value;
    if |acc| == 0 {
      var subs := StatePermutations(st, cands).value;
      EachOneIsFirstOfAll(st, cands, subs, 0, acc);
    } else {
      assert all[..|acc|] == acc;
    }
  }

  lemma {:induction false} EachOneIsFirstOfAll(st: SearchState, cands: seq<seq<Line>>, subs: seq<SearchState>, n: nat, acc: seq<SearchState>)
    requires st.board.WellFormed() && FitsCandidates(st.board, cands) && 0 <= st.targetRow < st.board.Height()
    requires StatePermutations(st, cands) == Ok(subs)
    requires |acc| == 0
    requires SolveEach(st, cands, subs, n, acc, true).Ok?
    ensures FirstCut(acc, SolveEach(st, cands, subs, n, acc, true).value) <= |SolveEach(st, cands, subs, n, acc, true).value|
    ensures SolveEach(st, cands, subs, n, acc, false)
      == Ok(SolveEach(st, cands, subs, n, acc, true).value[..FirstCut(acc, SolveEach(st, cands, subs, n, acc, true).value)])
    decreases st.board.Height() - st.targetRow, 0, |subs| - n
  {
    var whole := SolveEach(st, cands, subs, n, acc, true).value;
    if n >= |subs| {
      assert whole == acc;
    } else {
      var sub := subs[n];
      if ValidatePermutation(sub.board) == Ok(false) {
        EachOneIsFirstOfAll(st, cands, subs, n + 1, acc);
      } else if sub.IsFinal() {
        assert whole == acc + [sub];
        assert whole[..1] == acc + [sub];
        assert SolveEach(st, cands, subs, n, acc, false) == Ok(acc + [sub]);
      } else {
        DescendOne(st, cands, subs, n, acc);
      }
    }
  }

  /** The step of `EachOneIsFirstOfAll` that descends into a permutation
      state below the last row. */
  lemma {:induction false} DescendOne(st: SearchState, cands: seq<seq<Line>>, subs: seq<SearchState>, n: nat, acc: seq<SearchState>)
    requires st.board.WellFormed() && FitsCandidates(st.board, cands) && 0 <= st.targetRow < st.board.Height()
    requires StatePermutations(st, cands) == Ok(subs)
    requires |acc| == 0 && n < |subs|
    requires ValidatePermutation(subs[n].board) == Ok(true) && !subs[n].IsFinal()
    requires SolveEach(st, cands, subs, n, acc, true).Ok?
    ensures FirstCut(acc, SolveEach(st, cands, subs, n, acc, true).value) <= |SolveEach(st, cands, subs, n, acc, true).value|
    ensures SolveEach(st, cands, subs, n, acc, false)
      == Ok(SolveEach(st, cands, subs, n, acc, true).value[..FirstCut(acc, SolveEach(st, cands, subs, n, acc, true).value)])
    decreases st.board.Height() - st.targetRow, 0, |subs| - n, 0
  {
    var sub := subs[n];
    var whole := SolveEach(st, cands, subs, n, acc, true).value;
    OneModeIsFirstOfAll(sub, cands, acc);
    var all := Solve(sub, cands, acc, true).value;
    assert SolveEach(st, cands, subs, n, acc, true) == SolveEach(st, cands, subs, n + 1, all, true);
    if |all| == 0 {
      assert all == acc;
      assert Solve(sub, cands, acc, false) == Ok(acc);
      EachOneIsFirstOfAll(st, cands, subs, n + 1, acc);
    } else {
      assert Solve(sub, cands, acc, false) == Ok(all[..1]);
      assert all <= whole;
      AfterHit(st, cands, subs, n + 1, all[..1], all);
      assert whole[..1] == all[..1];
    }
  }

  /** Once the search for one solution holds one, the rest of a loop below
      the last row only repeats the column checks the full search makes. */
  lemma {:induction false} AfterHit(st: SearchState, cands: seq<seq<Line>>, subs: seq<SearchState>, n: nat, acc: seq<SearchState>, other: seq<SearchState>)
    requires st.board.WellFormed() && FitsCandidates(st.board, cands) && 0 <= st.targetRow < st.board.Height() - 1
    requires StatePermutations(st, cands) == Ok(subs)
    requires |acc| > 0
    requires SolveEach(st, cands, subs, n, other, true).Ok?
    ensures SolveEach(st, cands, subs, n, acc, false) == Ok(acc)
    decreases |subs| - n
  {
    if n < |subs| {
      var sub := subs[n];
      if ValidatePermutation(sub.board) == Ok(false) {
        AfterHit(st, cands, subs, n + 1, acc, other);
      } else {
        AfterHit(st, cands, subs, n + 1, acc, Solve(sub, cands, other, true).value);
      }
    }
  }
}
