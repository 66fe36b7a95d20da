/** The cumulative check of a partly committed line (`IsRowValid` and
    `IsColumnValid`): a left to right fold over the cells with an explicit scan
    state, where `Blank` means "not decided yet" and a leading-void budget
    rejects lines whose remaining blocks no longer fit. */
module ValidCheck {
  import opened Failures
  import opened Hints
  import opened Lines

  /** How a run followed by a `Blank` cell is judged: the row check demands an
      exact match with its hint entry, the column check only that a hint entry
      remains and the run does not exceed it. */
  datatype BlankRule = Exact | AtMost

  /** The scan state: `x` runs closed so far, the open run's length, the cells
      since the last closed run, whether a run is open (`blockLock`) or a
      filled cell was seen since the last closed run (`voidLock`), and how many
      cells that gap may have before the remaining blocks no longer fit. */
  datatype ValidScan = ValidScan(
    x: nat, blockCount: int, voidCount: int, blockLock: bool, voidLock: bool, limit: int)

  /** The state before the first cell: the budget is the line extent less the
      whole hint's occupation. */
  function ValidStart(h: Hint, extent: int): ValidScan {
    ValidScan(0, 0, 0, false, false, extent - h.Occupation(0))
  }

  /** The state after a run is closed at cell `j`: one more hint entry used, a
      fresh budget for the blocks after it, and the closing cell counted as the
      first cell of the new gap. Its contract records the facts the scan
      proofs use without unfolding it. */
  function Close(h: Hint, extent: int, j: int, st: ValidScan): (r: ValidScan)
    ensures r.x == st.x + 1 && r.blockCount == 0 && !r.blockLock && !r.voidLock
    ensures r.voidCount - r.limit == j + 1 - extent + h.Occupation(st.x + 1)
  {
    ValidScan(st.x + 1, 0, 1, false, false, extent - h.Occupation(st.x + 1) - j)
  }

  /** The scan from cell `j` on, as the source writes it when `strict` is
      false. `extent` is the dimension the source reads for the budget (the
      width for a row, the height for a column). With `strict`, the end test
      also rejects a run still open when no hint entry is left. The scan
      throws only by reading a hint entry past the end. */
  function ValidFrom(rule: BlankRule, strict: bool, h: Hint, extent: int, line: Line, j: nat, st: ValidScan)
    : (r: Result<bool>)
    requires j <= |line|
    ensures r.Err? ==> r == Err(IndexOutOfRange)
    decreases |line| - j
  {
    if j == |line| then
      Ok(&& !(st.x > h.Length())
         && !(st.x < h.Length() && h.At(st.x) < st.blockCount)
         && !(strict && st.blockLock && st.x >= h.Length()))
    else
      match line[j]
      case Fill =>
        ValidFrom(rule, strict, h, extent, line, j + 1,
          st.(voidLock := true, blockLock := true, blockCount := st.blockCount + 1))
      case Blank =>
        if !st.blockLock then
          ValidFrom(rule, strict, h, extent, line, j + 1, st.(voidCount := st.voidCount + 1))
        else if rule == Exact then
          var b :- h.Index(st.x);
          if b != st.blockCount then Ok(false)
          else if st.x + 1 > h.Length() then Ok(false)
          else ValidFrom(rule, strict, h, extent, line, j + 1, Close(h, extent, j, st))
        else if st.x >= h.Length() then Ok(false)
        else if h.At(st.x) < st.blockCount then Ok(false)
        else ValidFrom(rule, strict, h, extent, line, j + 1, Close(h, extent, j, st))
      case Void =>
        if !st.voidLock && st.voidCount >= st.limit then Ok(false)
        else if !st.blockLock then
          ValidFrom(rule, strict, h, extent, line, j + 1, st.(voidCount := st.voidCount + 1))
        else
          var b :- h.Index(st.x);
          if b != st.blockCount then Ok(false)
          else if st.x + 1 > h.Length() then Ok(false)
          else ValidFrom(rule, strict, h, extent, line, j + 1, Close(h, extent, j, st))
  }

  /** Under the column rule the scan reads a hint entry, and so can throw,
      only at a `Void` cell: a `Blank` closing a run tests `x` first. */
  lemma {:induction false} ThrowsAtVoid(rule: BlankRule, strict: bool, h: Hint, extent: int, line: Line, j: nat, st: ValidScan)
    requires j <= |line|
    ensures rule == AtMost && ValidFrom(rule, strict, h, extent, line, j, st).Err? ==>
      exists t :: j <= t < |line| && line[t] == Void
    decreases |line| - j
  {
    if rule == AtMost && j < |line| && ValidFrom(rule, strict, h, extent, line, j, st).Err? && line[j] != Void {
      var next := if line[j] == Fill then st.(voidLock := true, blockLock := true, blockCount := st.blockCount + 1)
        else if !st.blockLock then st.(voidCount := st.voidCount + 1)
        else Close(h, extent, j, st);
      assert ValidFrom(rule, strict, h, extent, line, j + 1, next).Err?;
      ThrowsAtVoid(rule, strict, h, extent, line, j + 1, next);
    }
  }

  /** `IsRowValid` (the row rule) and `IsColumnValid` (the column rule) on
      the line's cells. */
  function LineValid(rule: BlankRule, h: Hint, line: Line, extent: int): (r: Result<bool>)
    ensures r.Err? ==> r == Err(IndexOutOfRange)
  {
    ValidFrom(rule, false, h, extent, line, 0, ValidStart(h, extent))
  }

  /** The check with the end test corrected: a run still open at the end with
      no hint entry left fails. */
  function LineValidStrict(rule: BlankRule, h: Hint, line: Line, extent: int): Result<bool> {
    ValidFrom(rule, true, h, extent, line, 0, ValidStart(h, extent))
  }

  /** The committed line `c` with every cell from `k` on reset to `Blank`: the
      state of a column while the rows from `k` on are still undecided. */
  function Partial(c: Line, k: nat): (r: Line)
    requires k <= |c|
    ensures |r| == |c|
    ensures forall t :: 0 <= t < k ==> r[t] == c[t]
    ensures forall t :: k <= t < |c| ==> r[t] == Blank
  {
    c[..k] + Repeat(Blank, |c| - k)
  }

  /** Once only `Blank` cells remain and no run is open, the scan accepts. */
  lemma {:induction false} BlankTail(rule: BlankRule, strict: bool, h: Hint, extent: int, line: Line, j: nat, st: ValidScan)
    requires j <= |line| && h.NonNegative()
    requires forall t :: j <= t < |line| ==> line[t] == Blank
    requires !st.blockLock && st.blockCount == 0 && st.x <= h.Length()
    ensures ValidFrom(rule, strict, h, extent, line, j, st) == Ok(true)
    decreases |line| - j
  {
    if j < |line| {
      BlankTail(rule, strict, h, extent, line, j + 1, st.(voidCount := st.voidCount + 1));
    }
  }

  /** What the scan state says about a committed line `c` that realises its
      hint: the open run carried into the rest of `c` realises the hint entries
      from `x`, and while no run is open the gap so far is measured against the
      blocks still to come. */
  predicate Tracks(h: Hint, c: Line, extent: int, j: nat, st: ValidScan)
    requires j <= |c|
  {
    && extent == |c|
    && st.x <= h.Length()
    && st.blockCount >= 0
    && st.blockLock == (st.blockCount > 0)
    && st.voidLock == st.blockLock
    && Runs(Repeat(Fill, st.blockCount) + c[j..]) == h.blocks[st.x..]
    && (!st.blockLock ==> st.voidCount - st.limit == j - extent + h.Occupation(st.x))
  }

  /** A committed `Void` cell with no run open passes the budget check: the
      blocks after it still fit. */
  lemma {:induction false} BudgetHolds(h: Hint, c: Line, j: nat, st: ValidScan)
    requires j < |c| && c[j] == Void && h.NonNegative()
    requires Tracks(h, c, |c|, j, st) && !st.blockLock
    ensures st.voidCount < st.limit
  {
    assert Repeat(Fill, 0) + c[j..] == c[j..];
    RunsSkip(c, j);
    RunsLength(c[j + 1..], h, st.x);
  }

  /** One committed cell keeps the scan tracking `c`. */
  lemma {:induction false} TrackStep(rule: BlankRule, strict: bool, h: Hint, c: Line, line: Line, j: nat, st: ValidScan)
    returns (st': ValidScan)
    requires j < |c| == |line| && line[j] == c[j] && c[j] != Blank && h.NonNegative()
    requires Tracks(h, c, |c|, j, st)
    ensures Tracks(h, c, |c|, j + 1, st')
    ensures ValidFrom(rule, strict, h, |c|, line, j, st) == ValidFrom(rule, strict, h, |c|, line, j + 1, st')
  {
    var rest := c[j..];
    assert rest[0] == c[j] && rest[1..] == c[j + 1..];
    if c[j] == Fill {
      CarryFill(st.blockCount, rest);
      st' := st.(voidLock := true, blockLock := true, blockCount := st.blockCount + 1);
    } else if !st.blockLock {
      BudgetHolds(h, c, j, st);
      assert Repeat(Fill, 0) + rest == rest;
      assert Repeat(Fill, 0) + c[j + 1..] == c[j + 1..];
      RunsSkip(c, j);
      st' := st.(voidCount := st.voidCount + 1);
    } else {
      CarryClose(st.blockCount, rest);
      assert h.blocks[st.x..][0] == st.blockCount;
      assert h.blocks[st.x..] == [h.At(st.x)] + h.blocks[st.x + 1..];
      assert Repeat(Fill, 0) + c[j + 1..] == c[j + 1..];
      st' := Close(h, |c|, j, st);
    }
  }

  /** Scanning a committed line whose cells from `k` on are reset to `Blank`:
      the scan accepts whenever the committed line realises the hint, under the
      column rule for every `k` and under the row rule once the line is
      complete. */
  lemma {:induction false} TrackedAccepts(rule: BlankRule, strict: bool, h: Hint, c: Line, line: Line, k: nat, j: nat, st: ValidScan)
    requires j <= k <= |c| == |line| && h.NonNegative()
    requires rule == AtMost || k == |c|
    requires forall t :: 0 <= t < |c| ==> c[t] != Blank
    requires forall t :: 0 <= t < k ==> line[t] == c[t]
    requires forall t :: k <= t < |c| ==> line[t] == Blank
    requires Tracks(h, c, |c|, j, st)
    ensures ValidFrom(rule, strict, h, |c|, line, j, st) == Ok(true)
    decreases k - j
  {
    if j < k {
      var st' := TrackStep(rule, strict, h, c, line, j, st);
      TrackedAccepts(rule, strict, h, c, line, k, j + 1, st');
    } else if k == |c| {
      assert c[j..] == [];
      CarryEnd(st.blockCount);
      if st.blockLock {
        assert h.blocks[st.x..][0] == h.At(st.x);
      }
    } else if st.blockLock {
      CarryFirst(st.blockCount, c[j..]);
      assert h.blocks[st.x..][0] == h.At(st.x);
      BlankTail(rule, strict, h, |c|, line, j + 1, Close(h, |c|, j, st));
    } else {
      BlankTail(rule, strict, h, |c|, line, j, st);
    }
  }

  /** Under the lone-zero hint, a line with no `Fill` cell from `j` on passes:
      the budget is the whole extent, and no run is ever opened. */
  lemma {:induction false} ZeroTail(rule: BlankRule, strict: bool, extent: int, line: Line, j: nat)
    requires j <= |line| <= extent
    requires forall t :: j <= t < |line| ==> line[t] != Fill
    ensures ValidFrom(rule, strict, Hint([0]), extent, line, j, ValidScan(0, 0, j, false, false, extent)) == Ok(true)
    decreases |line| - j
  {
    if j < |line| {
      ZeroTail(rule, strict, extent, line, j + 1);
    }
  }

  /** No false negatives: a column whose decided cells agree with a line that
      realises the hint passes the column check, however many of its last
      cells are still `Blank`; the row check accepts the complete line. Both
      hold for the source's end test and for the corrected one. */
  lemma {:induction false} PartialAccepted(rule: BlankRule, h: Hint, c: Line, k: nat)
    requires Realises(c, h) && k <= |c|
    requires rule == AtMost || k == |c|
    ensures LineValid(rule, h, Partial(c, k), |c|) == Ok(true)
    ensures LineValidStrict(rule, h, Partial(c, k), |c|) == Ok(true)
  {
    PartialAcceptedBy(rule, false, h, c, k);
    PartialAcceptedBy(rule, true, h, c, k);
  }

  lemma {:induction false} PartialAcceptedBy(rule: BlankRule, strict: bool, h: Hint, c: Line, k: nat)
    requires Realises(c, h) && k <= |c|
    requires rule == AtMost || k == |c|
    ensures ValidFrom(rule, strict, h, |c|, Partial(c, k), 0, ValidStart(h, |c|)) == Ok(true)
  {
    if h.blocks == [0] {
      assert h == Hint([0]);
      ZeroAccepted(rule, strict, c, k);
    } else {
      RunsPositive(c);
      assert h.NonNegative();
      var st := ValidStart(h, |c|);
      assert c[0..] == c && h.blocks[0..] == h.blocks;
      assert Repeat(Fill, 0) + c[0..] == c;
      assert Tracks(h, c, |c|, 0, st);
      TrackedAccepts(rule, strict, h, c, Partial(c, k), k, 0, st);
    }
  }

  /** The lone-zero hint accepts every partly decided line of `Void` cells. */
  lemma {:induction false} ZeroAccepted(rule: BlankRule, strict: bool, c: Line, k: nat)
    requires Realises(c, Hint([0])) && k <= |c|
    ensures ValidFrom(rule, strict, Hint([0]), |c|, Partial(c, k), 0, ValidStart(Hint([0]), |c|)) == Ok(true)
  {
    RealisesZero(c);
    assert Hint([0]).Occupation(0) == 0;
    ZeroTail(rule, strict, |c|, Partial(c, k), 0);
  }

  /** A line of only `Blank` cells passes under any non-negative hint. */
  lemma {:induction false} AllBlankAccepted(rule: BlankRule, h: Hint, n: nat, extent: int)
    requires h.NonNegative()
    ensures LineValid(rule, h, Repeat(Blank, n), extent) == Ok(true)
  {
    BlankTail(rule, false, h, extent, Repeat(Blank, n), 0, ValidStart(h, extent));
  }

  /** Under the column rule a `Blank` cell never reads a hint entry, so a scan
      over `Blank` cells cannot throw. */
  lemma {:induction false} BlankNoThrow(strict: bool, h: Hint, extent: int, line: Line, j: nat, st: ValidScan)
    requires j <= |line|
    requires forall t :: j <= t < |line| ==> line[t] == Blank
    ensures ValidFrom(AtMost, strict, h, extent, line, j, st).Ok?
    decreases |line| - j
  {
    if j < |line| {
      if !st.blockLock {
        BlankNoThrow(strict, h, extent, line, j + 1, st.(voidCount := st.voidCount + 1));
      } else if st.x < h.Length() && h.At(st.x) >= st.blockCount {
        BlankNoThrow(strict, h, extent, line, j + 1, Close(h, extent, j, st));
      }
    }
  }

  /** A decided cell `r` followed only by `Blank` cells cannot make the column
      check throw when a run open before it still has a hint entry. */
  lemma {:induction false} NextCellNoThrow(strict: bool, h: Hint, extent: int, line: Line, r: nat, st: ValidScan)
    requires r < |line|
    requires forall t :: r < t < |line| ==> line[t] == Blank
    requires st.blockLock ==> st.x < h.Length()
    ensures ValidFrom(AtMost, strict, h, extent, line, r, st).Ok?
  {
    match line[r]
    case Fill =>
      BlankNoThrow(strict, h, extent, line, r + 1,
        st.(voidLock := true, blockLock := true, blockCount := st.blockCount + 1));
    case Blank =>
      BlankNoThrow(strict, h, extent, line, r, st);
    case Void =>
      if !st.voidLock && st.voidCount >= st.limit {
      } else if !st.blockLock {
        BlankNoThrow(strict, h, extent, line, r + 1, st.(voidCount := st.voidCount + 1));
      } else if h.At(st.x) == st.blockCount && st.x + 1 <= h.Length() {
        BlankNoThrow(strict, h, extent, line, r + 1, Close(h, extent, r, st));
      }
  }

  /** Deciding cell `r` of a column whose check passed while that cell and the
      ones after it were `Blank` cannot make the check throw: the same scan
      reaches cell `r`, and a run open there was let through by the `Blank`
      only because a hint entry was left for it. */
  lemma {:induction false} CommitNoThrow(strict: bool, h: Hint, extent: int, parent: Line, child: Line, r: nat, j: nat, st: ValidScan)
    requires j <= r < |child| == |parent|
    requires forall t :: j <= t < r ==> child[t] == parent[t]
    requires parent[r] == Blank
    requires forall t :: r < t < |child| ==> child[t] == Blank
    requires ValidFrom(AtMost, strict, h, extent, parent, j, st) == Ok(true)
    ensures ValidFrom(AtMost, strict, h, extent, child, j, st).Ok?
    decreases r - j
  {
    if j == r {
      NextCellNoThrow(strict, h, extent, child, r, st);
    } else {
      assert child[j] == parent[j];
      match parent[j]
      case Fill =>
        CommitNoThrow(strict, h, extent, parent, child, r, j + 1,
          st.(voidLock := true, blockLock := true, blockCount := st.blockCount + 1));
      case Blank =>
        if !st.blockLock {
          CommitNoThrow(strict, h, extent, parent, child, r, j + 1, st.(voidCount := st.voidCount + 1));
        } else {
          CommitNoThrow(strict, h, extent, parent, child, r, j + 1, Close(h, extent, j, st));
        }
      case Void =>
        if !st.blockLock {
          CommitNoThrow(strict, h, extent, parent, child, r, j + 1, st.(voidCount := st.voidCount + 1));
        } else {
          CommitNoThrow(strict, h, extent, parent, child, r, j + 1, Close(h, extent, j, st));
        }
    }
  }

  /** The column check of a column decided down to cell `r` and undecided
      below it never throws, when `r` is its first cell or the column passed
      while cell `r` was still undecided. */
  lemma {:induction false} ColumnCommitNoThrow(h: Hint, extent: int, parent: Line, child: Line, r: nat)
    requires r < |child| == |parent|
    requires forall t :: 0 <= t < r ==> child[t] == parent[t]
    requires forall t :: r <= t < |parent| ==> parent[t] == Blank
    requires forall t :: r < t < |child| ==> child[t] == Blank
    requires r == 0 || LineValid(AtMost, h, parent, extent) == Ok(true)
    ensures LineValid(AtMost, h, child, extent).Ok?
  {
    if r == 0 {
      NextCellNoThrow(false, h, extent, child, 0, ValidStart(h, extent));
    } else {
      CommitNoThrow(false, h, extent, parent, child, r, 0, ValidStart(h, extent));
    }
  }

  /** The row rule rejects a run that a later cell could still extend: `Fill,
      Blank` under the hint `[2]`, although `Fill, Fill` realises it. */
  lemma RowRuleRejectsOpenRun()
    ensures LineValid(Exact, Hint([2]), [Fill, Blank], 2) == Ok(false)
    ensures Realises([Fill, Fill], Hint([2]))
    ensures [Fill, Blank] == Partial([Fill, Fill], 1)
  {
    var c: Line := [Fill, Fill];
    assert LeadingFills(c[1..]) == 1;
    assert LeadingFills(c) == 2;
    assert c[2..] == [];
    assert Partial(c, 1) == [Fill, Blank];
  }

  /** A run closed by `Void` reads its hint entry before any bound check, so
      a run with no entry left throws instead of answering false: here a
      filled cell under the empty hint. */
  lemma ClosedRunPastHintThrows()
    ensures LineValid(AtMost, Hint([]), [Fill, Void], 2) == Err(IndexOutOfRange)
    ensures LineValid(Exact, Hint([]), [Fill, Void], 2) == Err(IndexOutOfRange)
  {
  }

  /** The column rule accepts a complete column with an extra run after the
      last hint entry: the second run is still open at the end, and the final
      check only compares an open run against a hint entry that remains. */
  lemma ColumnAcceptsExtraTrailingRun()
    ensures LineValid(AtMost, Hint([1]), [Fill, Void, Fill], 3) == Ok(true)
  {
    var line: Line := [Fill, Void, Fill];
    var h := Hint([1]);
    assert h.Occupation(0) == 1 && h.Occupation(1) == -1;
    var st1 := ValidScan(0, 1, 0, true, true, 2);
    var st2 := ValidScan(1, 0, 1, false, false, 3);
    var st3 := ValidScan(1, 1, 1, true, true, 3);
    assert ValidFrom(AtMost, false, h, 3, line, 3, st3) == Ok(true);
    assert ValidFrom(AtMost, false, h, 3, line, 2, st2) == Ok(true);
    assert Close(h, 3, 1, st1) == st2;
    assert ValidFrom(AtMost, false, h, 3, line, 1, st1) == Ok(true);
  }

  /** That column has two runs, so it does not realise `[1]`. */
  lemma ExtraTrailingRunNotRealised()
    ensures Committed([Fill, Void, Fill])
    ensures Runs([Fill, Void, Fill]) == [1, 1]
    ensures !Realises([Fill, Void, Fill], Hint([1]))
  {
    var line: Line := [Fill, Void, Fill];
    assert line[1..] == [Void, Fill];
    assert line[1..][1..] == [Fill];
    assert LeadingFills(line) == 1;
    assert LeadingFills([Fill]) == 1;
    assert [Fill][1..] == [];
  }

  /** One decided cell of an accepting corrected scan: the scan accepts from
      the next cell on, in the state the cell leads to. */
  lemma {:induction false} StrictAdvance(rule: BlankRule, h: Hint, extent: int, line: Line, j: nat, st: ValidScan)
    requires j < |line| && line[j] != Blank
    requires ValidFrom(rule, true, h, extent, line, j, st) == Ok(true)
    ensures line[j] == Fill ==>
      ValidFrom(rule, true, h, extent, line, j + 1, st.(voidLock := true, blockLock := true, blockCount := st.blockCount + 1)) == Ok(true)
    ensures line[j] == Void && !st.blockLock ==>
      ValidFrom(rule, true, h, extent, line, j + 1, st.(voidCount := st.voidCount + 1)) == Ok(true)
    ensures line[j] == Void && st.blockLock ==>
      ValidFrom(rule, true, h, extent, line, j + 1, Close(h, extent, j, st)) == Ok(true)
  {
  }

  /** What the corrected scan keeps on a decided line: the runs closed so far,
      together with those of the carried run and the rest of the line, never
      outnumber the hint's entries once the scan accepts. */
  lemma {:induction false} StrictRunCount(rule: BlankRule, h: Hint, extent: int, line: Line, j: nat, st: ValidScan)
    requires j <= |line|
    requires forall t :: j <= t < |line| ==> line[t] != Blank
    requires st.blockCount >= 0 && st.blockLock == (st.blockCount > 0)
    requires ValidFrom(rule, true, h, extent, line, j, st) == Ok(true)
    ensures st.x + |Runs(Repeat(Fill, st.blockCount) + line[j..])| <= h.Length()
    decreases |line| - j
  {
    var rest := line[j..];
    if j == |line| {
      assert rest == [];
      CarryEnd(st.blockCount);
    } else {
      StrictAdvance(rule, h, extent, line, j, st);
      assert rest[0] == line[j] && rest[1..] == line[j + 1..];
      if line[j] == Fill {
        CarryFill(st.blockCount, rest);
        StrictRunCount(rule, h, extent, line, j + 1,
          st.(voidLock := true, blockLock := true, blockCount := st.blockCount + 1));
      } else if !st.blockLock {
        assert Repeat(Fill, 0) + rest == rest;
        assert Repeat(Fill, 0) + line[j + 1..] == line[j + 1..];
        RunsSkip(rest, 0);
        assert rest[0..] == rest;
        StrictRunCount(rule, h, extent, line, j + 1, st.(voidCount := st.voidCount + 1));
      } else {
        CarryClose(st.blockCount, rest);
        assert Repeat(Fill, 0) + line[j + 1..] == line[j + 1..];
        StrictRunCount(rule, h, extent, line, j + 1, Close(h, extent, j, st));
      }
    }
  }

  /** With the end test corrected, a decided line that passes has no more
      runs than its hint has entries, so no extra run slips through. */
  lemma {:induction false} StrictEndCorrected(rule: BlankRule, h: Hint, line: Line, extent: int)
    requires Committed(line)
    ensures LineValidStrict(rule, h, line, extent) == Ok(true) ==> |Runs(line)| <= h.Length()
  {
    if LineValidStrict(rule, h, line, extent) == Ok(true) {
      assert Repeat(Fill, 0) + line[0..] == line;
      StrictRunCount(rule, h, extent, line, 0, ValidStart(h, extent));
    }
  }

  /** The corrected end test rejects the column the source accepts. */
  lemma StrictEndRejectsExtraRun()
    ensures LineValidStrict(AtMost, Hint([1]), [Fill, Void, Fill], 3) == Ok(false)
  {
    var line: Line := [Fill, Void, Fill];
    var h := Hint([1]);
    assert h.Occupation(0) == 1 && h.Occupation(1) == -1;
    var st1 := ValidScan(0, 1, 0, true, true, 2);
    var st2 := ValidScan(1, 0, 1, false, false, 3);
    var st3 := ValidScan(1, 1, 1, true, true, 3);
    assert ValidFrom(AtMost, true, h, 3, line, 3, st3) == Ok(false);
    assert ValidFrom(AtMost, true, h, 3, line, 2, st2) == Ok(false);
    assert Close(h, 3, 1, st1) == st2;
    assert ValidFrom(AtMost, true, h, 3, line, 1, st1) == Ok(false);
  }
}
