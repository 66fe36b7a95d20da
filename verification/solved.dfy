/** The final check of one fully committed line (`IsRowSolved` and
    `IsColumnSolved`, which differ only in how they walk the grid): a left to
    right fold over the line's cells with an explicit scan state. */
module SolvedCheck {
  import opened Failures
  import opened Hints
  import opened Lines

  /** The scan state: `x` hint entries matched so far, `count` cells in the
      current run, `block` whether a run is open. */
  datatype SolvedScan = SolvedScan(x: nat, count: nat, block: bool)

  const SolvedStart := SolvedScan(0, 0, false)

  /** The scan from cell `j` on, as the source writes it: a `Blank` answers
      false, a `Void` that closes a run reads the hint entry of that run (and
      throws when there is none) and must match it, and at the end only the
      entry at `x` is compared with the open run. */
  function SolvedFrom(h: Hint, line: Line, j: nat, st: SolvedScan): (r: Result<bool>)
    requires j <= |line|
    ensures r == Ok(true) ==> forall t :: j <= t < |line| ==> line[t] != Blank
    decreases |line| - j
  {
    if j == |line| then
      Ok(!(st.x < h.Length() && h.At(st.x) != st.count))
    else
      match line[j]
      case Blank => Ok(false)
      case Fill => SolvedFrom(h, line, j + 1, st.(block := true, count := st.count + 1))
      case Void =>
        if !st.block then SolvedFrom(h, line, j + 1, st)
        else
          var b :- h.Index(st.x);
          if b != st.count then Ok(false)
          else if st.x + 1 > h.Length() then Ok(false)
          else SolvedFrom(h, line, j + 1, SolvedScan(st.x + 1, 0, false))
  }

  /** `IsRowSolved` / `IsColumnSolved` on the line's cells. A true answer
      implies the line has no `Blank` cell. */
  function LineSolved(h: Hint, line: Line): (r: Result<bool>)
    ensures r == Ok(true) ==> Committed(line)
  {
    SolvedFrom(h, line, 0, SolvedStart)
  }

  /** What a scan state stands for: the open run carried into the rest of the
      line, together with the rest, must realise the hint entries from `x`. */
  predicate Matches(h: Hint, line: Line, j: nat, st: SolvedScan)
    requires j <= |line|
  {
    && st.x <= h.Length()
    && st.block == (st.count > 0)
    && (forall t :: j <= t < |line| ==> line[t] != Blank)
    && Runs(Repeat(Fill, st.count) + line[j..]) == h.blocks[st.x..]
  }

  /** The source scan never rejects a line that realises the rest of the
      hint. */
  lemma {:induction false} SolvedFromComplete(h: Hint, line: Line, j: nat, st: SolvedScan)
    requires j <= |line| && Matches(h, line, j, st)
    ensures SolvedFrom(h, line, j, st) == Ok(true)
    decreases |line| - j
  {
    if j == |line| {
      CarryEnd(st.count);
      assert line[j..] == [];
      if st.count > 0 {
        assert h.blocks[st.x..] == [st.count];
        assert h.blocks[st.x..][0] == h.At(st.x);
      }
    } else if line[j] == Fill {
      MatchesFill(h, line, j, st);
      SolvedFromComplete(h, line, j + 1, st.(block := true, count := st.count + 1));
    } else if !st.block {
      MatchesGap(h, line, j, st);
      SolvedFromComplete(h, line, j + 1, st);
    } else {
      MatchesClose(h, line, j, st);
      SolvedFromComplete(h, line, j + 1, SolvedScan(st.x + 1, 0, false));
    }
  }

  /** Under the lone-zero hint, a line of `Void` cells passes: no run is ever
      closed, and at the end the entry 0 equals the empty open run. */
  lemma {:induction false} ZeroSolvedFrom(line: Line, j: nat)
    requires j <= |line|
    requires forall t :: j <= t < |line| ==> line[t] == Void
    ensures SolvedFrom(Hint([0]), line, j, SolvedStart) == Ok(true)
    decreases |line| - j
  {
    if j < |line| {
      ZeroSolvedFrom(line, j + 1);
    }
  }

  /** Every line that realises its hint passes the source check. */
  lemma {:induction false} LineSolvedComplete(h: Hint, line: Line)
    requires Realises(line, h)
    ensures LineSolved(h, line) == Ok(true)
  {
    if h.blocks == [0] {
      RealisesZero(line);
      ZeroSolvedFrom(line, 0);
    } else {
      assert Repeat(Fill, 0) + line[0..] == line;
      SolvedFromComplete(h, line, 0, SolvedStart);
    }
  }

  /** A second run closed by `Void` under a one-block hint reads past the hint
      and throws instead of answering false. */
  lemma ExtraClosedRunThrows()
    ensures LineSolved(Hint([1]), [Fill, Void, Fill, Void]) == Err(IndexOutOfRange)
  {
  }

  /** A line with fewer runs than the hint passes. */
  lemma MissingRunAccepted()
    ensures LineSolved(Hint([1, 1]), [Fill]) == Ok(true)
    ensures !Realises([Fill], Hint([1, 1]))
  {
    assert Runs([Fill]) == [1] by {
      assert LeadingFills([Fill]) == 1;
      assert [Fill][1..] == [];
    }
  }

  /** A line with an unterminated run after the last hint entry passes. */
  lemma ExtraTrailingRunAccepted()
    ensures LineSolved(Hint([1]), [Fill, Void, Fill]) == Ok(true)
    ensures !Realises([Fill, Void, Fill], Hint([1]))
  {
    var line: Line := [Fill, Void, Fill];
    assert line[1..] == [Void, Fill];
    assert line[1..][1..] == [Fill];
    assert LeadingFills(line) == 1;
    assert LeadingFills([Fill]) == 1;
    assert [Fill][1..] == [];
    assert Runs(line) == [1, 1];
  }

  /** The scan with both defects corrected: a run closed by `Void` with no hint
      entry left answers false, and the end requires every entry to be used. */
  function SolvedFixedFrom(h: Hint, line: Line, j: nat, st: SolvedScan): bool
    requires j <= |line|
    decreases |line| - j
  {
    if j == |line| then
      if st.block then st.x + 1 == h.Length() && h.At(st.x) == st.count
      else st.x == h.Length()
    else
      match line[j]
      case Blank => false
      case Fill => SolvedFixedFrom(h, line, j + 1, st.(block := true, count := st.count + 1))
      case Void =>
        if !st.block then SolvedFixedFrom(h, line, j + 1, st)
        else if st.x >= h.Length() || h.At(st.x) != st.count then false
        else SolvedFixedFrom(h, line, j + 1, SolvedScan(st.x + 1, 0, false))
  }

  /** The corrected line check. It reads the lone-zero hint as the empty
      hint, as the source check does. */
  function LineSolvedFixed(h: Hint, line: Line): bool {
    SolvedFixedFrom(Hint(Wanted(h)), line, 0, SolvedStart)
  }

  /** The corrected scan answers exactly whether the carried run and the rest
      of the line realise the hint entries from `x`. */
  lemma {:induction false} SolvedFixedExact(h: Hint, line: Line, j: nat, st: SolvedScan)
    requires j <= |line| && st.x <= h.Length() && st.block == (st.count > 0)
    ensures SolvedFixedFrom(h, line, j, st) <==> Matches(h, line, j, st)
    decreases |line| - j
  {
    if j == |line| {
      MatchesEnd(h, line, st);
    } else if line[j] == Blank {
      assert !Matches(h, line, j, st);
    } else if line[j] == Fill {
      MatchesFill(h, line, j, st);
      SolvedFixedExact(h, line, j + 1, st.(block := true, count := st.count + 1));
    } else if !st.block {
      MatchesGap(h, line, j, st);
      SolvedFixedExact(h, line, j + 1, st);
    } else {
      MatchesClose(h, line, j, st);
      if st.x < h.Length() {
        SolvedFixedExact(h, line, j + 1, SolvedScan(st.x + 1, 0, false));
      }
    }
  }

  /** At the end of the line only the carried run is left to match. */
  lemma {:induction false} MatchesEnd(h: Hint, line: Line, st: SolvedScan)
    requires st.x <= h.Length() && st.block == (st.count > 0)
    ensures SolvedFixedFrom(h, line, |line|, st) <==> Matches(h, line, |line|, st)
  {
    CarryEnd(st.count);
    assert line[|line|..] == [];
    if st.block && st.x < h.Length() {
      assert h.blocks[st.x..] == [h.At(st.x)] + h.blocks[st.x + 1..];
    }
  }

  /** A filled cell extends the carried run. */
  lemma {:induction false} MatchesFill(h: Hint, line: Line, j: nat, st: SolvedScan)
    requires j < |line| && line[j] == Fill && st.x <= h.Length()
    ensures Matches(h, line, j, st) <==> (st.block == (st.count > 0) && Matches(h, line, j + 1, st.(block := true, count := st.count + 1)))
  {
    var rest := line[j..];
    assert rest[0] == line[j] && rest[1..] == line[j + 1..];
    CarryFill(st.count, rest);
    CommittedStep(line, j);
  }

  /** A `Void` cell with no run open contributes no run. */
  lemma {:induction false} MatchesGap(h: Hint, line: Line, j: nat, st: SolvedScan)
    requires j < |line| && line[j] == Void && !st.block && st.count == 0 && st.x <= h.Length()
    ensures Matches(h, line, j, st) <==> Matches(h, line, j + 1, st)
  {
    var rest := line[j..];
    assert rest[0] == line[j] && rest[1..] == line[j + 1..];
    assert Repeat(Fill, 0) + rest == rest;
    assert Repeat(Fill, 0) + line[j + 1..] == line[j + 1..];
    RunsSkip(rest, 0);
    assert rest[0..] == rest;
    CommittedStep(line, j);
  }

  /** A `Void` cell closes the carried run, which must be the next entry. */
  lemma {:induction false} MatchesClose(h: Hint, line: Line, j: nat, st: SolvedScan)
    requires j < |line| && line[j] == Void && st.block && st.count > 0 && st.x <= h.Length()
    ensures Matches(h, line, j, st) <==>
      (st.x < h.Length() && h.At(st.x) == st.count && Matches(h, line, j + 1, SolvedScan(st.x + 1, 0, false)))
  {
    var rest := line[j..];
    assert rest[0] == line[j] && rest[1..] == line[j + 1..];
    CarryClose(st.count, rest);
    assert Repeat(Fill, 0) + line[j + 1..] == line[j + 1..];
    CommittedStep(line, j);
    if st.x < h.Length() {
      assert h.blocks[st.x..] == [h.At(st.x)] + h.blocks[st.x + 1..];
    } else {
      assert h.blocks[st.x..] == [];
    }
  }

  /** Cells from `j` on are decided exactly when cell `j` is and those after it
      are. */
  lemma {:induction false} CommittedStep(line: Line, j: nat)
    requires j < |line|
    ensures (forall t :: j <= t < |line| ==> line[t] != Blank) <==>
      line[j] != Blank && (forall t :: j + 1 <= t < |line| ==> line[t] != Blank)
  {
  }

  /** The corrected check holds exactly for the lines that realise the hint. */
  lemma {:induction false} LineSolvedFixedExact(h: Hint, line: Line)
    ensures LineSolvedFixed(h, line) <==> Realises(line, h)
  {
    var w := Hint(Wanted(h));
    assert Repeat(Fill, 0) + line[0..] == line;
    SolvedFixedExact(w, line, 0, SolvedStart);
    assert w.blocks[0..] == w.blocks;
    CommittedFrom(line, 0);
    assert line[0..] == line;
  }
}
