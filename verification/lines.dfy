/** Cell states and the reference meaning of a line: the lengths of its maximal
    runs of filled cells. */
module Lines {
  import opened Hints

  /** A cell is not yet committed (`Blank`, code -1), filled (`Fill`, code 1) or
      committed empty (`Void`, code 0). */
  datatype CellState = Blank | Fill | Void

  type Line = seq<CellState>

  /** The integer the enumeration gives each state. */
  function Code(c: CellState): int {
    match c
    case Blank => -1
    case Fill => 1
    case Void => 0
  }

  /** The state a freshly allocated cell array holds: the member whose code is 0. */
  function DefaultCell(): (c: CellState)
    ensures Code(c) == 0
    ensures forall d: CellState :: Code(d) == 0 ==> d == c
  {
    Void
  }

  /** A freshly allocated line of `n` cells. */
  function NewLine(n: nat): (r: Line)
    ensures |r| == n
    ensures forall k :: 0 <= k < n ==> Code(r[k]) == 0
  {
    seq(n, _ => DefaultCell())
  }

  function Repeat(c: CellState, n: nat): (r: Line)
    ensures |r| == n
    ensures forall k :: 0 <= k < n ==> r[k] == c
  {
    seq(n, _ => c)
  }

  /** Every cell of the line has been decided (no `Blank`). */
  predicate Committed(line: Line) {
    forall k :: 0 <= k < |line| ==> line[k] != Blank
  }

  /** A suffix is committed exactly when every cell from its start on is. */
  lemma {:induction false} CommittedFrom(line: Line, p: nat)
    requires p <= |line|
    ensures Committed(line[p..]) <==> forall k :: p <= k < |line| ==> line[k] != Blank
  {
    var t := line[p..];
    if Committed(t) {
      forall k | p <= k < |line|
        ensures line[k] != Blank
      {
        assert line[k] == t[k - p];
      }
    }
    if forall k :: p <= k < |line| ==> line[k] != Blank {
      forall k | 0 <= k < |t|
        ensures t[k] != Blank
      {
        assert t[k] == line[p + k];
      }
    }
  }

  /** The number of `Fill` cells the line starts with. */
  function LeadingFills(line: Line): (n: nat)
    ensures n <= |line|
  {
    if |line| == 0 || line[0] != Fill then 0 else 1 + LeadingFills(line[1..])
  }

  /** `LeadingFills` counts a maximal prefix of `Fill` cells. */
  lemma {:induction false} LeadingFillsCells(line: Line)
    ensures forall k :: 0 <= k < LeadingFills(line) ==> line[k] == Fill
    ensures LeadingFills(line) < |line| ==> line[LeadingFills(line)] != Fill
    decreases |line|
  {
    if |line| > 0 && line[0] == Fill {
      var t := line[1..];
      LeadingFillsCells(t);
      forall k | 1 <= k < LeadingFills(line)
        ensures line[k] == Fill
      {
        assert line[k] == t[k - 1];
      }
      if LeadingFills(line) < |line| {
        assert line[LeadingFills(line)] == t[LeadingFills(t)];
      }
    }
  }

  /** The lengths of the maximal runs of `Fill` cells, left to right. */
  function Runs(line: Line): seq<int>
    decreases |line|
  {
    if |line| == 0 then []
    else if line[0] != Fill then Runs(line[1..])
    else
      var n := LeadingFills(line);
      [n] + Runs(line[n..])
  }

  /** Every run has at least one cell. */
  lemma {:induction false} RunsPositive(line: Line)
    ensures forall k :: 0 <= k < |Runs(line)| ==> Runs(line)[k] >= 1
    decreases |line|
  {
    if |line| > 0 {
      if line[0] != Fill {
        RunsPositive(line[1..]);
      } else {
        var n := LeadingFills(line);
        assert n >= 1 by {
          assert LeadingFills(line) == 1 + LeadingFills(line[1..]);
        }
        RunsPositive(line[n..]);
      }
    }
  }

  /** The runs a hint asks for. A hint file can only write an empty line as
      `0,`, and the checks read a lone 0 as "no run": that hint asks for no
      run. Every other hint asks for its entries as they stand. */
  function Wanted(h: Hint): seq<int> {
    if h.blocks == [0] then [] else h.blocks
  }

  /** The line is committed and its runs are the ones the hint asks for. */
  predicate Realises(line: Line, h: Hint) {
    Committed(line) && Runs(line) == Wanted(h)
  }

  /** A line meets the lone-zero hint exactly when it is all `Void`. */
  lemma {:induction false} RealisesZero(line: Line)
    ensures Realises(line, Hint([0])) <==> forall k :: 0 <= k < |line| ==> line[k] == Void
  {
    NoRuns(line);
  }

  /** A cell that is not filled contributes no run. */
  lemma {:induction false} RunsSkip(line: Line, m: nat)
    requires m < |line| && line[m] != Fill
    ensures Runs(line[m..]) == Runs(line[m + 1..])
  {
    assert line[m..][1..] == line[m + 1..];
  }

  /** A maximal run `[a, b)` of `Fill` cells is the first run of `line[a..]`. */
  lemma {:induction false} RunsBlock(line: Line, a: nat, b: nat)
    requires a < b <= |line|
    requires forall k :: a <= k < b ==> line[k] == Fill
    requires b == |line| || line[b] != Fill
    ensures Runs(line[a..]) == [b - a] + Runs(line[b..])
  {
    var s := line[a..];
    FillsPrefix(s, b - a);
    assert s[b - a..] == line[b..];
  }

  lemma {:induction false} FillsPrefix(s: Line, n: nat)
    requires 0 < n <= |s|
    requires forall k :: 0 <= k < n ==> s[k] == Fill
    requires n == |s| || s[n] != Fill
    ensures LeadingFills(s) == n
    decreases n
  {
    if n > 1 {
      FillsPrefix(s[1..], n - 1);
    }
  }

  /** A line has no runs exactly when it has no `Fill` cell. */
  lemma {:induction false} NoRuns(line: Line)
    ensures Runs(line) == [] <==> forall k :: 0 <= k < |line| ==> line[k] != Fill
    decreases |line|
  {
    if |line| > 0 {
      if line[0] != Fill {
        var t := line[1..];
        NoRuns(t);
        if forall k :: 0 <= k < |t| ==> t[k] != Fill {
          forall k | 0 <= k < |line|
            ensures line[k] != Fill
          {
            if k > 0 {
              assert line[k] == t[k - 1];
            }
          }
        }
        if forall k :: 0 <= k < |line| ==> line[k] != Fill {
          forall k | 0 <= k < |t|
            ensures t[k] != Fill
          {
            assert t[k] == line[k + 1];
          }
        }
      }
    }
  }

  /** The runs of a line that starts with `n` non-filled cells. */
  lemma {:induction false} RunsAfterGap(gap: Line, rest: Line)
    requires forall k :: 0 <= k < |gap| ==> gap[k] != Fill
    ensures Runs(gap + rest) == Runs(rest)
    decreases |gap|
  {
    if |gap| > 0 {
      assert (gap + rest)[1..] == gap[1..] + rest;
      RunsAfterGap(gap[1..], rest);
    } else {
      assert gap + rest == rest;
    }
  }

  /** A line whose runs are blocks `p..` of a hint is at least as long as those
      blocks' occupation. */
  lemma {:induction false} RunsLength(y: Line, h: Hint, p: nat)
    requires p <= h.Length()
    requires Runs(y) == h.blocks[p..]
    ensures |y| >= h.Occupation(p)
    decreases |y|
  {
    if |y| == 0 {
      assert p == h.Length();
    } else if y[0] != Fill {
      RunsSkip(y, 0);
      RunsLength(y[1..], h, p);
    } else {
      var n := LeadingFills(y);
      LeadingFillsCells(y);
      assert h.blocks[p..][0] == n;
      OccupationStep(h, p);
      assert Runs(y[n..]) == h.blocks[p + 1..];
      if n < |y| {
        RunsSkip(y, n);
        RunsLength(y[n + 1..], h, p + 1);
      } else {
        assert p + 1 == h.Length();
      }
    }
  }

  /** Blocks `p..` packed as tightly as possible: one `Void` between neighbours. */
  function Packed(h: Hint, p: nat): Line
    requires h.NonNegative() && p < h.Length()
    decreases h.Length() - p
  {
    Repeat(Fill, h.At(p)) + (if p + 1 < h.Length() then [Void] + Packed(h, p + 1) else [])
  }

  /** The packed line realises blocks `p..` in exactly their occupation, so the
      occupation is the least length any realising line can have. */
  lemma PackedIsTight(h: Hint, p: nat)
    requires h.Positive() && p < h.Length()
    ensures h.NonNegative()
    ensures Runs(Packed(h, p)) == h.blocks[p..]
    ensures |Packed(h, p)| == h.Occupation(p)
  {
    PackedRuns(h, p);
    PackedLength(h, p);
  }

  lemma {:induction false} PackedRuns(h: Hint, p: nat)
    requires h.Positive() && p < h.Length()
    ensures h.NonNegative()
    ensures Runs(Packed(h, p)) == h.blocks[p..]
    decreases h.Length() - p
  {
    var b := h.At(p);
    assert h.blocks[p..] == [b] + h.blocks[p + 1..];
    if p + 1 < h.Length() {
      var s := [Void] + Packed(h, p + 1);
      assert Packed(h, p) == Repeat(Fill, b) + s;
      CarryClose(b, s);
      assert s[1..] == Packed(h, p + 1);
      PackedRuns(h, p + 1);
    } else {
      assert Packed(h, p) == Repeat(Fill, b) + [];
      CarryEnd(b);
    }
  }

  lemma {:induction false} PackedLength(h: Hint, p: nat)
    requires h.NonNegative() && p < h.Length()
    ensures |Packed(h, p)| == h.Occupation(p)
    decreases h.Length() - p
  {
    OccupationStep(h, p);
    if p + 1 < h.Length() {
      PackedLength(h, p + 1);
    }
  }

  /** A run carried into `s` (the `count` filled cells just before it) grows by
      one when `s` starts with a filled cell. */
  lemma {:induction false} CarryFill(count: nat, s: Line)
    requires |s| > 0 && s[0] == Fill
    ensures Repeat(Fill, count) + s == Repeat(Fill, count + 1) + s[1..]
  {
    var u := Repeat(Fill, count) + s;
    var v := Repeat(Fill, count + 1) + s[1..];
    assert |u| == |v|;
    forall k | 0 <= k < |u|
      ensures u[k] == v[k]
    {
      if k > count {
        assert u[k] == s[k - count] == s[1..][k - count - 1] == v[k];
      }
    }
  }

  /** A carried run of `count > 0` cells ends at the first cell of `s` that is
      not filled, and is the first run of the joined line. */
  lemma {:induction false} CarryClose(count: nat, s: Line)
    requires count > 0 && |s| > 0 && s[0] != Fill
    ensures Runs(Repeat(Fill, count) + s) == [count] + Runs(s[1..])
  {
    var u := Repeat(Fill, count) + s;
    assert forall k :: 0 <= k < count ==> u[k] == Fill;
    assert u[count] == s[0];
    RunsBlock(u, 0, count);
    assert u[0..] == u;
    assert u[count..] == s;
    RunsSkip(s, 0);
    assert s[0..] == s;
  }

  /** The runs of a carried run alone. */
  lemma {:induction false} CarryEnd(count: nat)
    ensures Runs(Repeat(Fill, count) + []) == if count > 0 then [count] else []
  {
    var u := Repeat(Fill, count) + [];
    assert u == Repeat(Fill, count);
    if count > 0 {
      RunsBlock(u, 0, count);
      assert u[0..] == u;
      assert u[count..] == [];
    }
  }

  /** A carried run of `count > 0` cells is the start of the first run of the
      joined line, which is therefore at least `count` long. */
  lemma {:induction false} CarryFirst(count: nat, s: Line)
    requires count > 0
    ensures |Runs(Repeat(Fill, count) + s)| > 0
    ensures Runs(Repeat(Fill, count) + s)[0] >= count
  {
    var u := Repeat(Fill, count) + s;
    assert u[0] == Fill;
    LeadingFillsCells(u);
    var n := LeadingFills(u);
    assert Runs(u) == [n] + Runs(u[n..]);
    assert n >= count by {
      assert forall t :: 0 <= t < count ==> u[t] == Fill;
    }
  }
}
