/** The line-permutation generator: every placement of a hint's blocks in a
    line of given length, leftmost placements first. */
module Permutations {
  import opened Hints
  import opened Lines

  /** `line` with the `len` cells from `start` on set to `Fill`. */
  function FillRun(line: Line, start: int, len: int): (r: Line)
    ensures |r| == |line|
  {
    seq(|line|, k requires 0 <= k < |line| => if start <= k < start + len then Fill else line[k])
  }

  /** Filling one more cell extends the run by one. */
  lemma {:induction false} FillRunStep(line: Line, start: nat, len: nat)
    requires start + len < |line|
    ensures FillRun(line, start, len)[start + len := Fill] == FillRun(line, start, len + 1)
  {
  }

  /** How many starts block `i` can take from `pos` on while leaving room for
      every later block. */
  function Slack(h: Hint, lineLength: nat, i: nat, pos: int): int
    requires i < h.Length()
  {
    lineLength - (h.Occupation(i + 1) + h.At(i)) - pos
  }

  /** The lines produced from `line` once blocks before `i` are placed and block
      `i` may start no earlier than `pos`. */
  function Place(h: Hint, line: Line, i: nat, pos: int): seq<Line>
    decreases h.Length() - i, 1, 0
  {
    if i >= h.Length() then [line]
    else Starts(h, line, i, pos, pos + Slack(h, |line|, i, pos))
  }

  /** The lines produced by starting block `i` at `pos`, `pos + 1`, ..., `end - 1`,
      in that order; each start fills a copy of `line` and places the later
      blocks at least one cell further on. */
  function Starts(h: Hint, line: Line, i: nat, pos: int, end: int): seq<Line>
    requires i < h.Length()
    decreases h.Length() - i, 0, end - pos
  {
    if end <= pos then []
    else
      var s := end - 1;
      Starts(h, line, i, pos, s) + Place(h, FillRun(line, s, h.At(i)), i + 1, s + h.At(i) + 1)
  }

  /** All placements of `h` in a fresh line of `lineLength` cells. */
  function RowPermutations(h: Hint, lineLength: nat): (ls: seq<Line>)
    ensures forall r | r in ls :: |r| == lineLength
  {
    PlaceLengths(h, NewLine(lineLength), 0, 0);
    Place(h, NewLine(lineLength), 0, 0)
  }

  /** Every generated line has the length of the line it was copied from,
      whatever the blocks. */
  lemma {:induction false} PlaceLengths(h: Hint, line: Line, i: nat, pos: int)
    ensures forall r | r in Place(h, line, i, pos) :: |r| == |line|
    decreases h.Length() - i, 1, 0
  {
    if i < h.Length() {
      StartsLengths(h, line, i, pos, pos + Slack(h, |line|, i, pos));
    }
  }

  lemma {:induction false} StartsLengths(h: Hint, line: Line, i: nat, pos: int, end: int)
    requires i < h.Length()
    ensures forall r | r in Starts(h, line, i, pos, end) :: |r| == |line|
    decreases h.Length() - i, 0, end - pos
  {
    if end > pos {
      var s := end - 1;
      StartsLengths(h, line, i, pos, s);
      PlaceLengths(h, FillRun(line, s, h.At(i)), i + 1, s + h.At(i) + 1);
    }
  }

  function Min(a: int, b: int): int {
    if a <= b then a else b
  }

  /** The part of a generated line the generator may still write: from `pos` on. */
  predicate VoidFrom(line: Line, pos: nat) {
    forall k :: pos <= k < |line| ==> line[k] == Void
  }

  /** What one generated line looks like: the already placed prefix is kept and
      the rest realises the remaining blocks. */
  predicate Shaped(r: Line, line: Line, h: Hint, i: nat, pos: nat)
    requires i <= h.Length()
  {
    var p := Min(pos, |line|);
    && |r| == |line|
    && r[..p] == line[..p]
    && Committed(r[p..])
    && Runs(r[p..]) == h.blocks[i..]
  }

  /** The runs of a line made of a gap, a block of `b` filled cells, and either
      the end of the line or one more non-filled cell followed by `rest`. */
  lemma {:induction false} RunsOfPlacement(r: Line, pos: nat, s: nat, b: nat, q: nat)
    requires pos <= s && 0 < b && s + b <= |r| && q == Min(s + b + 1, |r|)
    requires forall k :: pos <= k < s ==> r[k] == Void
    requires forall k :: s <= k < s + b ==> r[k] == Fill
    requires s + b < |r| ==> r[s + b] == Void
    ensures Runs(r[pos..]) == [b] + Runs(r[q..])
  {
    assert r[pos..] == r[pos..s] + r[s..];
    RunsAfterGap(r[pos..s], r[s..]);
    RunsBlock(r, s, s + b);
    if s + b < |r| {
      RunsSkip(r, s + b);
    }
  }

  /** A line that agrees with `line'` before `q` and is committed from `q` on is
      committed from `pos` on, when `line'` has no blank cell in `[pos, q)`. */
  lemma {:induction false} CommittedJoin(r: Line, line': Line, pos: nat, q: nat)
    requires pos <= q <= |r| == |line'|
    requires r[..q] == line'[..q]
    requires forall k :: pos <= k < q ==> line'[k] != Blank
    requires Committed(r[q..])
    ensures Committed(r[pos..])
  {
    forall k | pos <= k < |r|
      ensures r[k] != Blank
    {
      if k >= q {
        assert r[k] == r[q..][k - q];
      } else {
        assert r[k] == r[..q][k];
      }
    }
  }

  /** Placing block `i` at start `s` and the later blocks after it gives a line
      whose part from `pos` on realises blocks `i..`. */
  lemma {:induction false} StepShaped(h: Hint, line: Line, i: nat, pos: nat, s: nat, r: Line)
    requires h.Positive() && i < h.Length() && VoidFrom(line, pos)
    requires pos <= s < pos + Slack(h, |line|, i, pos)
    requires Shaped(r, FillRun(line, s, h.At(i)), h, i + 1, s + h.At(i) + 1)
    ensures Shaped(r, line, h, i, pos)
  {
    var b := h.At(i);
    var L := |line|;
    assert s + b <= L && pos < L;
    var line' := FillRun(line, s, b);
    var q := Min(s + b + 1, L);
    assert Min(pos, L) == pos;
    assert Min(s + b + 1, |line'|) == q;
    StepFacts(line, line', r, pos, s, b, q);
    assert Runs(r[q..]) == h.blocks[i + 1..];
    assert h.blocks[i..] == [b] + h.blocks[i + 1..];
    assert Runs(r[pos..]) == h.blocks[i..];
  }

  lemma {:induction false} StepFacts(line: Line, line': Line, r: Line, pos: nat, s: nat, b: nat, q: nat)
    requires pos <= s && 0 < b && s + b <= |line| && q == Min(s + b + 1, |line|)
    requires VoidFrom(line, pos)
    requires line' == FillRun(line, s, b)
    requires |r| == |line| && r[..q] == line'[..q] && Committed(r[q..])
    ensures r[..pos] == line[..pos]
    ensures Runs(r[pos..]) == [b] + Runs(r[q..])
    ensures Committed(r[pos..])
  {
    forall k | 0 <= k < q
      ensures r[k] == line'[k]
    {
      assert r[k] == r[..q][k];
    }
    RunsOfPlacement(r, pos, s, b, q);
    CommittedJoin(r, line', pos, q);
  }

  /** Soundness of the generator: every produced line keeps the prefix before
      `pos` and realises blocks `i..` after it. */
  lemma {:induction false} PlaceSound(h: Hint, line: Line, i: nat, pos: nat)
    requires h.Positive() && i <= h.Length() && VoidFrom(line, pos)
    ensures forall r | r in Place(h, line, i, pos) :: Shaped(r, line, h, i, pos)
    decreases h.Length() - i, 1, 0
  {
    if i >= h.Length() {
      var p := Min(pos, |line|);
      NoRuns(line[p..]);
    } else {
      StartsSound(h, line, i, pos, pos + Slack(h, |line|, i, pos));
    }
  }

  lemma {:induction false} StartsSound(h: Hint, line: Line, i: nat, pos: nat, end: int)
    requires h.Positive() && i < h.Length() && VoidFrom(line, pos)
    requires end <= pos + Slack(h, |line|, i, pos)
    ensures forall r | r in Starts(h, line, i, pos, end) :: Shaped(r, line, h, i, pos)
    decreases h.Length() - i, 0, end - pos
  {
    if end > pos {
      var s := end - 1;
      var b := h.At(i);
      var line' := FillRun(line, s, b);
      StartsSound(h, line, i, pos, s);
      PlaceSound(h, line', i + 1, s + b + 1);
      forall r | r in Place(h, line', i + 1, s + b + 1)
        ensures Shaped(r, line, h, i, pos)
      {
        StepShaped(h, line, i, pos, s, r);
      }
    }
  }

  /** Every line the generator produces for a hint with positive blocks, or
      for the lone-zero hint, realises that hint and has the requested
      length. */
  lemma {:induction false} RowPermutationsSound(h: Hint, lineLength: nat)
    requires h.Positive() || h.blocks == [0]
    ensures forall r | r in RowPermutations(h, lineLength) :: |r| == lineLength && Realises(r, h)
  {
    if h.blocks == [0] {
      assert h == Hint([0]);
      ZeroHintPermutations(lineLength);
      RealisesZero(NewLine(lineLength));
    } else {
      var line := NewLine(lineLength);
      PlaceSound(h, line, 0, 0);
      forall r | r in RowPermutations(h, lineLength)
        ensures |r| == lineLength && Realises(r, h)
      {
        assert r[0..] == r;
      }
    }
  }

  /** The lone-zero hint places its empty block at every start from 0 to the
      end of the line, so the generator yields the all-`Void` line once per
      start: `lineLength + 1` equal lines. */
  lemma {:induction false} ZeroHintPermutations(lineLength: nat)
    ensures RowPermutations(Hint([0]), lineLength) == seq(lineLength + 1, _ => NewLine(lineLength))
  {
    var h := Hint([0]);
    assert h.Occupation(1) == -1;
    assert Slack(h, lineLength, 0, 0) == lineLength + 1;
    ZeroStarts(NewLine(lineLength), lineLength + 1);
  }

  lemma {:induction false} ZeroStarts(line: Line, end: nat)
    ensures Starts(Hint([0]), line, 0, 0, end) == seq(end, _ => line)
    decreases end
  {
    if end > 0 {
      ZeroStarts(line, end - 1);
      assert FillRun(line, end - 1, 0) == line;
      assert Place(Hint([0]), line, 1, end) == [line];
      assert seq(end, _ => line) == seq(end - 1, _ => line) + [line];
    }
  }

  /** The first `Fill` cell at or after `p`, or `|t|` when there is none. */
  function FirstFill(t: Line, p: nat): (f: nat)
    requires p <= |t|
    ensures p <= f <= |t|
    ensures forall k :: p <= k < f ==> t[k] != Fill
    ensures f < |t| ==> t[f] == Fill
    decreases |t| - p
  {
    if p == |t| || t[p] == Fill then p else FirstFill(t, p + 1)
  }

  /** A line with a run after `pos` reaches its first filled cell `s` through a
      gap that contributes no run. */
  lemma {:induction false} SkipGap(t: Line, pos: nat) returns (s: nat)
    requires pos <= |t| && Runs(t[pos..]) != []
    ensures pos <= s < |t| && t[s] == Fill
    ensures forall k :: pos <= k < s ==> t[k] != Fill
    ensures Runs(t[pos..]) == Runs(t[s..])
  {
    var u := t[pos..];
    NoRuns(u);
    s := FirstFill(t, pos);
    assert t[pos..] == t[pos..s] + t[s..];
    RunsAfterGap(t[pos..s], t[s..]);
  }

  /** The run starting at a filled cell `s` is maximal and is the first run of
      `t[s..]`. */
  lemma {:induction false} RunAt(t: Line, s: nat) returns (b: nat)
    requires s < |t| && t[s] == Fill
    ensures 0 < b && s + b <= |t|
    ensures forall k :: s <= k < s + b ==> t[k] == Fill
    ensures s + b == |t| || t[s + b] != Fill
    ensures Runs(t[s..]) == [b] + Runs(t[s + b..])
  {
    var v := t[s..];
    assert v[0] == Fill;
    b := LeadingFills(v);
    LeadingFillsCells(v);
    assert Runs(v) == [b] + Runs(v[b..]);
    assert v[b..] == t[s + b..];
    forall k | s <= k < s + b
      ensures t[k] == Fill
    {
      assert t[k] == v[k - s];
    }
    if s + b < |t| {
      assert t[s + b] == v[b];
    }
  }

  /** The first run of a line whose runs from `pos` on are `blocks[i..]`: it
      starts at `s` after a gap and has length `blocks[i]`. */
  lemma {:induction false} FindBlock(t: Line, pos: nat, h: Hint, i: nat) returns (s: nat)
    requires i < h.Length() && pos <= |t|
    requires Runs(t[pos..]) == h.blocks[i..]
    ensures h.At(i) > 0
    ensures pos <= s && s + h.At(i) <= |t|
    ensures forall k :: pos <= k < s ==> t[k] != Fill
    ensures forall k :: s <= k < s + h.At(i) ==> t[k] == Fill
    ensures s + h.At(i) == |t| || t[s + h.At(i)] != Fill
    ensures Runs(t[s + h.At(i)..]) == h.blocks[i + 1..]
  {
    s := SkipGap(t, pos);
    var b := RunAt(t, s);
    assert h.blocks[i..] == [h.At(i)] + h.blocks[i + 1..];
    ConsEqual(b, Runs(t[s + b..]), h.At(i), h.blocks[i + 1..]);
  }

  lemma {:induction false} ConsEqual(a: int, x: seq<int>, b: int, y: seq<int>)
    requires [a] + x == [b] + y
    ensures a == b && x == y
  {
    assert a == ([a] + x)[0];
    assert x == ([a] + x)[1..];
  }

  /** The start found for block `i` is one the generator tries. */
  lemma {:induction false} StartInRange(t: Line, h: Hint, i: nat, pos: nat, s: nat)
    requires h.Positive() && i < h.Length()
    requires pos <= s && s + h.At(i) <= |t|
    requires s + h.At(i) < |t| ==> t[s + h.At(i)] == Void
    requires Runs(t[s + h.At(i)..]) == h.blocks[i + 1..]
    ensures s < pos + Slack(h, |t|, i, pos)
  {
    var b := h.At(i);
    if s + b < |t| {
      RunsSkip(t, s + b);
      RunsLength(t[s + b + 1..], h, i + 1);
    } else {
      assert t[s + b..] == [];
      assert i + 1 == h.Length();
    }
  }

  /** A committed line whose block `i` sits at `[s, s + b)` after a gap agrees
      with the generator's filled copy up to the next start. */
  lemma {:induction false} AgreesWithFilled(line: Line, t: Line, pos: nat, s: nat, b: nat)
    requires VoidFrom(line, pos) && |t| == |line|
    requires pos <= s && s + b <= |t|
    requires t[..pos] == line[..pos]
    requires forall k :: pos <= k < |t| ==> t[k] != Blank
    requires forall k :: pos <= k < s ==> t[k] != Fill
    requires forall k :: s <= k < s + b ==> t[k] == Fill
    requires s + b == |t| || t[s + b] != Fill
    ensures var q := Min(s + b + 1, |t|); t[..q] == FillRun(line, s, b)[..q]
    ensures var q := Min(s + b + 1, |t|); Committed(t[q..])
  {
    var q := Min(s + b + 1, |t|);
    var line' := FillRun(line, s, b);
    forall k | 0 <= k < q
      ensures t[k] == line'[k]
    {
      if k < pos {
        assert t[k] == t[..pos][k] == line[..pos][k];
      }
    }
    CommittedFrom(t, q);
  }

  /** A line that realises blocks `i..` after `pos` starts block `i` at a start
      the generator tries, and agrees with that start's filled copy. */
  lemma {:induction false} CompleteStep(h: Hint, line: Line, i: nat, pos: nat, t: Line) returns (s: nat)
    requires h.Positive() && i < h.Length() && VoidFrom(line, pos)
    requires Shaped(t, line, h, i, pos)
    ensures pos <= s < pos + Slack(h, |line|, i, pos)
    ensures s + h.At(i) <= |line|
    ensures Shaped(t, FillRun(line, s, h.At(i)), h, i + 1, s + h.At(i) + 1)
  {
    var L := |line|;
    var u := t[Min(pos, L)..];
    assert |h.blocks[i..]| > 0;
    assert Runs(u) != [];
    assert |u| > 0;
    assert Min(pos, L) == pos;
    s := FindBlock(t, pos, h, i);
    var b := h.At(i);
    CommittedFrom(t, pos);
    StartInRange(t, h, i, pos, s);
    var q := Min(s + b + 1, L);
    if s + b < L {
      RunsSkip(t, s + b);
    }
    assert Runs(t[q..]) == h.blocks[i + 1..];
    var line' := FillRun(line, s, b);
    assert |line'| == L && Min(s + b + 1, |line'|) == q;
    AgreesWithFilled(line, t, pos, s, b);
    assert t[..q] == line'[..q] && Committed(t[q..]);
  }

  /** Every line the generator reaches from start `s` is among the lines of any
      range of starts that contains `s`. */
  lemma {:induction false} StartsContain(h: Hint, line: Line, i: nat, pos: nat, end: int, s: nat, t: Line)
    requires h.NonNegative() && i < h.Length()
    requires end <= pos + Slack(h, |line|, i, pos)
    requires pos <= s < end
    requires t in Place(h, FillRun(line, s, h.At(i)), i + 1, s + h.At(i) + 1)
    ensures t in Starts(h, line, i, pos, end)
    decreases end - pos
  {
    if s < end - 1 {
      StartsContain(h, line, i, pos, end - 1, s, t);
    }
  }

  /** Once every block is placed, the only line that keeps the prefix and has
      no run after it is the line itself. */
  lemma {:induction false} NothingLeft(h: Hint, line: Line, pos: nat, t: Line)
    requires VoidFrom(line, pos)
    requires Shaped(t, line, h, h.Length(), pos)
    ensures t == line
  {
    var p := Min(pos, |line|);
    assert Runs(t[p..]) == [];
    NoRuns(t[p..]);
    forall k | 0 <= k < |t|
      ensures t[k] == line[k]
    {
      if k < p {
        assert t[k] == t[..p][k];
      } else {
        assert t[k] == t[p..][k - p];
      }
    }
  }

  /** Completeness of the generator: every line that keeps the prefix before
      `pos` and realises blocks `i..` after it is produced. */
  lemma {:induction false} PlaceComplete(h: Hint, line: Line, i: nat, pos: nat, t: Line)
    requires h.Positive() && i <= h.Length() && VoidFrom(line, pos)
    requires Shaped(t, line, h, i, pos)
    ensures t in Place(h, line, i, pos)
    decreases h.Length() - i
  {
    if i == h.Length() {
      NothingLeft(h, line, pos, t);
    } else {
      var s := CompleteStep(h, line, i, pos, t);
      var b := h.At(i);
      var line' := FillRun(line, s, b);
      PlaceComplete(h, line', i + 1, s + b + 1, t);
      var end := pos + Slack(h, |line|, i, pos);
      StartsContain(h, line, i, pos, end, s, t);
      assert Place(h, line, i, pos) == Starts(h, line, i, pos, end);
    }
  }

  /** For a hint with positive blocks, or the lone-zero hint, the generator
      produces exactly the lines of the given length that realise the hint. */
  lemma {:induction false} RowPermutationsExact(h: Hint, lineLength: nat, t: Line)
    requires h.Positive() || h.blocks == [0]
    ensures t in RowPermutations(h, lineLength) <==> |t| == lineLength && Realises(t, h)
  {
    RowPermutationsSound(h, lineLength);
    if |t| == lineLength && Realises(t, h) {
      if h.blocks == [0] {
        assert h == Hint([0]);
        RealisesZero(t);
        ZeroHintPermutations(lineLength);
        assert t == NewLine(lineLength);
        assert RowPermutations(h, lineLength)[0] == t;
      } else {
        assert t[0..] == t;
        PlaceComplete(h, NewLine(lineLength), 0, 0, t);
      }
    }
  }

  /** `a` comes before `b` in placement order: at the first cell where they
      differ, `a` has its block and `b` does not. */
  predicate FillsFirst(a: Line, b: Line) {
    exists k :: 0 <= k < |a| && k < |b| && a[..k] == b[..k] && a[k] == Fill && b[k] != Fill
  }

  predicate StrictlyOrdered(lines: seq<Line>) {
    forall p, q :: 0 <= p < q < |lines| ==> FillsFirst(lines[p], lines[q])
  }

  lemma {:induction false} OrderedConcat(a: seq<Line>, b: seq<Line>, c: seq<Line>)
    requires StrictlyOrdered(a) && StrictlyOrdered(b)
    requires forall x, y | x in a && y in b :: FillsFirst(x, y)
    requires c == a + b
    ensures StrictlyOrdered(c)
  {
    forall p, q | 0 <= p < q < |c|
      ensures FillsFirst(c[p], c[q])
    {
      if q < |a| {
        assert c[p] == a[p] && c[q] == a[q];
      } else if p >= |a| {
        assert c[p] == b[p - |a|] && c[q] == b[q - |a|];
      } else {
        assert c[p] == a[p] && c[q] == b[q - |a|];
      }
    }
  }

  /** The first filled cell from `pos` on is the first one the scan meets. */
  lemma {:induction false} FirstFillIs(x: Line, pos: nat, f: nat)
    requires pos <= f < |x| && x[f] == Fill
    requires forall k :: pos <= k < f ==> x[k] != Fill
    ensures FirstFill(x, pos) == f
    decreases f - pos
  {
    if pos < f {
      FirstFillIs(x, pos + 1, f);
    }
  }

  /** Every line reached from the starts `pos .. end - 1` has its first filled
      cell from `pos` on before `end`, and keeps `line` up to that cell. */
  lemma {:induction false} StartsFirstFill(h: Hint, line: Line, i: nat, pos: nat, end: int)
    requires h.Positive() && i < h.Length() && VoidFrom(line, pos)
    requires end <= pos + Slack(h, |line|, i, pos)
    ensures forall x | x in Starts(h, line, i, pos, end) ::
      |x| == |line| && pos < |x| && FirstFill(x, pos) < end && x[..FirstFill(x, pos)] == line[..FirstFill(x, pos)]
    decreases end - pos
  {
    if end > pos {
      var s := end - 1;
      var b := h.At(i);
      var line' := FillRun(line, s, b);
      StartsFirstFill(h, line, i, pos, s);
      PlaceSound(h, line', i + 1, s + b + 1);
      forall x | x in Place(h, line', i + 1, s + b + 1)
        ensures |x| == |line| && pos < |x| && FirstFill(x, pos) < end && x[..FirstFill(x, pos)] == line[..FirstFill(x, pos)]
      {
        assert Shaped(x, line', h, i + 1, s + b + 1);
        BlockAtStart(line, x, s, b);
        forall k | pos <= k < s
          ensures x[k] != Fill
        {
          assert x[k] == x[..s][k] == line[..s][k];
        }
        FirstFillIs(x, pos, s);
      }
    }
  }

  /** A line whose block sits at `f` comes before any line that keeps `line`
      up to a later start `s`. */
  lemma {:induction false} EarlierStartFirst(line: Line, x: Line, y: Line, pos: nat, f: nat, s: nat, b: nat)
    requires VoidFrom(line, pos) && pos <= f < s && s + b <= |line|
    requires f < |x| && x[..f] == line[..f] && x[f] == Fill
    requires var q := Min(s + b + 1, |line|); |y| == |line| && y[..q] == FillRun(line, s, b)[..q]
    ensures FillsFirst(x, y)
  {
    var q := Min(s + b + 1, |line|);
    var line' := FillRun(line, s, b);
    assert y[f] == y[..q][f] == line'[f] == Void;
    assert y[..f] == line[..f] by {
      forall k | 0 <= k < f
        ensures y[k] == line[k]
      {
        assert y[k] == y[..q][k] == line'[k];
      }
    }
  }

  /** A line that keeps the filled copy of `line` up to the next start has its
      block at `s` and `line`'s cells before it. */
  lemma {:induction false} BlockAtStart(line: Line, x: Line, s: nat, b: nat)
    requires 0 < b && s + b <= |line|
    requires var q := Min(s + b + 1, |line|); |x| == |line| && x[..q] == FillRun(line, s, b)[..q]
    ensures s < |x| && x[..s] == line[..s] && x[s] == Fill
  {
    var q := Min(s + b + 1, |line|);
    var line' := FillRun(line, s, b);
    assert x[s] == x[..q][s] == line'[s];
    forall k | 0 <= k < s
      ensures x[k] == line[k]
    {
      assert x[k] == x[..q][k] == line'[k];
    }
  }

  /** The generator's lines come out in placement order, leftmost placements
      first. */
  lemma {:induction false} PlaceOrdered(h: Hint, line: Line, i: nat, pos: nat)
    requires h.Positive() && i <= h.Length() && VoidFrom(line, pos)
    ensures StrictlyOrdered(Place(h, line, i, pos))
    decreases h.Length() - i, 1, 0
  {
    if i < h.Length() {
      StartsOrdered(h, line, i, pos, pos + Slack(h, |line|, i, pos));
    }
  }

  lemma {:induction false} StartsOrdered(h: Hint, line: Line, i: nat, pos: nat, end: int)
    requires h.Positive() && i < h.Length() && VoidFrom(line, pos)
    requires end <= pos + Slack(h, |line|, i, pos)
    ensures StrictlyOrdered(Starts(h, line, i, pos, end))
    decreases h.Length() - i, 0, end - pos
  {
    if end > pos {
      var s := end - 1;
      var b := h.At(i);
      var line' := FillRun(line, s, b);
      assert VoidFrom(line', s + b + 1);
      StartsOrdered(h, line, i, pos, s);
      PlaceOrdered(h, line', i + 1, s + b + 1);
      StartsOrderedStep(h, line, i, pos, s);
    }
  }

  /** Adding the lines of start `s` after those of the earlier starts keeps the
      order. */
  lemma {:induction false} StartsOrderedStep(h: Hint, line: Line, i: nat, pos: nat, s: nat)
    requires h.Positive() && i < h.Length() && VoidFrom(line, pos)
    requires pos <= s < pos + Slack(h, |line|, i, pos)
    requires StrictlyOrdered(Starts(h, line, i, pos, s))
    requires StrictlyOrdered(Place(h, FillRun(line, s, h.At(i)), i + 1, s + h.At(i) + 1))
    ensures StrictlyOrdered(Starts(h, line, i, pos, s + 1))
  {
    var b := h.At(i);
    var before := Starts(h, line, i, pos, s);
    var here := Place(h, FillRun(line, s, b), i + 1, s + b + 1);
    assert Starts(h, line, i, pos, s + 1) == before + here;
    EarlierStartsFirst(h, line, i, pos, s);
    OrderedConcat(before, here, Starts(h, line, i, pos, s + 1));
  }

  /** Every line from the starts before `s` comes before every line from start
      `s`. */
  lemma {:induction false} EarlierStartsFirst(h: Hint, line: Line, i: nat, pos: nat, s: nat)
    requires h.Positive() && i < h.Length() && VoidFrom(line, pos)
    requires pos <= s < pos + Slack(h, |line|, i, pos)
    ensures forall x, y | x in Starts(h, line, i, pos, s) &&
      y in Place(h, FillRun(line, s, h.At(i)), i + 1, s + h.At(i) + 1) :: FillsFirst(x, y)
  {
    var b := h.At(i);
    var line' := FillRun(line, s, b);
    StartsFirstFill(h, line, i, pos, s);
    PlacePrefix(h, line', i + 1, s + b + 1);
    CrossFirst(line, pos, s, b, Starts(h, line, i, pos, s), Place(h, line', i + 1, s + b + 1));
  }

  /** Every generated line keeps the given line up to the next start. */
  lemma {:induction false} PlacePrefix(h: Hint, line: Line, i: nat, pos: nat)
    requires h.Positive() && i <= h.Length() && VoidFrom(line, pos)
    ensures forall y | y in Place(h, line, i, pos) ::
      var q := Min(pos, |line|); |y| == |line| && y[..q] == line[..q]
  {
    PlaceSound(h, line, i, pos);
  }

  /** Lines whose first block lies before `s` come before lines that keep the
      filled copy of `line` with block start `s`. */
  lemma {:induction false} CrossFirst(line: Line, pos: nat, s: nat, b: nat, a: seq<Line>, c: seq<Line>)
    requires VoidFrom(line, pos) && pos <= s && 0 < b && s + b <= |line|
    requires forall x | x in a ::
      |x| == |line| && pos < |x| && FirstFill(x, pos) < s && x[..FirstFill(x, pos)] == line[..FirstFill(x, pos)]
    requires forall y | y in c ::
      var q := Min(s + b + 1, |line|); |y| == |line| && y[..q] == FillRun(line, s, b)[..q]
    ensures forall x, y | x in a && y in c :: FillsFirst(x, y)
  {
    forall x, y | x in a && y in c
      ensures FillsFirst(x, y)
    {
      EarlierStartFirst(line, x, y, pos, FirstFill(x, pos), s, b);
    }
  }

  /** For positive blocks the generated lines are strictly ordered, leftmost
      placements first, and hence pairwise distinct. */
  lemma {:induction false} RowPermutationsOrdered(h: Hint, lineLength: nat)
    requires h.Positive()
    ensures StrictlyOrdered(RowPermutations(h, lineLength))
    ensures forall p, q :: 0 <= p < q < |RowPermutations(h, lineLength)| ==>
      RowPermutations(h, lineLength)[p] != RowPermutations(h, lineLength)[q]
  {
    PlaceOrdered(h, NewLine(lineLength), 0, 0);
  }

  /** The list-building generator: appends to `acc` every placement of blocks
      `hintIdx..` into copies of `states`, block `hintIdx` starting at
      `posIdx` or later, in the lazy generator's order. */
  method Collect(h: Hint, states: Line, hintIdx: nat, posIdx: nat, acc: seq<Line>) returns (perms: seq<Line>)
    requires h.NonNegative() && hintIdx <= h.Length()
    ensures perms == acc + Place(h, states, hintIdx, posIdx)
    decreases h.Length() - hintIdx
  {
    if hintIdx >= h.Length() {
      perms := acc + [states];
      return;
    }
    var b := h.At(hintIdx);
    var k := |states| - (h.Occupation(hintIdx + 1) + b) - posIdx;
    perms := acc;
    var i := posIdx;
    while i < posIdx + k
      invariant posIdx <= i
      invariant i == posIdx || i <= posIdx + k
      invariant perms == acc + Starts(h, states, hintIdx, posIdx, i)
      decreases posIdx + k - i
    {
      var newState := FillCopy(states, i, b);
      perms := Collect(h, newState, hintIdx + 1, i + b + 1, perms);
      i := i + 1;
    }
  }

  /** A copy of `line` with `len` cells from `start` on filled, one cell at a
      time. */
  method FillCopy(line: Line, start: nat, len: nat) returns (r: Line)
    requires start + len <= |line|
    ensures r == FillRun(line, start, len)
  {
    r := line;
    var j := 0;
    while j < len
      invariant 0 <= j <= len
      invariant r == FillRun(line, start, j)
    {
      FillRunStep(line, start, j);
      r := r[start + j := Fill];
      j := j + 1;
    }
  }

  /** The list-building entry point returns exactly the lazy generator's lines,
      in the same order. */
  method GenerateLinePermutations(h: Hint, lineLength: nat) returns (permutations: seq<Line>)
    requires h.NonNegative()
    ensures permutations == RowPermutations(h, lineLength)
  {
    var states := seq(lineLength, _ => Void);
    permutations := Collect(h, states, 0, 0, []);
  }
}
