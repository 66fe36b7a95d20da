/** Line hints: the ordered block lengths of one row or column, and the sets of
    hints for all rows or all columns. */
module Hints {
  import opened Failures

  /** The sum of `blocks[p..]`, accumulated left to right as the hint's loop does;
      zero once `p` has passed the last block. */
  function SumFrom(blocks: seq<int>, p: nat): (r: int)
    ensures (forall i :: p <= i < |blocks| ==> blocks[i] >= 0) ==> r >= 0
    decreases |blocks| - p
  {
    if p >= |blocks| then 0 else blocks[p] + SumFrom(blocks, p + 1)
  }

  /** The block lengths of one line, leftmost block first. */
  datatype Hint = Hint(blocks: seq<int>) {

    function Length(): nat {
      |blocks|
    }

    function At(i: nat): int
      requires i < Length()
    {
      blocks[i]
    }

    /** The indexer: block `i`, or the exception an array read outside its
        bounds raises. */
    function Index(i: int): (r: Result<int>)
      ensures r.Ok? <==> 0 <= i < Length()
      ensures r.Ok? ==> r.value == blocks[i]
      ensures r.Err? ==> r.fault == IndexOutOfRange
    {
      if 0 <= i < |blocks| then Ok(blocks[i]) else Err(IndexOutOfRange)
    }

    predicate NonNegative() {
      forall i :: 0 <= i < |blocks| ==> blocks[i] >= 0
    }

    predicate Positive() {
      forall i :: 0 <= i < |blocks| ==> blocks[i] > 0
    }

    /** The least number of cells that blocks `p..` need, counting one separating
        cell between neighbours. The default argument covers the whole hint. */
    function Occupation(p: nat := 0): (r: int)
      ensures p >= Length() ==> r == Length() - 1 - p
      ensures p == Length() ==> r == -1
      ensures NonNegative() && p < Length() ==> r >= blocks[p]
      ensures NonNegative() && p <= Length() ==> r >= -1
    {
      SumFrom(blocks, p) + (Length() - 1 - p)
    }
  }

  /** The occupation of blocks `p..` is block `p`, one gap, and the occupation of
      the blocks after it. */
  lemma {:induction false} OccupationStep(h: Hint, p: nat)
    requires p < h.Length()
    ensures h.Occupation(p) == h.At(p) + 1 + h.Occupation(p + 1)
  {
  }

  /** With non-negative blocks, dropping more leading blocks strictly lowers the
      occupation: each dropped block frees its length plus one gap. */
  lemma {:induction false} OccupationDecreasing(h: Hint, p: nat, q: nat)
    requires h.NonNegative()
    requires p < q <= h.Length()
    ensures h.Occupation(q) < h.Occupation(p)
    decreases q - p
  {
    OccupationStep(h, p);
    if p + 1 < q {
      OccupationDecreasing(h, p + 1, q);
    }
  }

  /** One hint per line of a dimension (all rows, or all columns). */
  datatype HintSet = HintSet(hints: seq<Hint>) {

    function Length(): nat {
      |hints|
    }

    function At(i: nat): Hint
      requires i < Length()
    {
      hints[i]
    }
  }
}
