/**
  Concrete arrangements that pin down where the loop strategy stops working.
  Because the initial probe is not counted in opened_boxes, a prisoner may open
  prisoners/2 + 1 boxes, so with 100 prisoners a cycle of length 51 is still
  survivable and the first fatal length is 52.
*/
module Scenarios {
  import opened Cycles
  import opened Prisoners

  /** Box i holds its successor within the block [lo, hi), the last box of the block
      holding lo: one cycle of length hi - lo. */
  predicate IsRotationBlock(boxes: seq<nat>, lo: nat, hi: nat)
    requires hi <= |boxes|
  {
    forall i :: lo <= i < hi ==> boxes[i] == (if i + 1 == hi then lo else i + 1)
  }

  /** Within a rotation block, j steps from p advance by j, wrapping once past hi. */
  lemma {:induction false} BlockIter(boxes: seq<nat>, lo: nat, hi: nat, p: nat, j: nat)
    requires InRange(boxes) && hi <= |boxes| && IsRotationBlock(boxes, lo, hi)
    requires lo <= p < hi && j <= hi - lo
    ensures Iter(boxes, p, j) == if p + j < hi then p + j else p + j - (hi - lo)
    decreases j
  {
    if j > 0 {
      BlockIter(boxes, lo, hi, p, j - 1);
    }
  }

  /** Every prisoner of a rotation block lies on a cycle of length hi - lo. */
  lemma BlockCycleLength(boxes: seq<nat>, lo: nat, hi: nat, p: nat)
    requires IsPermutation(boxes) && hi <= |boxes| && IsRotationBlock(boxes, lo, hi)
    requires lo <= p < hi
    ensures CycleLength(boxes, p) == hi - lo
  {
    var c := CycleLength(boxes, p);
    BlockIter(boxes, lo, hi, p, hi - lo);
    if c < hi - lo {
      BlockIter(boxes, lo, hi, p, c);
    }
    assert !(hi - lo < c);
  }

  /** Two cycles: 0 .. c-1 rotated, then c .. n-1 rotated. */
  function TwoCycles(n: nat, c: nat): (boxes: seq<nat>)
    requires c <= n
    ensures |boxes| == n
    ensures IsPermutation(boxes)
    ensures IsRotationBlock(boxes, 0, c) && IsRotationBlock(boxes, c, n)
  {
    seq(n, i requires 0 <= i < n =>
      if i < c then (if i + 1 == c then 0 else i + 1)
      else (if i + 1 == n then c else i + 1))
  }

  /** An arrangement made of a c-cycle and an (n-c)-cycle is a successful trial
      iff both cycle lengths are at most n/2 + 1. */
  lemma TwoCyclesTrial(n: nat, c: nat)
    requires c <= n
    ensures TrialSucceeds(TwoCycles(n, c), n) <==> c <= n / 2 + 1 && n - c <= n / 2 + 1
  {
    var boxes := TwoCycles(n, c);
    forall p | 0 <= p < n
      ensures CycleLength(boxes, p) == if p < c then c else n - c
    {
      if p < c {
        BlockCycleLength(boxes, 0, c, p);
      } else {
        BlockCycleLength(boxes, c, n, p);
      }
    }
    TrialSucceedsIffShortCycles(boxes, n);
    if c > 0 {
      assert CycleLength(boxes, 0) == c;
    }
    if c < n {
      assert CycleLength(boxes, c) == n - c;
    }
  }

  /** With 100 prisoners, a 51-cycle plus a 49-cycle is survived by everyone, while
      a 52-cycle plus a 48-cycle sinks the trial: the longest survivable cycle is
      prisoners/2 + 1, not prisoners/2. */
  lemma HundredPrisonersLongestCycle()
    ensures TrialSucceeds(TwoCycles(100, 51), 100)
    ensures !TrialSucceeds(TwoCycles(100, 52), 100)
  {
    TwoCyclesTrial(100, 51);
    TwoCyclesTrial(100, 52);
  }

  /** A single cycle through all n boxes is survived only when n <= 2. */
  lemma SingleCycleTrial(n: nat)
    ensures TrialSucceeds(TwoCycles(n, n), n) <==> n <= 2
  {
    TwoCyclesTrial(n, n);
  }
}
