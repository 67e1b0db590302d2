/**
  The "100 prisoners" simulation of src/main.rs: the loop strategy, the bounded
  per-prisoner search, the all-prisoners trial outcome, and the count of
  successful trials over a given sequence of box arrangements.

  Box arrangements are immutable sequences; the source never writes to the
  vector once it is shuffled, so passing it by value loses nothing.
*/
module Prisoners {
  import opened Cycles

  datatype Option<T> = None | Some(value: T)

  /** Loop strategy (src/main.rs:73-78): open the prisoner's own box first, then
      the box whose index is the number just revealed. */
  function LoopStrategy(boxes: seq<nat>, prisoner: nat, previous: Option<nat>): (r: nat)
    requires previous.None? ==> prisoner < |boxes|
    requires previous.Some? ==> previous.value < |boxes|
    ensures previous.None? ==> r == boxes[prisoner]
    ensures previous.Some? ==> r == boxes[previous.value]
    ensures InRange(boxes) ==> r < |boxes|
  {
    match previous
    case Some(prev) => boxes[prev]
    case None => boxes[prisoner]
  }

  /** Fed its own answers, the loop strategy walks the cycle of sigma through p:
      the first probe reveals sigma(p), and a probe after sigma^k(p) reveals sigma^(k+1)(p). */
  lemma LoopStrategyFollowsCycle(boxes: seq<nat>, p: nat, k: nat)
    requires InRange(boxes) && p < |boxes|
    ensures LoopStrategy(boxes, p, None) == Iter(boxes, p, 1)
    ensures LoopStrategy(boxes, p, Some(Iter(boxes, p, k))) == Iter(boxes, p, k + 1)
  {
  }

  /** Prisoner p finds their number: the initial probe plus at most prisoners/2
      further probes reveal p, i.e. sigma^j(p) == p for some 1 <= j <= prisoners/2 + 1. */
  predicate PrisonerSucceeds(boxes: seq<nat>, prisoners: nat, p: nat)
    requires InRange(boxes) && p < |boxes|
  {
    ReturnsWithin(boxes, p, prisoners / 2 + 1)
  }

  /** One prisoner's search (the closure body at src/main.rs:55-63). Returns
      whether p found their number and the final value of opened_boxes, the
      count of probes after the initial one. */
  method SearchBoxes(boxes: seq<nat>, prisoners: nat, p: nat) returns (found: bool, openedBoxes: nat)
    requires InRange(boxes) && p < |boxes|
    ensures openedBoxes <= prisoners / 2
    ensures found == PrisonerSucceeds(boxes, prisoners, p)
    ensures found ==> Iter(boxes, p, openedBoxes + 1) == p
    ensures forall j :: 1 <= j <= openedBoxes ==> Iter(boxes, p, j) != p
    ensures !found ==> openedBoxes == prisoners / 2
    ensures IsPermutation(boxes) ==> (found <==> CycleLength(boxes, p) <= prisoners / 2 + 1)
    ensures IsPermutation(boxes) && found ==> openedBoxes + 1 == CycleLength(boxes, p)
  {
    openedBoxes := 0;
    var contents := LoopStrategy(boxes, p, None);
    while contents != p && openedBoxes < prisoners / 2
      invariant openedBoxes <= prisoners / 2
      invariant contents == Iter(boxes, p, openedBoxes + 1)
      invariant forall j :: 1 <= j <= openedBoxes ==> Iter(boxes, p, j) != p
      decreases prisoners / 2 - openedBoxes
    {
      openedBoxes := openedBoxes + 1;
      contents := LoopStrategy(boxes, p, Some(contents));
    }
    found := contents == p;
    if !found {
      assert forall j :: 1 <= j <= prisoners / 2 + 1 ==> Iter(boxes, p, j) != p;
    }
    if IsPermutation(boxes) {
      ReturnsWithinIffCycleLength(boxes, p, prisoners / 2 + 1);
    }
  }

  /** Number of prisoners among 0 .. k-1 who find their number (the
      map/filter/count pipeline at src/main.rs:53-66). */
  function SuccessCount(boxes: seq<nat>, prisoners: nat, k: nat): (c: nat)
    requires InRange(boxes) && k <= |boxes|
    ensures c <= k
    ensures c == k <==> forall p :: 0 <= p < k ==> PrisonerSucceeds(boxes, prisoners, p)
    decreases k
  {
    if k == 0 then 0
    else SuccessCount(boxes, prisoners, k - 1) + (if PrisonerSucceeds(boxes, prisoners, k - 1) then 1 else 0)
  }

  /** A trial succeeds when the success count equals the number of prisoners (src/main.rs:69). */
  predicate TrialSucceeds(boxes: seq<nat>, prisoners: nat)
    requires InRange(boxes) && prisoners <= |boxes|
  {
    SuccessCount(boxes, prisoners, prisoners) == prisoners
  }

  /** On a permutation, a trial succeeds iff every prisoner's cycle has length at
      most prisoners/2 + 1. */
  lemma TrialSucceedsIffShortCycles(boxes: seq<nat>, prisoners: nat)
    requires IsPermutation(boxes) && prisoners <= |boxes|
    ensures TrialSucceeds(boxes, prisoners) <==>
              forall p :: 0 <= p < prisoners ==> CycleLength(boxes, p) <= prisoners / 2 + 1
  {
    forall p | 0 <= p < prisoners
      ensures PrisonerSucceeds(boxes, prisoners, p) <==> CycleLength(boxes, p) <= prisoners / 2 + 1
    {
      ReturnsWithinIffCycleLength(boxes, p, prisoners / 2 + 1);
    }
  }

  /** apply_strategy with the loop strategy (src/main.rs:47-70): run every
      prisoner's search against one arrangement and report whether all succeeded. */
  method ApplyStrategy(boxes: seq<nat>, prisoners: nat) returns (success: bool)
    requires InRange(boxes) && prisoners <= |boxes|
    ensures success == TrialSucceeds(boxes, prisoners)
    ensures success <==> forall p :: 0 <= p < prisoners ==> PrisonerSucceeds(boxes, prisoners, p)
    ensures IsPermutation(boxes) ==>
              (success <==> forall p :: 0 <= p < prisoners ==> CycleLength(boxes, p) <= prisoners / 2 + 1)
  {
    var successCount := 0;
    for p := 0 to prisoners
      invariant successCount == SuccessCount(boxes, prisoners, p)
    {
      var found, _ := SearchBoxes(boxes, prisoners, p);
      if found {
        successCount := successCount + 1;
      }
    }
    success := successCount == prisoners;
    if IsPermutation(boxes) {
      TrialSucceedsIffShortCycles(boxes, prisoners);
    }
  }

  /** The boxes in order, before any shuffle: box i holds i. */
  function Identity(n: nat): (boxes: seq<nat>)
    ensures |boxes| == n && forall i :: 0 <= i < n ==> boxes[i] == i
  {
    seq(n, i requires 0 <= i < n => i)
  }

  /** With the unshuffled arrangement every cycle has length 1, so every
      prisoner succeeds on the first probe and the trial succeeds. */
  lemma IdentityTrialSucceeds(n: nat)
    ensures IsPermutation(Identity(n))
    ensures forall p :: 0 <= p < n ==> CycleLength(Identity(n), p) == 1
    ensures TrialSucceeds(Identity(n), n)
  {
    var boxes := Identity(n);
    forall p | 0 <= p < n
      ensures CycleLength(boxes, p) == 1 && PrisonerSucceeds(boxes, n, p)
    {
      assert Iter(boxes, p, 1) == p;
    }
  }

  /** With at most two prisoners the budget prisoners/2 + 1 covers every cycle,
      so every permutation is a successful trial. */
  lemma AtMostTwoPrisonersAlwaysSucceed(boxes: seq<nat>)
    requires IsPermutation(boxes) && |boxes| <= 2
    ensures TrialSucceeds(boxes, |boxes|)
  {
    TrialSucceedsIffShortCycles(boxes, |boxes|);
  }

  /** Every arrangement of the simulation is a permutation of the prisoners' numbers. */
  predicate AllPermutations(trials: seq<seq<nat>>, prisoners: nat) {
    forall t :: 0 <= t < |trials| ==> |trials[t]| == prisoners && IsPermutation(trials[t])
  }

  /** Number of successful trials among the given arrangements (src/main.rs:33-43,
      before the division). */
  function SuccessfulTrials(trials: seq<seq<nat>>, prisoners: nat): (c: nat)
    requires AllPermutations(trials, prisoners)
    ensures c <= |trials|
    ensures c == |trials| <==> forall t :: 0 <= t < |trials| ==> TrialSucceeds(trials[t], prisoners)
    ensures c == 0 <==> forall t :: 0 <= t < |trials| ==> !TrialSucceeds(trials[t], prisoners)
    decreases |trials|
  {
    if |trials| == 0 then 0
    else
      var last := trials[|trials| - 1];
      SuccessfulTrials(trials[..|trials| - 1], prisoners) + (if TrialSucceeds(last, prisoners) then 1 else 0)
  }

  /** The tally is a sum over trials: splitting the trials into two batches and
      adding the two tallies gives the same count. */
  lemma {:induction false} SuccessfulTrialsAppend(a: seq<seq<nat>>, b: seq<seq<nat>>, prisoners: nat)
    requires AllPermutations(a, prisoners) && AllPermutations(b, prisoners)
    ensures AllPermutations(a + b, prisoners)
    ensures SuccessfulTrials(a + b, prisoners) == SuccessfulTrials(a, prisoners) + SuccessfulTrials(b, prisoners)
    decreases |b|
  {
    assert AllPermutations(a + b, prisoners) by {
      forall t | 0 <= t < |a + b|
        ensures |(a + b)[t]| == prisoners && IsPermutation((a + b)[t])
      {
        if t < |a| { assert (a + b)[t] == a[t]; } else { assert (a + b)[t] == b[t - |a|]; }
      }
    }
    if |b| > 0 {
      var front := b[..|b| - 1];
      assert (a + b)[..|a + b| - 1] == a + front;
      assert (a + b)[|a + b| - 1] == b[|b| - 1];
      SuccessfulTrialsAppend(a, front, prisoners);
    } else {
      assert a + b == a;
    }
  }

  /** The counting part of simulate_prisoner_dilemma (src/main.rs:27-44) with the
      shuffle replaced by the given arrangements: apply the strategy to each and
      count the successes. */
  method SimulatePrisonerDilemma(trials: seq<seq<nat>>, prisoners: nat) returns (successes: nat)
    requires AllPermutations(trials, prisoners)
    ensures successes == SuccessfulTrials(trials, prisoners)
    ensures successes <= |trials|
  {
    successes := 0;
    for t := 0 to |trials|
      invariant AllPermutations(trials[..t], prisoners)
      invariant successes == SuccessfulTrials(trials[..t], prisoners)
    {
      var success := ApplyStrategy(trials[t], prisoners);
      assert trials[..t + 1][..t] == trials[..t];
      if success {
        successes := successes + 1;
      }
    }
    assert trials[..|trials|] == trials;
  }
}
