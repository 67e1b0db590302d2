/**
  The arrangement of boxes viewed as a map sigma on box indices: sigma(i) is the
  number inside box i. Following the loop strategy from prisoner p visits
  sigma(p), sigma(sigma(p)), ... This module defines the iterates of sigma, the
  length of the cycle through p, and proves that on a permutation that cycle
  always closes within |boxes| steps.
*/
module Cycles {

  /** Every number inside a box is itself a valid box index. */
  predicate InRange(boxes: seq<nat>) {
    forall i :: 0 <= i < |boxes| ==> boxes[i] < |boxes|
  }

  /** No number appears in two different boxes. */
  predicate Injective(boxes: seq<nat>) {
    forall i, j :: 0 <= i < j < |boxes| ==> boxes[i] != boxes[j]
  }

  /** boxes holds a permutation of 0 .. |boxes|-1. */
  predicate IsPermutation(boxes: seq<nat>) {
    InRange(boxes) && Injective(boxes)
  }

  /** k-fold iterate sigma^k(p), where sigma(i) == boxes[i]. */
  function Iter(boxes: seq<nat>, p: nat, k: nat): (r: nat)
    requires InRange(boxes) && p < |boxes|
    ensures r < |boxes|
    decreases k
  {
    if k == 0 then p else boxes[Iter(boxes, p, k - 1)]
  }

  /** Some iterate sigma^j(p) with 1 <= j <= m is p again. */
  predicate ReturnsWithin(boxes: seq<nat>, p: nat, m: nat)
    requires InRange(boxes) && p < |boxes|
  {
    exists j :: 1 <= j <= m && Iter(boxes, p, j) == p
  }

  /** On an injective arrangement two equal iterates can be stepped back together
      until the earlier one is p itself. */
  lemma {:induction false} StepBack(boxes: seq<nat>, p: nat, a: nat, b: nat)
    requires IsPermutation(boxes) && p < |boxes|
    requires a <= b && Iter(boxes, p, a) == Iter(boxes, p, b)
    ensures Iter(boxes, p, b - a) == p
    decreases a
  {
    if a > 0 {
      var x, y := Iter(boxes, p, a - 1), Iter(boxes, p, b - 1);
      assert boxes[x] == boxes[y];
      assert x == y;
      StepBack(boxes, p, a - 1, b - 1);
    }
  }

  /** A sequence of distinct numbers below n has at most n elements. */
  lemma {:induction false} DistinctBound(s: seq<nat>, n: nat)
    requires forall i :: 0 <= i < |s| ==> s[i] < n
    requires forall i, j :: 0 <= i < j < |s| ==> s[i] != s[j]
    ensures |s| <= n
    decreases n
  {
    if |s| > 0 {
      assert s[0] < n;
      var x := s[|s| - 1];
      var front := s[..|s| - 1];
      // Rename the value n-1 to x: x does not occur in front, so the
      // renamed sequence stays distinct and lies below n-1.
      var t := seq(|front|, i requires 0 <= i < |front| => if front[i] == n - 1 then x else front[i]);
      forall i | 0 <= i < |t|
        ensures t[i] < n - 1
      {
        assert front[i] == s[i] && s[i] != s[|s| - 1];
      }
      forall i, j | 0 <= i < j < |t|
        ensures t[i] != t[j]
      {
        assert front[i] == s[i] && front[j] == s[j];
        assert s[i] != s[j] && s[i] != x && s[j] != x;
      }
      DistinctBound(t, n - 1);
    }
  }

  /** On a permutation, the path from p returns to p within |boxes| steps. */
  lemma ReturnExists(boxes: seq<nat>, p: nat)
    requires IsPermutation(boxes) && p < |boxes|
    ensures ReturnsWithin(boxes, p, |boxes|)
  {
    var n := |boxes|;
    if exists a, b :: 0 <= a < b <= n && Iter(boxes, p, a) == Iter(boxes, p, b) {
      var a, b :| 0 <= a < b <= n && Iter(boxes, p, a) == Iter(boxes, p, b);
      StepBack(boxes, p, a, b);
      assert 1 <= b - a <= n && Iter(boxes, p, b - a) == p;
    } else {
      var s := seq(n + 1, i requires 0 <= i <= n => Iter(boxes, p, i));
      forall i, j | 0 <= i < j < |s|
        ensures s[i] != s[j]
      {
        assert s[i] == Iter(boxes, p, i) && s[j] == Iter(boxes, p, j);
      }
      DistinctBound(s, n);
      assert false;
    }
  }

  /** The first return to p at or after step j. */
  function FirstReturnFrom(boxes: seq<nat>, p: nat, j: nat): (c: nat)
    requires InRange(boxes) && p < |boxes| && 1 <= j
    requires forall k :: 1 <= k < j ==> Iter(boxes, p, k) != p
    requires exists k :: j <= k <= |boxes| && Iter(boxes, p, k) == p
    ensures j <= c <= |boxes|
    ensures Iter(boxes, p, c) == p
    ensures forall k :: 1 <= k < c ==> Iter(boxes, p, k) != p
    decreases |boxes| - j
  {
    if Iter(boxes, p, j) == p then j else FirstReturnFrom(boxes, p, j + 1)
  }

  /** Length of the cycle of sigma through p: the least j >= 1 with sigma^j(p) == p. */
  function CycleLength(boxes: seq<nat>, p: nat): (c: nat)
    requires IsPermutation(boxes) && p < |boxes|
    ensures 1 <= c <= |boxes|
    ensures Iter(boxes, p, c) == p
    ensures forall k :: 1 <= k < c ==> Iter(boxes, p, k) != p
  {
    ReturnExists(boxes, p);
    FirstReturnFrom(boxes, p, 1)
  }

  /** Returning to p within m steps is the same as the cycle through p having length at most m. */
  lemma ReturnsWithinIffCycleLength(boxes: seq<nat>, p: nat, m: nat)
    requires IsPermutation(boxes) && p < |boxes|
    ensures ReturnsWithin(boxes, p, m) <==> CycleLength(boxes, p) <= m
  {
  }

  /** A permutation hits every value: each v < |boxes| sits in some box. */
  lemma EveryValueOccurs(boxes: seq<nat>, v: nat)
    requires IsPermutation(boxes) && v < |boxes|
    ensures exists i :: 0 <= i < |boxes| && boxes[i] == v
  {
    var c := CycleLength(boxes, v);
    var i := Iter(boxes, v, c - 1);
    assert boxes[i] == Iter(boxes, v, c);
  }
}
