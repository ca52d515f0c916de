// The spare-capacity recurrence of slot shifting and what it means.
//
// An interval's raw capacity is its length minus the work of its own jobs. Its spare
// capacity also pays for the debt of the interval after it, which in turn pays for the
// debt of the one after that.

module Recurrence {

  /** The debt an interval passes to its predecessor: its capacity when negative, else 0. */
  function Min0(x: int): int {
    if x < 0 then x else 0
  }

  /** Spare capacity of interval i, recomputed from scratch out of the raw capacities. */
  function Sc(raw: seq<int>, i: nat): int
    requires i < |raw|
    decreases |raw| - i
  {
    raw[i] + if i + 1 < |raw| then Min0(Sc(raw, i + 1)) else 0
  }

  lemma ScStep(raw: seq<int>, i: nat)
    requires i < |raw|
    ensures Sc(raw, i) == raw[i] + if i + 1 < |raw| then Min0(Sc(raw, i + 1)) else 0
  {
  }

  /** xs[lo] + ... + xs[hi - 1]. */
  function Sum(xs: seq<int>, lo: nat, hi: nat): int
    requires lo <= hi <= |xs|
    decreases hi - lo
  {
    if lo == hi then 0 else xs[lo] + Sum(xs, lo + 1, hi)
  }

  lemma {:induction false} SumSplit(xs: seq<int>, lo: nat, mid: nat, hi: nat)
    requires lo <= mid <= hi <= |xs|
    ensures Sum(xs, lo, hi) == Sum(xs, lo, mid) + Sum(xs, mid, hi)
    decreases mid - lo
  {
    if lo < mid {
      SumSplit(xs, lo + 1, mid, hi);
    }
  }

  /** The recurrence computes the tightest total over all runs of intervals that start at i. */
  lemma {:induction false} ScIsMinimum(raw: seq<int>, i: nat)
    requires i < |raw|
    ensures forall k :: i < k <= |raw| ==> Sc(raw, i) <= Sum(raw, i, k)
    ensures exists k :: i < k <= |raw| && Sc(raw, i) == Sum(raw, i, k)
    decreases |raw| - i
  {
    assert Sum(raw, i, i + 1) == raw[i] + Sum(raw, i + 1, i + 1);
    if i + 1 < |raw| {
      ScIsMinimum(raw, i + 1);
      var k :| i + 1 < k <= |raw| && Sc(raw, i + 1) == Sum(raw, i + 1, k);
      assert Sum(raw, i, k) == raw[i] + Sum(raw, i + 1, k);
      assert Sc(raw, i) == Sum(raw, i, if Sc(raw, i + 1) < 0 then k else i + 1);
      forall k | i < k <= |raw| ensures Sc(raw, i) <= Sum(raw, i, k) {
        assert Sum(raw, i, k) == raw[i] + Sum(raw, i + 1, k);
      }
    } else {
      assert Sc(raw, i) == Sum(raw, i, i + 1);
    }
  }

  /** An interval has no debt exactly when no run of intervals starting at it is over-demanded. */
  lemma NonNegativeIffFeasible(raw: seq<int>, i: nat)
    requires i < |raw|
    ensures Sc(raw, i) >= 0 <==> forall k :: i < k <= |raw| ==> Sum(raw, i, k) >= 0
  {
    ScIsMinimum(raw, i);
  }

  /** Every capacity table solves the recurrence for exactly one vector of raw capacities. */
  function RawOf(sc: seq<int>): (raw: seq<int>)
    ensures |raw| == |sc|
  {
    seq(|sc|, i requires 0 <= i < |sc| => sc[i] - if i + 1 < |sc| then Min0(sc[i + 1]) else 0)
  }

  lemma {:induction false} RawOfSolves(sc: seq<int>, i: nat)
    requires i < |sc|
    ensures Sc(RawOf(sc), i) == sc[i]
    decreases |sc| - i
  {
    if i + 1 < |sc| {
      RawOfSolves(sc, i + 1);
    }
  }

  lemma RawOfUnique(sc: seq<int>, raw: seq<int>)
    requires |raw| == |sc|
    requires forall i :: 0 <= i < |sc| ==> Sc(raw, i) == sc[i]
    ensures raw == RawOf(sc)
  {
    forall i | 0 <= i < |sc| ensures raw[i] == RawOf(sc)[i] {
      assert Sc(raw, i) == sc[i];
      if i + 1 < |sc| {
        assert Sc(raw, i + 1) == sc[i + 1];
      }
    }
  }
}
