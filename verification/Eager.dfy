// The original per-slot update of the spare capacities and the capacity reservation of an
// admitted task, as arithmetic on the recorded capacities.

module Eager {
  import opened Recurrence
  import opened Deferral

  /** The recorded capacities from interval c on never promise more than the recurrence allows. */
  ghost predicate Conservative(sc: seq<int>, raw: seq<int>, c: nat) {
    && |sc| == |raw| && c < |sc|
    && forall i :: c <= i < |sc| ==> sc[i] <= raw[i] + Min0(At(sc, i + 1))
  }

  /** Recorded capacities from interval c on equal the recomputed ones. */
  ghost predicate ExactFrom(sc: seq<int>, raw: seq<int>, c: nat) {
    && |sc| == |raw| && c < |sc|
    && forall i :: c <= i < |sc| ==> sc[i] == Sc(raw, i)
  }

  lemma {:induction false} ConservativeBelow(sc: seq<int>, raw: seq<int>, c: nat, i: nat)
    requires Conservative(sc, raw, c) && c <= i < |sc|
    ensures sc[i] <= Sc(raw, i)
    decreases |sc| - i
  {
    if i + 1 < |sc| {
      ConservativeBelow(sc, raw, c, i + 1);
    }
  }

  lemma ExactIsConservative(sc: seq<int>, raw: seq<int>, c: nat)
    requires ExactFrom(sc, raw, c)
    ensures Conservative(sc, raw, c)
  {
    forall i | c <= i < |sc| ensures sc[i] <= raw[i] + Min0(At(sc, i + 1)) {
      assert sc[i] == Sc(raw, i);
      if i + 1 < |sc| {
        assert sc[i + 1] == Sc(raw, i + 1);
      }
    }
  }

  /** Where the backward walk from the interval k of the job ends: at the first interval that is
      out of debt after its increment, and at the current interval c at the latest. From an interval
      before c it may run off the head instead, which is -1. */
  function WalkEnd(sc: seq<int>, c: nat, k: nat): (j: int)
    requires c < |sc| && k < |sc|
    ensures -1 <= j <= k && (c <= k ==> c <= j)
    ensures j >= 0 && j != c ==> sc[j] >= -1
    ensures forall i :: j < i <= k ==> sc[i] < -1
    decreases k
  {
    if k == c || sc[k] >= -1 then k else if k == 0 then -1 else WalkEnd(sc, c, k - 1)
  }

  lemma WalkOne(sc: seq<int>, c: nat, k: nat)
    requires c < |sc| && k < |sc|
    ensures WalkEnd(sc, c, k) == if k == c || sc[k] >= -1 then k else if k == 0 then -1 else WalkEnd(sc, c, k - 1)
  {
  }

  /** One more slot for each of the intervals lo..hi. */
  function Raised(sc: seq<int>, lo: nat, hi: nat): (r: seq<int>)
    ensures |r| == |sc|
    ensures forall i :: 0 <= i < |sc| ==> r[i] == sc[i] + if lo <= i <= hi then 1 else 0
  {
    seq(|sc|, i requires 0 <= i < |sc| => sc[i] + if lo <= i <= hi then 1 else 0)
  }

  lemma RaisedNone(sc: seq<int>, k: nat)
    ensures Raised(sc, k + 1, k) == sc
  {
  }

  lemma RaisedOne(sc: seq<int>, i: nat, k: nat)
    requires i <= k < |sc|
    ensures Raised(sc, i + 1, k)[i := Raised(sc, i + 1, k)[i] + 1] == Raised(sc, i, k)
    ensures Raised(sc, i, k)[i] == sc[i] + 1
  {
  }

  /** A slot in interval c for a job of interval k: the truth moves by one unit each way. */
  lemma EagerKeeps(sc: seq<int>, raw: seq<int>, c: nat, k: nat)
    requires Conservative(sc, raw, c) && k < |sc|
    ensures var sc' := sc[c := sc[c] - 1];
      Conservative(Raised(sc', Max0(WalkEnd(sc', c, k)), k), Served(Elapsed(raw, c, 1), k, 1), c)
  {
    var sc0 := sc[c := sc[c] - 1];
    var j := Max0(WalkEnd(sc0, c, k));
    var sc', raw' := Raised(sc0, j, k), Served(Elapsed(raw, c, 1), k, 1);
    forall i | c <= i < |sc| ensures sc'[i] <= raw'[i] + Min0(At(sc', i + 1)) {
      assert sc[i] <= raw[i] + Min0(At(sc, i + 1));
    }
  }

  /** A slot without a guaranteed job costs the current interval one unit. */
  lemma EagerIdleKeeps(sc: seq<int>, raw: seq<int>, c: nat)
    requires Conservative(sc, raw, c)
    ensures Conservative(sc[c := sc[c] - 1], Elapsed(raw, c, 1), c)
  {
  }

  /** What the recurrence makes of one slot: the intervals a unit of work is passed through. */
  lemma {:induction false} TruthAfterSlot(raw: seq<int>, c: nat, k: nat, i: nat)
    requires c <= i <= k < |raw| && c < k
    ensures var raw' := Served(Elapsed(raw, c, 1), k, 1);
      Sc(raw', i) == Sc(raw, i) - (if i == c then 1 else 0)
                     + if forall m :: i < m <= k ==> Sc(raw, m) < 0 then 1 else 0
    decreases k - i
  {
    var raw' := Served(Elapsed(raw, c, 1), k, 1);
    if i == k {
      if k + 1 < |raw| {
        SameTail(raw, raw', k + 1);
      }
    } else {
      TruthAfterSlot(raw, c, k, i + 1);
      assert (forall m :: i < m <= k ==> Sc(raw, m) < 0)
        <==> Sc(raw, i + 1) < 0 && (forall m :: i + 1 < m <= k ==> Sc(raw, m) < 0);
    }
  }

  lemma {:induction false} SameTail(raw: seq<int>, raw': seq<int>, i: nat)
    requires |raw| == |raw'| && i < |raw| && raw[i..] == raw'[i..]
    ensures Sc(raw, i) == Sc(raw', i)
    decreases |raw| - i
  {
    assert raw[i] == raw[i..][0] == raw'[i];
    if i + 1 < |raw| {
      assert raw[i + 1..] == raw[i..][1..];
      assert raw'[i + 1..] == raw'[i..][1..];
      SameTail(raw, raw', i + 1);
    }
  }

  /** From exact capacities the per-slot update stays exact if and only if its walk does not end,
      before reaching the current interval, on an interval that was one unit in debt. */
  lemma EagerExactIff(sc: seq<int>, raw: seq<int>, c: nat, k: nat)
    requires ExactFrom(sc, raw, c) && c <= k < |sc|
    ensures var sc0 := sc[c := sc[c] - 1];
      var j := WalkEnd(sc0, c, k);
      ExactFrom(Raised(sc0, j, k), Served(Elapsed(raw, c, 1), k, 1), c) <==> j == c || sc[j] != -1
  {
    hide Sc, WalkEnd;
    var sc0 := sc[c := sc[c] - 1];
    var j := WalkEnd(sc0, c, k);
    var sc', raw' := Raised(sc0, j, k), Served(Elapsed(raw, c, 1), k, 1);
    if k == c {
      assert raw' == raw;
      return;
    }
    if j > c && sc[j] == -1 {
      EagerAt(sc, raw, c, k, j - 1);
    } else {
      forall i | c <= i < |sc| ensures sc'[i] == Sc(raw', i) {
        EagerAt(sc, raw, c, k, i);
      }
    }
  }

  /** Interval by interval, what the walk leaves differs from the recurrence only where the recurrence
      passes a unit on to an interval that the walk does not reach. */
  lemma EagerAt(sc: seq<int>, raw: seq<int>, c: nat, k: nat, i: nat)
    requires ExactFrom(sc, raw, c) && c < k < |sc| && c <= i < |sc|
    ensures var sc0 := sc[c := sc[c] - 1];
      var j := WalkEnd(sc0, c, k);
      var same := Raised(sc0, j, k)[i] == Sc(Served(Elapsed(raw, c, 1), k, 1), i);
      && (j == c || sc[j] != -1 ==> same)
      && (j > c && sc[j] == -1 && i == j - 1 ==> !same)
  {
    hide Sc, WalkEnd;
    var sc0 := sc[c := sc[c] - 1];
    var j := WalkEnd(sc0, c, k);
    var raw' := Served(Elapsed(raw, c, 1), k, 1);
    assert sc[i] == Sc(raw, i) && sc[j] == Sc(raw, j);
    if k < i {
      assert raw[i..] == raw'[i..];
      SameTail(raw, raw', i);
    } else {
      TruthAfterSlot(raw, c, k, i);
      forall m | j < m <= k ensures Sc(raw, m) < 0 {
        assert sc[m] == Sc(raw, m) && sc0[m] < -1;
      }
      if i < j && sc[j] != -1 {
        assert Sc(raw, j) >= 0;
        assert !(forall m :: i < m <= k ==> Sc(raw, m) < 0);
      } else {
        assert j <= i || i == j - 1 ==> forall m :: i < m <= k ==> Sc(raw, m) < 0;
      }
    }
  }

  /** The update is not exact in general: a unit of debt that is paid back is not passed on. */
  lemma EagerNotExact()
    ensures ExactFrom([1, -1], [2, -1], 0)
    ensures WalkEnd([0, -1], 0, 1) == 1
    ensures !ExactFrom(Raised([0, -1], 1, 1), Served(Elapsed([2, -1], 0, 1), 1, 1), 0)
  {
    assert [1, -1][0 := 0] == [0, -1];
    assert Sc([2, -1], 1) == -1;
    EagerExactIff([1, -1], [2, -1], 0, 1);
  }

  // ---- reserving capacity for an admitted task -------------------------------------------

  /** What is left to place of w units after intervals i..k gave all they have. */
  function Rest(sc: seq<int>, i: nat, k: nat, w: nat): nat
    requires k < |sc|
    decreases k + 1 - i
  {
    if i > k then w else Max0(Rest(sc, i + 1, k, w) - Max0(sc[i]))
  }

  lemma RestStep(sc: seq<int>, i: nat, k: nat, w: nat)
    requires i <= k < |sc|
    ensures Rest(sc, i, k, w) == Max0(Rest(sc, i + 1, k, w) - Max0(sc[i]))
  {
  }

  /** The capacity intervals i..k have to give. */
  function Available(sc: seq<int>, i: nat, k: nat): nat
    requires k < |sc|
    decreases k + 1 - i
  {
    if i > k then 0 else Max0(sc[i]) + Available(sc, i + 1, k)
  }

  lemma {:induction false} RestIsShortfall(sc: seq<int>, i: nat, k: nat, w: nat)
    requires k < |sc|
    ensures Rest(sc, i, k, w) == Max0(w - Available(sc, i, k))
    decreases k + 1 - i
  {
    if i <= k {
      RestIsShortfall(sc, i + 1, k, w);
    }
  }

  lemma {:induction false} RestShrinks(sc: seq<int>, i: nat, j: nat, k: nat, w: nat)
    requires k < |sc| && i <= j
    ensures Rest(sc, i, k, w) <= Rest(sc, j, k, w)
    decreases j - i
  {
    if i < j {
      RestShrinks(sc, i + 1, j, k, w);
    }
  }

  /** Every interval up to k gives up what those behind it could not provide. */
  function Reserved(sc: seq<int>, k: nat, w: nat): (r: seq<int>)
    requires k < |sc|
    ensures |r| == |sc|
    ensures forall i :: 0 <= i < |sc| ==> r[i] == sc[i] - if i <= k then Rest(sc, i + 1, k, w) else 0
  {
    seq(|sc|, i requires 0 <= i < |sc| => sc[i] - if i <= k then Rest(sc, i + 1, k, w) else 0)
  }

  /** The table when the walk has come down to interval i. */
  function ReservedFrom(sc: seq<int>, i: nat, k: nat, w: nat): (r: seq<int>)
    requires i <= k + 1 <= |sc|
    ensures |r| == |sc|
  {
    sc[..i] + Reserved(sc, k, w)[i..]
  }

  lemma ReservedNone(sc: seq<int>, k: nat, w: nat)
    requires k < |sc|
    ensures sc == ReservedFrom(sc, k + 1, k, w) && Rest(sc, k + 1, k, w) == w
  {
  }

  lemma ReservedOne(sc: seq<int>, k: nat, w: nat, i: nat)
    requires i <= k < |sc|
    ensures ReservedFrom(sc, i + 1, k, w)[i := sc[i] - Rest(sc, i + 1, k, w)] == ReservedFrom(sc, i, k, w)
    ensures ReservedFrom(sc, i + 1, k, w)[i] == sc[i]
    ensures Rest(sc, i, k, w) == Max0(Rest(sc, i + 1, k, w) - Max0(sc[i]))
  {
    hide Rest;
    RestStep(sc, i, k, w);
  }

  /** At the head all intervals have paid. */
  lemma NothingUnreserved(sc: seq<int>, k: nat, w: nat)
    requires k < |sc|
    ensures ReservedFrom(sc, 0, k, w) == Reserved(sc, k, w)
  {
    hide Rest;
  }

  lemma ReservedUntouched(sc: seq<int>, k: nat, w: nat, i: nat, j: nat)
    requires j < i <= k + 1 <= |sc| && Rest(sc, i, k, w) == 0
    ensures Reserved(sc, k, w)[j] == sc[j]
  {
    RestShrinks(sc, j + 1, i, k, w);
  }

  /** Once nothing is left to place, the intervals not visited are already as they should be. */
  lemma ReservedRest(sc: seq<int>, k: nat, w: nat, i: nat)
    requires i <= k + 1 <= |sc| && Rest(sc, i, k, w) == 0
    ensures ReservedFrom(sc, i, k, w) == Reserved(sc, k, w)
    ensures Rest(sc, 0, k, w) == 0
  {
    hide Rest, Reserved;
    RestShrinks(sc, 0, i, k, w);
    var r := Reserved(sc, k, w);
    forall j | 0 <= j < i ensures r[j] == sc[j] {
      ReservedUntouched(sc, k, w, i, j);
    }
    SamePrefix(sc, r, i);
  }

  lemma SamePrefix(xs: seq<int>, ys: seq<int>, i: nat)
    requires i <= |xs| == |ys| && forall j :: 0 <= j < i ==> ys[j] == xs[j]
    ensures xs[..i] + ys[i..] == ys
  {
  }

  /** Reserving w units in interval k yields the recurrence with w more units of work in k, wherever
      the capacities were exact; what intervals before c hold is of no account. */
  lemma {:induction false} ReservedExact(sc: seq<int>, raw: seq<int>, c: nat, k: nat, w: nat, i: nat)
    requires ExactFrom(sc, raw, c) && c <= k < |sc| && c <= i < |sc|
    ensures Reserved(sc, k, w)[i] == Sc(raw[k := raw[k] - w], i)
    decreases |sc| - i
  {
    assert sc[i] == Sc(raw, i);
    if i + 1 < |sc| {
      ReservedExact(sc, raw, c, k, w, i + 1);
      assert sc[i + 1] == Sc(raw, i + 1);
    }
  }

  /** The walk stays at or behind interval c exactly when c..k can pay, and then c does not get into debt. */
  lemma ReservationStaysBehind(sc: seq<int>, c: nat, k: nat, w: nat)
    requires c <= k < |sc|
    ensures Rest(sc, c, k, w) == 0 <==> w <= Available(sc, c, k)
    ensures w <= Available(sc, c, k) ==> forall i :: 0 <= i < c ==> Reserved(sc, k, w)[i] == sc[i]
    ensures w <= Available(sc, c, k) && sc[c] >= 0 ==> Reserved(sc, k, w)[c] >= 0
  {
    hide Available, Rest;
    RestIsShortfall(sc, c, k, w);
    RestStep(sc, c, k, w);
    if w <= Available(sc, c, k) {
      forall i | 0 <= i < c ensures Reserved(sc, k, w)[i] == sc[i] {
        RestShrinks(sc, i + 1, c, k, w);
      }
    }
  }

  /** Reservation at run time, with c current and intervals before it stale: the recurrence is
      re-established from c on for every w. The walk leaves the intervals before c alone exactly when
      c..k can pay or there is none to reach, and then c gets into debt only if it was. */
  lemma ReservationExact(sc: seq<int>, raw: seq<int>, c: nat, k: nat, w: nat)
    requires ExactFrom(sc, raw, c) && c <= k < |sc|
    ensures ExactFrom(Reserved(sc, k, w), raw[k := raw[k] - w], c)
    ensures (forall i :: 0 <= i < c ==> Reserved(sc, k, w)[i] == sc[i]) <==> w <= Available(sc, c, k) || c == 0
    ensures w <= Available(sc, c, k) && sc[c] >= 0 ==> Reserved(sc, k, w)[c] >= 0
  {
    var r, raw' := Reserved(sc, k, w), raw[k := raw[k] - w];
    forall i | c <= i < |r| ensures r[i] == Sc(raw', i) {
      ReservedExact(sc, raw, c, k, w, i);
    }
    ReservationStaysBehind(sc, c, k, w);
    if w > Available(sc, c, k) && c > 0 {
      RestIsShortfall(sc, c, k, w);
      assert r[c - 1] == sc[c - 1] - Rest(sc, c, k, w);
    }
  }
}
