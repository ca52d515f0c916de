// Building the interval table from deadline-sorted jobs.

module OfflineTable {
  import opened Recurrence
  import opened OfflineData

  /** The jobs of all groups, in order. */
  function Flatten(groups: seq<seq<Job>>): seq<Job> {
    if groups == [] then [] else Flatten(groups[..|groups| - 1]) + groups[|groups| - 1]
  }

  function MinEst(js: seq<Job>): (e: int)
    requires js != []
    ensures forall i :: 0 <= i < |js| ==> e <= js[i].est
    ensures exists i :: 0 <= i < |js| && e == js[i].est
  {
    if |js| == 1 then js[0].est
    else
      var e := MinEst(js[1..]);
      assert forall i :: 1 <= i < |js| ==> js[i] == js[1..][i - 1];
      if js[0].est <= e then js[0].est else e
  }

  ghost predicate Placed(rows: seq<IntrRow>, k: nat)
    requires k < |rows|
  {
    && rows[k].id == k
    && rows[k].start < rows[k].end
    && rows[k].start == if k == 0 then 0 else rows[k - 1].end
  }

  /** Intervals tile the time line from 0, without gap or overlap, and are numbered by position. */
  ghost predicate Tiled(rows: seq<IntrRow>) {
    forall k :: 0 <= k < |rows| ==> Placed(rows, k)
  }

  /** Interval k before the backward pass: its length minus the work of its own jobs. */
  function RawRow(row: IntrRow, group: seq<Job>): int {
    row.end - row.start - Work(group)
  }

  /** Every job of the group is due at the end of its interval. */
  ghost predicate DueAtEnd(row: IntrRow, group: seq<Job>) {
    forall i :: 0 <= i < |group| ==> group[i].d == row.end
  }

  /** A job-less interval only fills idle time up to the earliest start of the jobs behind it, and
      an interval that follows one with jobs has a job that may start where it starts. */
  ghost predicate Justified(rows: seq<IntrRow>, groups: seq<seq<Job>>, k: nat)
    requires k < |rows| == |groups|
  {
    if groups[k] == [] then
      && 0 < k < |rows| - 1
      && groups[k + 1] != [] && groups[k - 1] != [] && rows[k].end == MinEst(groups[k + 1])
    else
      k > 0 && groups[k - 1] != [] ==> MinEst(groups[k]) <= rows[k].start
  }

  ghost predicate AllJustified(rows: seq<IntrRow>, groups: seq<seq<Job>>)
    requires |rows| == |groups|
  {
    forall k :: 0 <= k < |rows| ==> Justified(rows, groups, k)
  }

  /** `rows` are the intervals for the jobs `done`; groups[k] are the jobs of interval k. */
  ghost predicate Generated(done: seq<Job>, rows: seq<IntrRow>, groups: seq<seq<Job>>) {
    && |rows| == |groups| && Tiled(rows) && AllJustified(rows, groups)
    && Flatten(groups) == done
    && (forall k :: 0 <= k < |rows| ==> DueAtEnd(rows[k], groups[k]))
    && (done == [] <==> rows == [])
    && (done != [] ==> rows[|rows| - 1].end == done[|done| - 1].d)
  }

  /** Before the backward pass every interval holds its raw capacity. */
  ghost predicate HoldsRaw(rows: seq<IntrRow>, groups: seq<seq<Job>>) {
    |rows| == |groups| && forall k :: 0 <= k < |rows| ==> rows[k].sc == RawRow(rows[k], groups[k])
  }

  function LastEnd(rows: seq<IntrRow>): int {
    if rows == [] then 0 else rows[|rows| - 1].end
  }

  lemma FlattenSnoc(groups: seq<seq<Job>>, g: seq<Job>)
    ensures Flatten(groups + [g]) == Flatten(groups) + g
  {
    assert (groups + [g])[..|groups|] == groups;
  }

  /** An older interval keeps its place and its reason when more intervals are appended. */
  lemma OlderKeeps(rows: seq<IntrRow>, groups: seq<seq<Job>>, rows': seq<IntrRow>, groups': seq<seq<Job>>, k: nat)
    requires |rows| == |groups| && |rows'| == |groups'| && rows <= rows' && groups <= groups' && k < |rows|
    requires Placed(rows, k) && Justified(rows, groups, k)
    ensures Placed(rows', k) && Justified(rows', groups', k)
  {
  }

  /** Adding the interval of one group of jobs that are all due at the same, later instant. */
  lemma GroupFollows(done: seq<Job>, rows: seq<IntrRow>, groups: seq<seq<Job>>, g: seq<Job>, row: IntrRow)
    requires Generated(done, rows, groups) && HoldsRaw(rows, groups) && g != []
    requires DueAtEnd(row, g) && row.id == |rows| && row.start == LastEnd(rows) < row.end
    requires row.sc == RawRow(row, g) && (rows != [] ==> MinEst(g) <= row.start)
    ensures Generated(done + g, rows + [row], groups + [g]) && HoldsRaw(rows + [row], groups + [g])
  {
    FlattenSnoc(groups, g);
    var rows', groups' := rows + [row], groups + [g];
    forall k | 0 <= k < |rows'| ensures Placed(rows', k) && Justified(rows', groups', k) {
      if k < |rows| {
        OlderKeeps(rows, groups, rows', groups', k);
      }
    }
  }

  /** The same, when the earliest start lies behind the last end: a job-less interval comes first. */
  lemma GroupFollowsGap(done: seq<Job>, rows: seq<IntrRow>, groups: seq<seq<Job>>, g: seq<Job>, gap: IntrRow, row: IntrRow)
    requires Generated(done, rows, groups) && HoldsRaw(rows, groups) && g != [] && rows != []
    requires gap.id == |rows| && row.id == |rows| + 1
    requires gap.start == LastEnd(rows) < gap.end == row.start == MinEst(g) < row.end
    requires DueAtEnd(row, g) && row.sc == RawRow(row, g) && gap.sc == gap.end - gap.start
    ensures Generated(done + g, rows + [gap, row], groups + [[], g])
    ensures HoldsRaw(rows + [gap, row], groups + [[], g])
  {
    FlattenSnoc(groups, []);
    FlattenSnoc(groups + [[]], g);
    var rows', groups' := rows + [gap, row], groups + [[], g];
    assert groups' == groups + [[]] + [g];
    assert Justified(rows, groups, |rows| - 1);
    forall k | 0 <= k < |rows'| ensures Placed(rows', k) && Justified(rows', groups', k) {
      if k < |rows| {
        OlderKeeps(rows, groups, rows', groups', k);
      }
    }
  }

  // ---- what the finished table says -------------------------------------------------------

  function Raws(rows: seq<IntrRow>, groups: seq<seq<Job>>): (r: seq<int>)
    requires |rows| == |groups|
    ensures |r| == |rows| && forall k :: 0 <= k < |rows| ==> r[k] == RawRow(rows[k], groups[k])
  {
    seq(|rows|, k requires 0 <= k < |rows| => RawRow(rows[k], groups[k]))
  }

  /** Capacity plus work of the intervals before k is the length of the time line up to there. */
  lemma {:induction false} CapacityPlusWork(rows: seq<IntrRow>, groups: seq<seq<Job>>, k: nat)
    requires |rows| == |groups| && Tiled(rows) && k <= |rows|
    ensures Sum(Raws(rows, groups), 0, k) + Work(Flatten(groups[..k])) == if k == 0 then 0 else rows[k - 1].end
    decreases k
  {
    hide Flatten, Sum, Work;
    EmptyStart(rows, groups);
    if k > 0 {
      CapacityPlusWork(rows, groups, k - 1);
      assert Placed(rows, k - 1);
      SumSnoc(Raws(rows, groups), k);
      FlattenPrefix(groups, k);
      WorkAppend(Flatten(groups[..k - 1]), groups[k - 1]);
    } else {
      assert groups[..0] == [];
    }
  }

  lemma EmptyStart(rows: seq<IntrRow>, groups: seq<seq<Job>>)
    requires |rows| == |groups|
    ensures Sum(Raws(rows, groups), 0, 0) == 0 && Work(Flatten(groups[..0])) == 0
  {
    assert groups[..0] == [];
  }

  lemma SumSnoc(xs: seq<int>, k: nat)
    requires 0 < k <= |xs|
    ensures Sum(xs, 0, k) == Sum(xs, 0, k - 1) + xs[k - 1]
  {
    SumSplit(xs, 0, k - 1, k);
    assert Sum(xs, k - 1, k) == xs[k - 1] + Sum(xs, k, k);
  }

  lemma FlattenPrefix(groups: seq<seq<Job>>, k: nat)
    requires 0 < k <= |groups|
    ensures Flatten(groups[..k]) == Flatten(groups[..k - 1]) + groups[k - 1]
  {
    FlattenSnoc(groups[..k - 1], groups[k - 1]);
    assert groups[..k - 1] + [groups[k - 1]] == groups[..k];
  }

  /** All jobs of the first k intervals are due by the end of interval k - 1. */
  lemma {:induction false} DueByThen(rows: seq<IntrRow>, groups: seq<seq<Job>>, k: nat)
    requires |rows| == |groups| && Tiled(rows) && 0 < k <= |rows|
    requires forall m :: 0 <= m < |rows| ==> DueAtEnd(rows[m], groups[m])
    ensures forall i :: 0 <= i < |Flatten(groups[..k])| ==> Flatten(groups[..k])[i].d <= rows[k - 1].end
    decreases k
  {
    FlattenPrefix(groups, k);
    assert DueAtEnd(rows[k - 1], groups[k - 1]) && Placed(rows, k - 1);
    if k > 1 {
      DueByThen(rows, groups, k - 1);
    } else {
      assert groups[..0] == [];
    }
  }

  lemma {:induction false} FlattenSplit(groups: seq<seq<Job>>, k: nat)
    requires k <= |groups|
    ensures Flatten(groups) == Flatten(groups[..k]) + Flatten(groups[k..])
    decreases |groups|
  {
    if k == |groups| {
      assert groups[..k] == groups && groups[k..] == [];
    } else {
      var n := |groups| - 1;
      FlattenSplit(groups[..n], k);
      assert groups[..n][..k] == groups[..k];
      assert groups[..n][k..] == groups[k..][..n - k];
    }
  }

  /** If the demand never exceeds the time there is, the first interval is not in debt. */
  lemma FirstNotInDebt(done: seq<Job>, rows: seq<IntrRow>, groups: seq<seq<Job>>)
    requires Generated(done, rows, groups) && rows != []
    requires forall t :: t >= 0 ==> Demand(done, t) <= t
    ensures Sc(Raws(rows, groups), 0) >= 0
  {
    var raws := Raws(rows, groups);
    forall k | 0 < k <= |raws| ensures Sum(raws, 0, k) >= 0 {
      CapacityPlusWork(rows, groups, k);
      DueByThen(rows, groups, k);
      var t := rows[k - 1].end;
      WorkDue(Flatten(groups[..k]), t);
      FlattenSplit(groups, k);
      DemandAppend(Flatten(groups[..k]), Flatten(groups[k..]), t);
      EndPositive(rows, k - 1);
    }
    NonNegativeIffFeasible(raws, 0);
  }

  lemma {:induction false} EndPositive(rows: seq<IntrRow>, k: nat)
    requires Tiled(rows) && k < |rows|
    ensures rows[k].end > 0
    decreases k
  {
    assert Placed(rows, k);
    if k > 0 {
      EndPositive(rows, k - 1);
    }
  }
}
