// Whole runs of the decision timer together with the interval table.

module TimedRun {
  import opened Wrappers
  import Runs
  import opened PlainState
  import opened LocalList
  import opened Deferral
  import opened IntervalTable
  import opened Chronos
  import opened OfflineData
  import opened OfflineTable
  import opened Loading
  import opened SchedulerRun

  /** The plain state with the timer: the instant it is armed for, and the instants it fired at. */
  datatype Timed = Timed(truth: Truth, armed: Option<int>, fired: seq<int>)

  predicate Increasing(ends: seq<int>) {
    && (ends != [] ==> 0 < ends[0])
    && forall i, j :: 0 <= i < j < |ends| ==> ends[i] < ends[j]
  }

  /** No armed instant goes by: a decision comes before it, or it is the one the timer fires for. */
  predicate OnTime(x: Timed, s: Step) {
    x.armed.Some? && s.time <= x.armed.value && Allowed(x.truth, s) && !x.truth.over
  }

  /** One decision. Where the timer fires, it is armed anew relative to its own expiry; after the last
      interval end it stops, and the table is not brought up to date by it. */
  function Tick(ends: seq<int>, x: Timed, s: Step): (r: Timed)
    requires Fits(ends, x.truth) && OnTime(x, s)
    ensures Fits(ends, r.truth)
  {
    var c := x.truth.cur;
    if s.time < x.armed.value then x.(truth := Next(ends, x.truth, s))
    else if c + 1 == |ends| then Timed(x.truth, None, x.fired + [s.time])
    else Timed(Next(ends, x.truth, s), Some(s.time + (ends[c + 1] - ends[c])), x.fired + [s.time])
  }

  function Ticks(ends: seq<int>): (Timed, Step) -> Option<Timed> {
    (x: Timed, s: Step) => if Fits(ends, x.truth) && OnTime(x, s) then Some(Tick(ends, x, s)) else None
  }

  function TimedAfter(ends: seq<int>, x: Timed, ss: seq<Step>): (r: Option<Timed>)
    requires Fits(ends, x.truth)
    ensures r.Some? ==> Fits(ends, r.value.truth)
    decreases |ss|
  {
    var r := Runs.After(Ticks(ends), x, ss);
    assert r.Some? ==> Fits(ends, r.value.truth) by {
      if ss != [] {
        assert TimedAfter(ends, x, ss[..|ss| - 1]) == Runs.After(Ticks(ends), x, ss[..|ss| - 1]);
      }
    }
    r
  }

  /** The state before the first decision: armed for the end of the first interval. */
  predicate Starts(ends: seq<int>, x: Timed)
    requires Fits(ends, x.truth)
  {
    x.truth.cur == 0 && !x.truth.over && x.armed == Some(ends[0]) && x.fired == []
  }

  /** Armed for the end of the current interval, having fired at all ends before it; or stopped, having
      fired at all of them. */
  predicate AtEnds(ends: seq<int>, r: Timed)
    requires Fits(ends, r.truth)
  {
    && !r.truth.over
    && (r.armed.Some? ==> r.armed.value == ends[r.truth.cur] && r.fired == ends[..r.truth.cur])
    && (r.armed.None? ==> r.truth.cur + 1 == |ends| && r.fired == ends)
  }

  lemma TickAtEnds(ends: seq<int>, x: Timed, s: Step)
    requires Increasing(ends) && Fits(ends, x.truth) && AtEnds(ends, x) && OnTime(x, s)
    ensures AtEnds(ends, Tick(ends, x, s))
  {
    var c := x.truth.cur;
    assert ends[..c] + [ends[c]] == ends[..c + 1];
    assert ends[..|ends|] == ends;
  }

  /** In every run the timer fires exactly at the interval ends, each once and in order: armed relative
      to its own expiries, it never drifts from them. */
  lemma {:induction false} FiresAtEnds(ends: seq<int>, x: Timed, ss: seq<Step>)
    requires Increasing(ends) && Fits(ends, x.truth) && Starts(ends, x) && TimedAfter(ends, x, ss).Some?
    ensures AtEnds(ends, TimedAfter(ends, x, ss).value)
    decreases |ss|
  {
    if ss == [] {
      assert ends[..0] == [];
    } else {
      FiresAtEnds(ends, x, ss[..|ss| - 1]);
      TickAtEnds(ends, TimedAfter(ends, x, ss[..|ss| - 1]).value, ss[|ss| - 1]);
    }
  }

  /** As long as the timer is armed, its run is a run of the plain state, and no decision of it is late:
      that decisions are timely is the timer's doing. */
  lemma {:induction false} TimerKeepsTimely(ends: seq<int>, x: Timed, ss: seq<Step>)
    requires Increasing(ends) && Fits(ends, x.truth) && Starts(ends, x)
    requires TimedAfter(ends, x, ss).Some? && TimedAfter(ends, x, ss).value.armed.Some?
    requires ss != [] ==> ss[0].time == 0
    ensures After(ends, x.truth, ss) == Some(TimedAfter(ends, x, ss).value.truth)
    ensures Timely(ends, x.truth, ss)
    decreases |ss|
  {
    if ss != [] {
      var n := |ss| - 1;
      TimerKeepsTimely(ends, x, ss[..n]);
      FiresAtEnds(ends, x, ss[..n]);
      TimelySnoc(ends, x.truth, ss);
    }
  }

  lemma TimelySnoc(ends: seq<int>, t: Truth, ss: seq<Step>)
    requires Fits(ends, t) && ss != [] && Timely(ends, t, ss[..|ss| - 1]) && ss[0].time == 0
    requires var before := After(ends, t, ss[..|ss| - 1]);
      before.Some? && !before.value.over ==> ss[|ss| - 1].time <= ends[before.value.cur]
    ensures Timely(ends, t, ss)
  {
    hide After;
    var ss' := ss[..|ss| - 1];
    forall n | 0 <= n < |ss|
      ensures var before := After(ends, t, ss[..n]);
        before.Some? && !before.value.over ==> ss[n].time <= ends[before.value.cur]
    {
      if n < |ss'| {
        assert ss'[..n] == ss[..n] && ss'[n] == ss[n];
      }
    }
  }

  // ---- the timer object --------------------------------------------------------------------------

  /** The timer and its table stand where the plain state says. */
  ghost predicate TimerShows(timer: Timer, ends: seq<int>, x: Timed, credit: int)
    reads timer, timer.table, timer.table.intrList, timer.table.intrList.nodes, timer.table.intrs,
      timer.table.currPoint
  {
    && Shows(timer.table, ends, x.truth, credit) && !x.truth.over && AtEnds(ends, x)
    && timer.expiry == x.armed && timer.fired == x.fired
    && (x.armed.Some? ==> timer.Synced())
    && Timer.EndsIncrease(timer.table.intrs)
  }

  /** Step s is taken and leads to the next interval. */
  predicate TickMoves(ends: seq<int>, x: Timed, s: Step)
    requires Fits(ends, x.truth)
  {
    x.armed.Some? && s.time >= x.armed.value && Moves(ends, x.truth, s)
  }

  /** A decision while the timer is armed; `fires` says that it is the timer's own. */
  method Decide(timer: Timer, d: Decision, fires: bool, ghost ends: seq<int>, ghost x: Timed, ghost s: Step,
                ghost credit: int)
      returns (ghost credit': int, ghost late: int)
    requires TimerShows(timer, ends, x, credit) && Increasing(ends) && OnTime(x, s)
    requires Carries(timer.table.intrList, d, s) && (fires <==> s.time == x.armed.value)
    modifies timer`delay, timer`expiry, timer`fired, timer.table`timeMovt
    modifies timer.table`schedTime, timer.table`timeDiff, timer.table`raw, timer.table`sc, timer.table`upd
    modifies timer.table`currPoint, timer.table`currInterval, timer.table`cur
    modifies timer.table.intrs`sc, timer.table.intrs`updateVal
    ensures TimerShows(timer, ends, Tick(ends, x, s), credit')
    ensures late >= 0 && (credit == 0 && InTime(x.truth, s) ==> late == 0 == credit')
    ensures TickMoves(ends, x, s) ==>
      credit' == 0 && ExactAfterMove(timer.table, Tick(ends, x, s).truth.raw, x.truth.cur + 1, late)
  {
    hide TimerShows, Tick, Carries, InTime;
    if fires {
      credit', late := Fire(timer, d, ends, x, s, credit);
    } else {
      credit', late := Wait(timer, d, ends, x, s, credit);
    }
  }

  /** A decision before the armed instant. */
  method Wait(timer: Timer, d: Decision, ghost ends: seq<int>, ghost x: Timed, ghost s: Step, ghost credit: int)
      returns (ghost credit': int, ghost late: int)
    requires TimerShows(timer, ends, x, credit) && Increasing(ends) && OnTime(x, s)
    requires Carries(timer.table.intrList, d, s) && s.time < x.armed.value
    modifies timer.table`schedTime, timer.table`timeDiff, timer.table`raw, timer.table`sc, timer.table`upd
    modifies timer.table`currPoint, timer.table`currInterval, timer.table`cur
    modifies timer.table.intrs`sc, timer.table.intrs`updateVal
    ensures TimerShows(timer, ends, Tick(ends, x, s), credit')
    ensures late >= 0 && (credit == 0 && InTime(x.truth, s) ==> late == 0 == credit')
    ensures !TickMoves(ends, x, s)
  {
    hide Interval.OnTrack, Advanced, Timer.EndsIncrease, SettledExactly, Credited, Earned, ChargedTo, StoredTo;
    TickAtEnds(ends, x, s);
    ShownCredit(timer.table, ends, x.truth, credit);
    ShownCurrent(timer.table, ends, x.truth, credit);
    ServesStep(timer.table, d, s);
    ghost var raw, sc, t := timer.table.raw, timer.table.sc, x.truth;
    timer.Between(d.time, d.running);
    ChargedAlike(raw, sc, timer.table.win, t, s, credit, timer.table.raw);
    late := credit + Earned(sc, timer.table.win, t.cur, s.job, t.sched, s.time);
    credit' := late;
    CreditedParts(timer.table.raw, ChargedTruth(t, s), late);
  }

  /** The timer's own decision. */
  method Fire(timer: Timer, d: Decision, ghost ends: seq<int>, ghost x: Timed, ghost s: Step, ghost credit: int)
      returns (ghost credit': int, ghost late: int)
    requires TimerShows(timer, ends, x, credit) && Increasing(ends) && OnTime(x, s)
    requires Carries(timer.table.intrList, d, s) && s.time == x.armed.value
    modifies timer`delay, timer`expiry, timer`fired, timer.table`timeMovt
    modifies timer.table`schedTime, timer.table`timeDiff, timer.table`raw, timer.table`sc, timer.table`upd
    modifies timer.table`currPoint, timer.table`currInterval, timer.table`cur
    modifies timer.table.intrs`sc, timer.table.intrs`updateVal
    ensures TimerShows(timer, ends, Tick(ends, x, s), credit')
    ensures late >= 0 && (credit == 0 && InTime(x.truth, s) ==> late == 0 == credit')
    ensures TickMoves(ends, x, s) ==>
      credit' == 0 && ExactAfterMove(timer.table, Tick(ends, x, s).truth.raw, x.truth.cur + 1, late)
  {
    hide Interval.OnTrack, Advanced, Timer.EndsIncrease, SettledExactly, Credited, Earned, ChargedTo, StoredMoved,
      ExactAfterMove;
    TickAtEnds(ends, x, s);
    ShownCredit(timer.table, ends, x.truth, credit);
    ShownCurrent(timer.table, ends, x.truth, credit);
    ServesStep(timer.table, d, s);
    ghost var raw, sc, t := timer.table.raw, timer.table.sc, x.truth;
    late, credit' := 0, credit;
    timer.Expire(d.time, d.running);
    if t.cur + 1 < |ends| {
      ChargedAlike(raw, sc, timer.table.win, t, s, credit, timer.table.raw);
      late, credit' := credit + Earned(sc, timer.table.win, t.cur, s.job, t.sched, s.time), 0;
      CreditedParts(timer.table.raw, ChargedTruth(t, s), late);
      SettledShows(timer.table, ends, ChargedTruth(t, s), late);
    }
  }

  /** Over every run: the timer object fires at the interval ends, and the table under it goes through
      the run of the plain state. */
  method Run(timer: Timer, ds: seq<Decision>, fires: seq<bool>, ghost ends: seq<int>, ghost x: Timed, ghost ss: seq<Step>)
      returns (ghost credit: int, ghost late: int)
    requires TimerShows(timer, ends, x, 0) && Increasing(ends) && TimedAfter(ends, x, ss).Some?
    requires |ss| == |ds| == |fires|
    requires forall i :: 0 <= i < |ds| ==> Carries(timer.table.intrList, ds[i], ss[i])
    requires forall i :: 0 <= i < |ds| ==> FiresNow(ends, x, ss, i, fires[i])
    modifies timer`delay, timer`expiry, timer`fired, timer.table`timeMovt
    modifies timer.table`schedTime, timer.table`timeDiff, timer.table`raw, timer.table`sc, timer.table`upd
    modifies timer.table`currPoint, timer.table`currInterval, timer.table`cur
    modifies timer.table.intrs`sc, timer.table.intrs`updateVal
    ensures TimerShows(timer, ends, TimedAfter(ends, x, ss).value, credit)
    ensures late >= 0 && (NoneLate(ends, x, ss) ==> credit == late == 0)
    ensures LastTickMoves(ends, x, ss) ==>
      var r := TimedAfter(ends, x, ss).value.truth;
      credit == 0 && ExactAfterMove(timer.table, r.raw, r.cur, late)
  {
    hide TimerShows, Tick, TimedAfter, OnTime, Increasing, ExactAfterMove, TickMoves, InTime;
    credit, late := 0, 0;
    ShownFits(timer, ends, x, 0);
    TimedNothing(ends, x);
    assert ss[..0] == [];
    for i := 0 to |ds|
      invariant TimedAfter(ends, x, ss[..i]).Some?
      invariant TimerShows(timer, ends, TimedAfter(ends, x, ss[..i]).value, credit)
      invariant forall k :: i <= k < |ds| ==> Carries(timer.table.intrList, ds[k], ss[k])
      invariant late >= 0 && (NoneLate(ends, x, ss) ==> credit == late == 0)
      invariant LastTickMoves(ends, x, ss[..i]) ==>
        var r := TimedAfter(ends, x, ss[..i]).value.truth;
        credit == 0 && ExactAfterMove(timer.table, r.raw, r.cur, late)
    {
      TickRuns(ends, x, ss, i);
      credit, late := Decide(timer, ds[i], fires[i], ends, TimedAfter(ends, x, ss[..i]).value, ss[i], credit);
      assert ss[..i + 1][..i] == ss[..i];
      if LastTickMoves(ends, x, ss[..i + 1]) {
        LastTickMoveEnds(ends, x, ss[..i + 1]);
      }
    }
    assert ss[..|ds|] == ss;
  }

  /** The run ends with a move. */
  predicate LastTickMoves(ends: seq<int>, x: Timed, ss: seq<Step>)
    requires Fits(ends, x.truth)
  {
    && ss != [] && TimedAfter(ends, x, ss[..|ss| - 1]).Some?
    && TickMoves(ends, TimedAfter(ends, x, ss[..|ss| - 1]).value, ss[|ss| - 1])
  }

  lemma LastTickMoveEnds(ends: seq<int>, x: Timed, ss: seq<Step>)
    requires Fits(ends, x.truth) && TimedAfter(ends, x, ss).Some? && LastTickMoves(ends, x, ss)
    ensures TimedAfter(ends, x, ss).value.truth.cur == TimedAfter(ends, x, ss[..|ss| - 1]).value.truth.cur + 1
  {
  }

  /** No job of the run is late. */
  ghost predicate NoneLate(ends: seq<int>, x: Timed, ss: seq<Step>)
    requires Fits(ends, x.truth)
  {
    forall n :: 0 <= n < |ss| ==>
      var before := TimedAfter(ends, x, ss[..n]);
      before.Some? ==> InTime(before.value.truth, ss[n])
  }

  /** The plain state with which a timer starts on generated rows. */
  function StartTimed(rows: seq<IntrRow>, groups: seq<seq<Job>>, sched: int): (x: Timed)
    requires rows != [] && |groups| == |rows|
    ensures Fits(Ends(InRunTime(rows)), x.truth) && Starts(Ends(InRunTime(rows)), x)
  {
    Timed(StartTruth(rows, groups, sched), Some(Ends(InRunTime(rows))[0]), [])
  }

  /** The decisions of the run that reached the table: all, but for the last firing of the timer. */
  function Reaching(r: Timed, ss: seq<Step>): seq<Step> {
    if r.armed.None? && ss != [] then ss[..|ss| - 1] else ss
  }

  /** The run from start-up on, as the timer drives it. It fires at the interval ends, once and in order.
      No decision that reaches the table is late, so the stored capacities are those the offline
      recurrence gives on remaining time and work: up to what is pending between moves, and exactly for
      old interval, new interval and its window right after a move. */
  method RunFromStart(table: Interval, ds: seq<Decision>, fires: seq<bool>, ghost rows: seq<IntrRow>,
                      ghost groups: seq<seq<Job>>, ghost ss: seq<Step>)
      returns (timer: Timer, ghost credit: int, ghost late: int)
    requires Started(table) && Loaded(table.intrs, rows) && Tiled(rows) && rows != [] && |groups| == |rows|
    requires table.raw == Scaled(Remaining(rows, 0, WorkLeft(groups)))
    requires TimedAfter(Ends(InRunTime(rows)), StartTimed(rows, groups, table.schedTime), ss).Some?
    requires ss != [] && ss[0].time == 0 && |ss| == |ds| == |fires|
    requires forall i :: 0 <= i < |ds| ==> Carries(table.intrList, ds[i], ss[i])
    requires forall i :: 0 <= i < |ds| ==>
      FiresNow(Ends(InRunTime(rows)), StartTimed(rows, groups, table.schedTime), ss, i, fires[i])
    modifies table`timeMovt, table`schedTime, table`timeDiff, table`raw, table`sc, table`upd
    modifies table`currPoint, table`currInterval, table`cur, table.intrs`sc, table.intrs`updateVal
    ensures var ends, x := Ends(InRunTime(rows)), StartTimed(rows, groups, old(table.schedTime));
      var r := TimedAfter(ends, x, ss).value;
      && timer.table == table && timer.fired == r.fired && AtEnds(ends, r)
      && After(ends, x.truth, Reaching(r, ss)) == Some(r.truth)
      && r.truth.raw == LeftAfter(rows, groups, old(table.schedTime), Reaching(r, ss))
      && ExactWithPending(table, r.truth.raw, r.truth.cur, credit)
      && credit >= 0 && late >= 0 && (NoneLate(ends, x, ss) ==> credit == late == 0)
      && (LastTickMoves(ends, x, ss) ==> credit == 0 && ExactAfterMove(table, r.truth.raw, r.truth.cur, late))
  {
    hide Loaded, After, TimedAfter, Remaining, ExactWithPending, ExactAfterMove, LastTickMoves, NoneLate,
      Interval.OnTrack, Timer.EndsIncrease, FiresNow, Increasing, OnTime, WorkAfter;
    ghost var ends, x := Ends(InRunTime(rows)), StartTimed(rows, groups, table.schedTime);
    StartShown(table, rows, groups);
    LoadedEndsIncrease(table.intrs, rows);
    EndsIncreasing(rows);
    timer := new Timer(table);
    FirstArmed(timer, ends, x.truth);
    credit, late := Run(timer, ds, fires, ends, x, ss);
    ghost var r := TimedAfter(ends, x, ss).value;
    FiresAtEnds(ends, x, ss);
    ReachingTimely(ends, x, ss);
    TruthIsRemaining(InRunTime(rows), x.truth, Scaled(WorkLeft(groups)), Reaching(r, ss));
    TimerExact(timer, ends, r, credit);
  }

  lemma FirstArmed(timer: Timer, ends: seq<int>, t: Truth)
    requires timer.Synced() && timer.fired == [] && Timer.EndsIncrease(timer.table.intrs)
    requires Shows(timer.table, ends, t, 0) && !t.over && t.cur == 0
    ensures TimerShows(timer, ends, Timed(t, Some(ends[0]), []), 0)
  {
    hide Interval.OnTrack;
    assert ends[..0] == [];
  }

  lemma TimerExact(timer: Timer, ends: seq<int>, r: Timed, credit: int)
    requires TimerShows(timer, ends, r, credit)
    ensures Fits(ends, r.truth) && credit >= 0
    ensures ExactWithPending(timer.table, r.truth.raw, r.truth.cur, credit)
  {
    hide Interval.OnTrack;
    ShownExact(timer.table, ends, r.truth, credit);
  }

  /** The rows' ends increase in run-time units. */
  lemma EndsIncreasing(rows: seq<IntrRow>)
    requires Tiled(rows)
    ensures Increasing(Ends(InRunTime(rows)))
  {
    var ends := Ends(InRunTime(rows));
    forall i, j | 0 <= i < j < |ends| ensures ends[i] < ends[j] {
      StartsInOrder(rows, i, j);
      assert Placed(rows, j);
    }
    if rows != [] {
      assert Placed(rows, 0);
    }
  }

  /** The decisions that reach the table are a timely run of the plain state. */
  lemma ReachingTimely(ends: seq<int>, x: Timed, ss: seq<Step>)
    requires Increasing(ends) && Fits(ends, x.truth) && Starts(ends, x)
    requires TimedAfter(ends, x, ss).Some? && ss != [] && ss[0].time == 0
    ensures var r := TimedAfter(ends, x, ss).value; var done := Reaching(r, ss);
      && done != [] && After(ends, x.truth, done) == Some(r.truth) && Timely(ends, x.truth, done)
  {
    hide After, Timely;
    var n := |ss| - 1;
    TickRuns(ends, x, ss, n);
    assert ss[..n + 1] == ss && (n == 0 ==> ss[..n] == []);
    TimedNothing(ends, x);
    if TimedAfter(ends, x, ss).value.armed.Some? {
      TimerKeepsTimely(ends, x, ss);
    } else {
      if n == 0 {
        assert false;
      }
      TimerKeepsTimely(ends, x, ss[..n]);
    }
  }

  /** Step i of the run is the timer's own decision exactly when `fires`. */
  predicate FiresNow(ends: seq<int>, x: Timed, ss: seq<Step>, i: nat, fires: bool)
    requires Fits(ends, x.truth) && i < |ss|
  {
    var before := TimedAfter(ends, x, ss[..i]);
    before.Some? && before.value.armed.Some? && (fires <==> ss[i].time == before.value.armed.value)
  }

  lemma ShownFits(timer: Timer, ends: seq<int>, x: Timed, credit: int)
    requires TimerShows(timer, ends, x, credit)
    ensures Fits(ends, x.truth)
  {
  }

  lemma TimedNothing(ends: seq<int>, x: Timed)
    requires Fits(ends, x.truth)
    ensures TimedAfter(ends, x, []) == Some(x)
  {
  }

  lemma TickRuns(ends: seq<int>, x: Timed, ss: seq<Step>, n: nat)
    requires Fits(ends, x.truth) && TimedAfter(ends, x, ss).Some? && n < |ss|
    ensures var before := TimedAfter(ends, x, ss[..n]);
      && before.Some? && OnTime(before.value, ss[n])
      && TimedAfter(ends, x, ss[..n + 1]) == Some(Tick(ends, before.value, ss[n]))
  {
    Runs.StepRuns(Ticks(ends), x, ss, n);
  }
}
