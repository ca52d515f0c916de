// Whole runs: any sequence of decisions on the deferred table against the plain bookkeeping of
// remaining time and work.

module SchedulerRun {
  import opened Wrappers
  import Runs
  import opened PlainState
  import opened Recurrence
  import opened LocalList
  import opened Deferral
  import opened Eager
  import opened IntervalTable
  import opened OfflineData
  import opened OfflineTable
  import opened Loading

  /** A decision at `time`, and the interval of the job that ran since the one before. */
  datatype Step = Step(time: int, job: Option<nat>)

  /** A decision as the scheduler passes it on. */
  datatype Decision = Decision(time: int, running: Running)

  /** Time does not go back, and the job that ran belongs to an interval of the table. */
  predicate Allowed(t: Truth, s: Step) {
    0 <= s.time && t.sched <= s.time && (s.job.Some? ==> s.job.value < |t.raw|)
  }

  /** The job that ran is not late: its interval is not over. */
  predicate InTime(t: Truth, s: Step) {
    s.job.Some? && !t.over ==> t.cur <= s.job.value
  }

  /** The truth after the time up to step s was charged. */
  function ChargedTruth(t: Truth, s: Step): (r: Truth)
    requires t.cur < |t.raw| && (s.job.Some? ==> s.job.value < |t.raw|)
    ensures |r.raw| == |t.raw|
  {
    Truth(t.cur, false, s.time, if t.sched < 0 then t.raw else Advanced(t.raw, t.cur, s.job, s.time - t.sched))
  }

  /** One decision in the plain bookkeeping: nothing is deferred, no capacity is stored. */
  function Next(ends: seq<int>, t: Truth, s: Step): (r: Truth)
    requires Fits(ends, t) && Allowed(t, s)
    ensures Fits(ends, r)
  {
    if t.over then t
    else if s.time < ends[t.cur] then ChargedTruth(t, s)
    else Moved(ends, ChargedTruth(t, s))
  }

  function Steps(ends: seq<int>): (Truth, Step) -> Option<Truth> {
    (t: Truth, s: Step) => if Fits(ends, t) && Allowed(t, s) then Some(Next(ends, t, s)) else None
  }

  /** The run of all steps, where it is allowed throughout. */
  function After(ends: seq<int>, t: Truth, ss: seq<Step>): (r: Option<Truth>)
    requires Fits(ends, t)
    ensures r.Some? ==> Fits(ends, r.value)
    decreases |ss|
  {
    var r := Runs.After(Steps(ends), t, ss);
    assert r.Some? ==> Fits(ends, r.value) by {
      if ss != [] {
        assert After(ends, t, ss[..|ss| - 1]) == Runs.After(Steps(ends), t, ss[..|ss| - 1]);
      }
    }
    r
  }

  lemma StepRuns(ends: seq<int>, t: Truth, ss: seq<Step>, n: nat)
    requires Fits(ends, t) && After(ends, t, ss).Some? && n < |ss|
    ensures var before := After(ends, t, ss[..n]);
      && before.Some? && Allowed(before.value, ss[n])
      && After(ends, t, ss[..n + 1]) == Some(Next(ends, before.value, ss[n]))
  {
    Runs.StepRuns(Steps(ends), t, ss, n);
  }

  /** The deferred table stands where the plain state says; what it tracks is above the truth, in the
      current interval only, by the credit earned there by late jobs. */
  ghost predicate Shows(table: Interval, ends: seq<int>, t: Truth, credit: int)
    reads table, table.intrList, table.intrList.nodes, table.intrs, table.currPoint
  {
    && table.OnTrack() && Fits(ends, t) && |table.intrs| == |ends|
    && (forall k {:trigger table.intrs[k].end} :: 0 <= k < |ends| ==> table.intrs[k].end == ends[k])
    && (t.over <==> table.currInterval == null)
    && (!t.over ==> table.cur == t.cur)
    && table.schedTime == t.sched && Credited(table.raw, t, credit)
  }

  /** raw is the truth from the current interval on, but for the credit. */
  ghost predicate Credited(raw: seq<int>, t: Truth, credit: int) {
    && credit >= 0 && |raw| == |t.raw|
    && (!t.over && t.cur < |raw| ==>
          raw[t.cur] == t.raw[t.cur] + credit && forall j :: t.cur < j < |raw| ==> raw[j] == t.raw[j])
  }

  /** The decision carries the step: the interval node it names is the one at that position. */
  ghost predicate Carries(list: LinkedRing<IntrNode>, d: Decision, s: Step)
    reads list, if d.running.Job? && d.running.intr != null then {d.running.intr} else {}
  {
    && d.time == s.time && d.running != Running.Job(null)
    && if d.running.Idle? then s.job == None
       else list.Has(d.running.intr) && s.job == Some(d.running.intr.pos)
  }

  lemma ShownCurrent(table: Interval, ends: seq<int>, t: Truth, credit: int)
    requires Shows(table, ends, t, credit) && !t.over
    ensures table.currInterval != null && table.cur == t.cur < |table.intrs| == |ends|
    ensures table.currInterval.end == ends[t.cur]
  {
  }

  /** Step s leads from the current interval of t to the next one. */
  predicate Moves(ends: seq<int>, t: Truth, s: Step)
    requires Fits(ends, t)
  {
    !t.over && s.time >= ends[t.cur] && t.cur + 1 < |ends|
  }

  /** Right after a move to interval c the stored capacities of c and of all of c's relation window are
      exactly those of the recurrence, and so is that of the interval left, but for the credit that late
      jobs earned it. */
  ghost predicate ExactAfterMove(table: Interval, raw: seq<int>, c: nat, late: int)
    reads table, table.intrs
  {
    && 0 < c < |table.intrs| == |raw| == |table.win| && SettleEnd(table.win, c) <= |raw|
    && table.intrs[c - 1].sc == Sc(raw, c - 1) + late && table.intrs[c].sc == Sc(raw, c)
    && forall j :: c <= j < SettleEnd(table.win, c) ==> table.intrs[j].sc == Sc(raw, j)
  }

  /** Between moves: a future interval's capacity plus what is pending for it is that of the recurrence,
      and the current one is above it by exactly its excess and the credit of late jobs. */
  ghost predicate ExactWithPending(table: Interval, raw: seq<int>, c: nat, credit: int)
    reads table, table.intrs
  {
    && c < |table.intrs| == |raw| == |table.sc| == |table.upd| == |table.win|
    && (table.win[c].Link? ==> c <= table.win[c].till < |raw|)
    && (forall i :: c < i < |raw| ==> table.intrs[i].sc + Outflow(table.sc, table.upd, i + 1) == Sc(raw, i))
    && table.intrs[c].sc == Sc(raw, c) + Excess(table.sc, table.upd, table.win, c) + credit
    && Excess(table.sc, table.upd, table.win, c) >= 0
  }

  /** A credit in interval c raises its recomputed capacity by just as much, and that of no later one. */
  lemma CreditRaises(raw: seq<int>, t: Truth, credit: int)
    requires Credited(raw, t, credit) && !t.over && t.cur < |raw|
    ensures Sc(raw, t.cur) == Sc(t.raw, t.cur) + credit
    ensures forall i :: t.cur < i < |raw| ==> Sc(raw, i) == Sc(t.raw, i)
  {
    forall i | t.cur < i < |raw| ensures Sc(raw, i) == Sc(t.raw, i) {
      assert raw[i..] == t.raw[i..];
      SameTail(raw, t.raw, i);
    }
  }

  /** What a decision adds to the credit: nothing, unless the job is late. */
  ghost function Earned(sc: seq<int>, win: seq<Link>, c: nat, k: Option<nat>, sched: int, now: int): int
    requires c < |sc| == |win| && (k.Some? ==> k.value < |sc|)
  {
    if sched < 0 || k.None? || c <= k.value then 0 else Back(win, c, k.value, Gain(sc[k.value], now - sched))
  }

  /** What the table tracks and the truth are charged alike. */
  lemma ChargedAlike(raw: seq<int>, sc: seq<int>, win: seq<Link>, t: Truth, s: Step, credit: int, raw': seq<int>)
    requires Credited(raw, t, credit) && !t.over && t.cur < |raw| && Allowed(t, s)
    requires ChargedTo(raw, sc, win, t.cur, s.job, t.sched, s.time, raw')
    ensures |sc| == |win| == |raw|
    ensures Credited(raw', ChargedTruth(t, s), credit + Earned(sc, win, t.cur, s.job, t.sched, s.time))
    ensures InTime(t, s) ==> Earned(sc, win, t.cur, s.job, t.sched, s.time) == 0
  {
  }

  /** After the decision: the interval handed over keeps the credit it has then. */
  lemma SettledShows(table: Interval, ends: seq<int>, t: Truth, late: int)
    requires Fits(ends, t) && !t.over && t.cur + 1 < |ends| == |table.intrs|
    requires Credited(table.raw, t, late) && table.OnTrack() && table.cur == t.cur + 1
    requires SettledExactly(table.sc, table.raw, table.win, table.cur)
    ensures ExactAfterMove(table, t.raw, t.cur + 1, late) && Credited(table.raw, Moved(ends, t), 0)
  {
    hide Interval.Table, Interval.LinksStored, Tracks, Sc;
    CreditRaises(table.raw, t, late);
    assert forall j :: 0 <= j < |table.sc| ==> table.intrs[j].sc == table.sc[j];
  }

  /** One decision on the deferred table is one step of the plain state, and exact after a move. `late` is
      the credit with the one earned now; it stays with the interval when that is left. */
  method Decide(table: Interval, d: Decision, ghost ends: seq<int>, ghost t: Truth, ghost s: Step, ghost credit: int)
      returns (ghost credit': int, ghost late: int)
    requires Shows(table, ends, t, credit) && Allowed(t, s) && Carries(table.intrList, d, s)
    modifies table`schedTime, table`timeDiff, table`raw, table`sc, table`upd
    modifies table`currPoint, table`currInterval, table`cur, table.intrs`sc, table.intrs`updateVal
    ensures Shows(table, ends, Next(ends, t, s), credit')
    ensures late >= 0 && (credit == 0 && InTime(t, s) ==> late == 0 == credit')
    ensures Moves(ends, t, s) ==> credit' == 0 && ExactAfterMove(table, Next(ends, t, s).raw, t.cur + 1, late)
  {
    hide Interval.OnTrack, Advanced, Charged, StoredTo, StoredMoved, SettledExactly, Credited, Earned;
    late, credit' := 0, credit;
    ShownCredit(table, ends, t, credit);
    if !t.over {
      ShownCurrent(table, ends, t, credit);
      ServesStep(table, d, s);
    }
    table.ServingInTable(d.running);
    ghost var raw, sc := table.raw, table.sc;
    var r := table.UpdateIntr(d.time, d.running);
    if t.over {
      StaysOver(table.raw, t, credit);
    } else {
      ChargedAlike(raw, sc, table.win, t, s, credit, table.raw);
      late := credit + Earned(sc, table.win, t.cur, s.job, t.sched, s.time);
      ghost var charged := ChargedTruth(t, s);
      CreditedParts(table.raw, charged, late);
      credit' := if s.time >= ends[t.cur] then 0 else late;
      if Moves(ends, t, s) {
        SettledShows(table, ends, charged, late);
      }
    }
  }

  lemma ShownCredit(table: Interval, ends: seq<int>, t: Truth, credit: int)
    requires Shows(table, ends, t, credit)
    ensures Fits(ends, t) && credit >= 0 && |table.raw| == |t.raw| && Credited(table.raw, t, credit)
  {
  }

  lemma StaysOver(raw: seq<int>, t: Truth, credit: int)
    requires t.over && credit >= 0 && |raw| == |t.raw|
    ensures Credited(raw, t, credit)
  {
  }

  lemma CreditedParts(raw: seq<int>, t: Truth, credit: int)
    requires Credited(raw, t, credit)
    ensures credit >= 0 && |raw| == |t.raw|
    ensures Credited(raw, t.(over := true), 0)
  {
  }

  lemma ServesStep(table: Interval, d: Decision, s: Step)
    requires Carries(table.intrList, d, s)
    ensures table.Serving(d.running) == s.job
  {
  }

  /** Over every run the deferred table agrees with the plain bookkeeping: between moves up to what is
      pending, and whenever the last step was a move exactly. Every move of a run is the last step of
      one of its beginnings. Without late jobs there is no credit. */
  method Run(table: Interval, ds: seq<Decision>, ghost ends: seq<int>, ghost t: Truth, ghost ss: seq<Step>)
      returns (ghost credit: int, ghost late: int)
    requires Shows(table, ends, t, 0) && After(ends, t, ss).Some? && |ss| == |ds|
    requires forall i :: 0 <= i < |ds| ==> Carries(table.intrList, ds[i], ss[i])
    modifies table`schedTime, table`timeDiff, table`raw, table`sc, table`upd
    modifies table`currPoint, table`currInterval, table`cur, table.intrs`sc, table.intrs`updateVal
    ensures Shows(table, ends, After(ends, t, ss).value, credit)
    ensures credit >= 0 && late >= 0 && (AllInTime(ends, t, ss) ==> credit == late == 0)
    ensures var r := After(ends, t, ss).value; !r.over ==> ExactWithPending(table, r.raw, r.cur, credit)
    ensures LastMoves(ends, t, ss) ==>
      var r := After(ends, t, ss).value; credit == 0 && ExactAfterMove(table, r.raw, r.cur, late)
  {
    hide Shows, Next, After, Allowed, Moves, ExactAfterMove, InTime;
    credit, late := 0, 0;
    ShownExact(table, ends, t, 0);
    AfterNothing(ends, t);
    assert ss[..0] == [];
    for i := 0 to |ds|
      invariant After(ends, t, ss[..i]).Some? && Shows(table, ends, After(ends, t, ss[..i]).value, credit)
      invariant forall k :: i <= k < |ds| ==> Carries(table.intrList, ds[k], ss[k])
      invariant late >= 0 && (AllInTime(ends, t, ss) ==> credit == late == 0)
      invariant LastMoves(ends, t, ss[..i]) ==>
        credit == 0 && ExactAfterMove(table, After(ends, t, ss[..i]).value.raw, After(ends, t, ss[..i]).value.cur, late)
    {
      StepRuns(ends, t, ss, i);
      credit, late := Decide(table, ds[i], ends, After(ends, t, ss[..i]).value, ss[i], credit);
      assert ss[..i + 1][..i] == ss[..i];
      if LastMoves(ends, t, ss[..i + 1]) {
        LastMoveEnds(ends, t, ss[..i + 1]);
      }
    }
    assert ss[..|ds|] == ss;
    ShownExact(table, ends, After(ends, t, ss).value, credit);
  }

  /** No job of the run is late. */
  ghost predicate AllInTime(ends: seq<int>, t: Truth, ss: seq<Step>)
    requires Fits(ends, t)
  {
    forall n :: 0 <= n < |ss| ==>
      var before := After(ends, t, ss[..n]);
      before.Some? ==> InTime(before.value, ss[n])
  }

  /** The run ends with a move. */
  predicate LastMoves(ends: seq<int>, t: Truth, ss: seq<Step>)
    requires Fits(ends, t)
  {
    && ss != [] && After(ends, t, ss[..|ss| - 1]).Some?
    && Moves(ends, After(ends, t, ss[..|ss| - 1]).value, ss[|ss| - 1])
  }

  lemma LastMoveEnds(ends: seq<int>, t: Truth, ss: seq<Step>)
    requires Fits(ends, t) && After(ends, t, ss).Some? && LastMoves(ends, t, ss)
    ensures After(ends, t, ss).value.cur == After(ends, t, ss[..|ss| - 1]).value.cur + 1
  {
  }

  lemma AfterNothing(ends: seq<int>, t: Truth)
    requires Fits(ends, t)
    ensures After(ends, t, []) == Some(t)
  {
  }

  lemma ShownExact(table: Interval, ends: seq<int>, r: Truth, credit: int)
    requires Shows(table, ends, r, credit)
    ensures Fits(ends, r) && credit >= 0 && (!r.over ==> ExactWithPending(table, r.raw, r.cur, credit))
  {
    hide Interval.Table, Outflow, Sc;
    if !r.over {
      table.Exact();
      CreditRaises(table.raw, r, credit);
    }
  }

  // ---- the plain state is remaining time and work ---------------------------------------------------

  /** Work left after a run: each job that ran between two decisions got the time between them. */
  function WorkAfter(ends: seq<int>, t: Truth, work: seq<int>, ss: seq<Step>): (w: seq<int>)
    requires Fits(ends, t) && |work| == |ends| && After(ends, t, ss).Some?
    ensures |w| == |work|
    decreases |ss|
  {
    if ss == [] then work
    else
      var n := |ss| - 1;
      var before, s, w := After(ends, t, ss[..n]).value, ss[n], WorkAfter(ends, t, work, ss[..n]);
      if before.over || before.sched < 0 then w else Worked(w, s, before.sched)
  }

  /** The work after one step: the job that ran, if any, got all the time since `from`. */
  function Worked(work: seq<int>, s: Step, from: int): (w: seq<int>)
    requires s.job.Some? ==> s.job.value < |work|
    ensures |w| == |work|
  {
    if s.job.None? then work else work[s.job.value := work[s.job.value] - (s.time - from)]
  }

  function Ends(rows: seq<IntrRow>): (e: seq<int>)
    ensures |e| == |rows| && forall k :: 0 <= k < |rows| ==> e[k] == rows[k].end
  {
    seq(|rows|, k requires 0 <= k < |rows| => rows[k].end)
  }

  /** The first decision comes at time 0, and none comes later than the end of the interval that is
      current until then. */
  ghost predicate Timely(ends: seq<int>, t: Truth, ss: seq<Step>)
    requires Fits(ends, t)
  {
    && (ss != [] ==> ss[0].time == 0)
    && forall n :: 0 <= n < |ss| ==>
         var before := After(ends, t, ss[..n]);
         before.Some? && !before.value.over ==> ss[n].time <= ends[before.value.cur]
  }

  /** In a run without late decisions, the raw capacities are the time still ahead in each interval
      minus the work still to do there. */
  lemma {:induction false} TruthIsRemaining(rows: seq<IntrRow>, t: Truth, work: seq<int>, ss: seq<Step>)
    requires Tiled(rows) && Fits(Ends(rows), t) && |work| == |rows|
    requires t.cur == 0 && !t.over && t.sched < 0 && t.raw == Remaining(rows, 0, work)
    requires ss != [] && After(Ends(rows), t, ss).Some? && Timely(Ends(rows), t, ss)
    ensures var r := After(Ends(rows), t, ss).value;
      && r.raw == Remaining(rows, r.sched, WorkAfter(Ends(rows), t, work, ss))
      && r.sched >= 0 && (!r.over ==> rows[r.cur].start <= r.sched < rows[r.cur].end)
    decreases |ss|
  {
    hide Timely, Remaining, Advanced, Allowed, Next, After, Tiled, WorkAfter;
    var ends, n := Ends(rows), |ss| - 1;
    StepRuns(ends, t, ss, n);
    TimelyPrefix(ends, t, ss);
    assert ss[..n + 1] == ss;
    AfterNothing(ends, t);
    WorkAfterStep(ends, t, work, ss);
    if n == 0 {
      assert ss[..0] == [];
      FirstStep(rows, t, work, ss[0]);
    } else {
      TruthIsRemaining(rows, t, work, ss[..n]);
      RemainingStep(rows, After(ends, t, ss[..n]).value, WorkAfter(ends, t, work, ss[..n]), ss[n]);
    }
  }

  lemma WorkAfterStep(ends: seq<int>, t: Truth, work: seq<int>, ss: seq<Step>)
    requires Fits(ends, t) && |work| == |ends| && ss != [] && After(ends, t, ss).Some?
    ensures After(ends, t, ss[..|ss| - 1]).Some?
    ensures var before, s := After(ends, t, ss[..|ss| - 1]).value, ss[|ss| - 1];
      var w := WorkAfter(ends, t, work, ss[..|ss| - 1]);
      && Allowed(before, s)
      && WorkAfter(ends, t, work, ss) == if before.over || before.sched < 0 then w else Worked(w, s, before.sched)
    ensures WorkAfter(ends, t, work, []) == work
  {
  }

  lemma FirstStep(rows: seq<IntrRow>, t: Truth, work: seq<int>, s: Step)
    requires Tiled(rows) && Fits(Ends(rows), t) && Allowed(t, s) && |work| == |rows| && s.time == 0
    requires t.cur == 0 && !t.over && t.sched < 0 && t.raw == Remaining(rows, 0, work)
    ensures var r := Next(Ends(rows), t, s);
      r.raw == t.raw && r.sched == 0 && !r.over && rows[r.cur].start <= 0 < rows[r.cur].end
  {
    assert Placed(rows, 0);
  }

  lemma TimelyPrefix(ends: seq<int>, t: Truth, ss: seq<Step>)
    requires Fits(ends, t) && ss != [] && Timely(ends, t, ss)
    ensures Timely(ends, t, ss[..|ss| - 1]) && ss[0].time == 0
    ensures var before := After(ends, t, ss[..|ss| - 1]);
      before.Some? && !before.value.over ==> ss[|ss| - 1].time <= ends[before.value.cur]
  {
    var ss' := ss[..|ss| - 1];
    forall n | 0 <= n < |ss'|
      ensures var before := After(ends, t, ss'[..n]);
        before.Some? && !before.value.over ==> ss'[n].time <= ends[before.value.cur]
    {
      assert ss'[..n] == ss[..n];
    }
  }

  lemma RemainingStep(rows: seq<IntrRow>, b: Truth, work: seq<int>, s: Step)
    requires Tiled(rows) && Fits(Ends(rows), b) && Allowed(b, s) && |work| == |rows|
    requires b.sched >= 0 && b.raw == Remaining(rows, b.sched, work)
    requires !b.over ==> rows[b.cur].start <= b.sched < rows[b.cur].end && s.time <= rows[b.cur].end
    ensures var r := Next(Ends(rows), b, s);
      var w := if b.over then work else Worked(work, s, b.sched);
      && r.raw == Remaining(rows, r.sched, w) && r.sched >= 0
      && (!r.over ==> rows[r.cur].start <= r.sched < rows[r.cur].end)
  {
    hide Advanced, Remaining;
    if !b.over {
      RemainingAdvances(rows, b.cur, b.sched, s.time - b.sched, work, s.job);
      if b.cur + 1 < |rows| {
        assert Placed(rows, b.cur + 1);
      }
    }
  }

  // ---- from start-up ----------------------------------------------------------------------------------

  /** The generated rows in run-time units. */
  function InRunTime(rows: seq<IntrRow>): (r: seq<IntrRow>)
    ensures |r| == |rows| && forall k :: 0 <= k < |rows| ==>
      r[k] == IntrRow(rows[k].id, rows[k].start * SCALE, rows[k].end * SCALE, rows[k].sc * SCALE)
  {
    seq(|rows|, k requires 0 <= k < |rows| =>
      IntrRow(rows[k].id, rows[k].start * SCALE, rows[k].end * SCALE, rows[k].sc * SCALE))
  }

  /** The plain state before the first decision: no time has passed and all work is to do. */
  function StartTruth(rows: seq<IntrRow>, groups: seq<seq<Job>>, sched: int): (t: Truth)
    requires rows != [] && |groups| == |rows|
    ensures Fits(Ends(InRunTime(rows)), t)
  {
    Truth(0, false, sched, Remaining(InRunTime(rows), 0, Scaled(WorkLeft(groups))))
  }

  /** A started table shows it. */
  lemma StartShown(table: Interval, rows: seq<IntrRow>, groups: seq<seq<Job>>)
    requires Started(table) && Loaded(table.intrs, rows) && Tiled(rows) && rows != [] && |groups| == |rows|
    requires table.raw == Scaled(Remaining(rows, 0, WorkLeft(groups)))
    ensures Tiled(InRunTime(rows)) && table.schedTime < 0
    ensures Shows(table, Ends(InRunTime(rows)), StartTruth(rows, groups, table.schedTime), 0)
  {
    hide Interval.Table, Interval.LinksStored, Interval.Stored, Tracks, ExactWindows;
    var rows' := InRunTime(rows);
    forall k | 0 <= k < |rows| ensures Placed(rows', k) {
      assert Placed(rows, k);
    }
    assert table.raw == Remaining(rows', 0, Scaled(WorkLeft(groups))) by {
      forall k | 0 <= k < |rows| ensures table.raw[k] == Remaining(rows', 0, Scaled(WorkLeft(groups)))[k] {
        assert Placed(rows, k) && Placed(rows', k);
        StartNotPassed(rows, k);
      }
    }
  }

  /** What the generated rows leave to do after the run ss: the time still ahead in each interval minus
      the work still to do for its jobs. */
  function LeftAfter(rows: seq<IntrRow>, groups: seq<seq<Job>>, sched: int, ss: seq<Step>): (left: seq<int>)
    requires rows != [] && |groups| == |rows|
    requires After(Ends(InRunTime(rows)), StartTruth(rows, groups, sched), ss).Some?
  {
    var rows', t := InRunTime(rows), StartTruth(rows, groups, sched);
    Remaining(rows', After(Ends(rows'), t, ss).value.sched, WorkAfter(Ends(rows'), t, Scaled(WorkLeft(groups)), ss))
  }

  /** The main result on the deferred table. In every run without late decisions, from start-up on: the
      stored capacities are those the offline recurrence gives on remaining time and remaining work, up
      to what is pending between moves, and exactly for old interval, new interval and its window right
      after a move. Jobs that are not late leave no credit. */
  method RunFromStart(table: Interval, ds: seq<Decision>, ghost rows: seq<IntrRow>, ghost groups: seq<seq<Job>>,
                      ghost ss: seq<Step>)
      returns (ghost credit: int, ghost late: int)
    requires Started(table) && Loaded(table.intrs, rows) && Tiled(rows) && rows != [] && |groups| == |rows|
    requires table.raw == Scaled(Remaining(rows, 0, WorkLeft(groups)))
    requires After(Ends(InRunTime(rows)), StartTruth(rows, groups, table.schedTime), ss).Some?
    requires Timely(Ends(InRunTime(rows)), StartTruth(rows, groups, table.schedTime), ss) && ss != []
    requires |ss| == |ds| && forall i :: 0 <= i < |ds| ==> Carries(table.intrList, ds[i], ss[i])
    modifies table`schedTime, table`timeDiff, table`raw, table`sc, table`upd
    modifies table`currPoint, table`currInterval, table`cur, table.intrs`sc, table.intrs`updateVal
    ensures var ends, t := Ends(InRunTime(rows)), StartTruth(rows, groups, old(table.schedTime));
      var r, left := After(ends, t, ss).value, LeftAfter(rows, groups, old(table.schedTime), ss);
      && Shows(table, ends, r, credit) && r.raw == left
      && credit >= 0 && late >= 0 && (AllInTime(ends, t, ss) ==> credit == late == 0)
      && (!r.over ==> ExactWithPending(table, left, r.cur, credit))
      && (LastMoves(ends, t, ss) ==> credit == 0 && ExactAfterMove(table, left, r.cur, late))
  {
    hide Started, Loaded, Tiled, After, Shows, Timely, Remaining, ExactWithPending, ExactAfterMove, LastMoves, Carries,
      AllInTime;
    ghost var rows', t := InRunTime(rows), StartTruth(rows, groups, table.schedTime);
    StartShown(table, rows, groups);
    TruthIsRemaining(rows', t, Scaled(WorkLeft(groups)), ss);
    credit, late := Run(table, ds, Ends(rows'), t, ss);
  }

  lemma StartNotPassed(rows: seq<IntrRow>, k: nat)
    requires Tiled(rows) && k < |rows|
    ensures rows[k].start >= 0
  {
    assert Placed(rows, k) && Placed(rows, 0);
    if k > 0 {
      StartsInOrder(rows, 0, k);
    }
  }
}
