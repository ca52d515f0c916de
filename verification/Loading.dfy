// From the generated table to the run-time table, and what that means for a running task.

module Loading {
  import opened Wrappers
  import opened Recurrence
  import opened Deferral
  import opened Hyperperiod
  import opened Schedulability
  import opened Chronos
  import opened LocalList
  import opened IntervalTable
  import opened OfflineData
  import opened OfflineTable
  import opened OfflinePhase
  import opened TaskInfo

  /** Run-time units per unit of the generated table. */
  const SCALE := 5

  /** The run-time table carries the generated rows in order, in run-time units. */
  ghost predicate Loaded(intrs: seq<IntrNode>, rows: seq<IntrRow>)
    reads intrs`id, intrs`start, intrs`end
  {
    |intrs| == |rows| && forall k {:trigger intrs[k].id} {:trigger intrs[k].end} :: 0 <= k < |rows| ==>
      intrs[k].id == rows[k].id && intrs[k].start == rows[k].start * SCALE && intrs[k].end == rows[k].end * SCALE
  }

  function Scaled(xs: seq<int>): (r: seq<int>)
    ensures |r| == |xs| && forall k :: 0 <= k < |xs| ==> r[k] == xs[k] * SCALE
  {
    seq(|xs|, k requires 0 <= k < |xs| => xs[k] * SCALE)
  }

  /** Scaling the time unit scales the whole recurrence. */
  lemma {:induction false} ScScales(raw: seq<int>, i: nat)
    requires i < |raw|
    ensures Sc(Scaled(raw), i) == Sc(raw, i) * SCALE
    decreases |raw| - i
  {
    if i + 1 < |raw| {
      ScScales(raw, i + 1);
    }
  }

  lemma LoadedNone(table: Interval)
    requires table.OnTrack() && table.intrs == []
    ensures table.Built() && Loaded(table.intrs, [])
  {
  }

  lemma LoadedOne(intrs: seq<IntrNode>, rows: seq<IntrRow>, x: IntrNode, r: IntrRow)
    requires Loaded(intrs, rows) && x.id == r.id && x.start == r.start * SCALE && x.end == r.end * SCALE
    ensures Loaded(intrs + [x], rows + [r])
  {
  }

  method CreateDefIntrList(rows: seq<IntrRow>) returns (table: Interval)
    ensures fresh(table) && table.Built() && Loaded(table.intrs, rows)
    ensures forall k :: 0 <= k < |table.intrs| ==> fresh(table.intrs[k])
    ensures table.sc == Scaled(Scs(rows))
    ensures table.currInterval == null && table.schedTime < 0 && table.timeMovt
  {
    hide Interval.Table, Interval.Stored, Interval.Built, Loaded;
    table := new Interval();
    LoadedNone(table);
    for i := 0 to |rows|
      invariant fresh(table) && fresh(table.intrList) && table.Built()
      invariant |table.intrs| == |table.intrList.nodes| == i
      invariant forall k :: 0 <= k < i ==> fresh(table.intrList.nodes[k]) && fresh(table.intrs[k])
      invariant Loaded(table.intrs, rows[..i])
      invariant table.sc == Scaled(Scs(rows[..i]))
      invariant table.currInterval == null && table.schedTime < 0 && table.timeMovt
    {
      var r := rows[i];
      ghost var before := table.intrs;
      ghost var x := table.NewIntrAppend(r.id, r.start * SCALE, r.end * SCALE, r.sc * SCALE);
      LoadedOne(before, rows[..i], x, r);
      assert rows[..i + 1] == rows[..i] + [r];
    }
    assert rows[..|rows|] == rows;
  }

  /** The interval a task is given for its j-th job ends exactly at that job's absolute deadline. */
  lemma ResolvedIntervalEnds(table: Interval, rows: seq<IntrRow>, task: PeriodicTask, hp: nat, row: TaskRow, t: nat,
                             node: ListNode<IntrNode>, j: nat)
    requires table.Built() && Tiled(rows) && Loaded(table.intrs, rows) && TaskTabled(task, hp, row, t, rows)
    requires j < |row.intrIds| && table.intrList.Has(node) && node.data.id == row.intrIds[j]
    ensures node.data.end == (task.period * j + task.deadline) * SCALE
  {
    var p := node.pos;
    assert node.data == table.intrs[p];
    assert Placed(rows, p) && Placed(rows, row.intrIds[j]);
  }

  /** A periodic task as it is added to the simulation, in run-time units. */
  datatype SimTask = SimTask(identifier: nat, period: int, activationDate: int, wcet: int, deadline: int, data: TaskData)

  /** The task carries the row's parameters in run-time units, and its list names the row's intervals. */
  ghost predicate Created(tsk: SimTask, table: Interval, row: TaskRow)
    reads table, table.intrList, table.intrList.nodes
    reads set n | n in tsk.data.intrList :: n.interval, set n | n in tsk.data.intrList :: n.interval.data
  {
    && tsk.wcet == row.wcet * 5 && tsk.deadline == row.deadline * 5 && tsk.period == row.period * 5
    && tsk.data.intrCount == row.intrCnt && Resolved(table, tsk.data.intrList, row.intrIds)
  }

  /** Create the task of a generated row; fails when one of its intervals is not in the table. */
  method CreateTsk(table: Interval, row: TaskRow) returns (ret: int, tsk: Option<SimTask>)
    requires table.Built()
    ensures ret == if forall j :: 0 <= j < |row.intrIds| ==> KnowsId(table, row.intrIds[j]) then 0 else -1
    ensures ret == 0 <==> tsk.Some?
    ensures ret == 0 ==> var s := tsk.value;
      && s.identifier == row.id && s.activationDate == row.est && Created(s, table, row)
      && fresh(s.data) && s.data.tskType == Periodic && s.data.state == -1
      && s.data.activated == 0 && (row.intrCnt == |row.intrIds| ==> s.data.AtLastJob())
  {
    hide Interval.Built, KnowsId;
    var ok, nodes := TaskIntrAsco(table, row.intrIds);
    if !ok {
      return -1, None;
    }
    var data := new TaskData(nodes, row.intrCnt, Periodic);
    return 0, Some(SimTask(row.id, row.period * 5, row.est, row.wcet * 5, row.deadline * 5, data));
  }

  /** Every interval of a generated task is in the loaded table. */
  lemma IdsKnown(table: Interval, rows: seq<IntrRow>, task: PeriodicTask, hp: nat, row: TaskRow, t: nat, j: nat)
    requires Tiled(rows) && Loaded(table.intrs, rows) && TaskTabled(task, hp, row, t, rows) && j < |row.intrIds|
    ensures KnowsId(table, row.intrIds[j])
  {
    assert Placed(rows, row.intrIds[j]);
    assert table.intrs[row.intrIds[j]].id == row.intrIds[j];
  }

  /** The task of a generated row is created, and keeps the parameters of the task set. */
  method CreateGeneratedTsk(table: Interval, rows: seq<IntrRow>, task: PeriodicTask, hp: nat, row: TaskRow, ghost t: nat)
    returns (tsk: SimTask)
    requires table.Built() && Tiled(rows) && Loaded(table.intrs, rows) && TaskTabled(task, hp, row, t, rows)
    ensures fresh(tsk.data) && Created(tsk, table, row) && tsk.data.AtLastJob() && tsk.data.activated == 0
    ensures tsk.wcet == task.wcet * SCALE && tsk.deadline == task.deadline * SCALE && tsk.period == task.period * SCALE
  {
    hide Interval.Built, Tiled, Loaded, TaskTabled, KnowsId;
    forall j | 0 <= j < |row.intrIds| ensures KnowsId(table, row.intrIds[j]) {
      IdsKnown(table, rows, task, hp, row, t, j);
    }
    RowOfTask(task, hp, row, t, rows);
    var ret, r := CreateTsk(table, row);
    return r.value;
  }

  lemma RowOfTask(task: PeriodicTask, hp: nat, row: TaskRow, t: nat, rows: seq<IntrRow>)
    requires TaskTabled(task, hp, row, t, rows)
    ensures row.wcet == task.wcet && row.deadline == task.deadline && row.period == task.period
    ensures row.intrCnt == |row.intrIds| == hp / task.period
  {
  }

  /** The j-th successive activation of a generated task selects the interval that ends at the absolute
      deadline of that activation's job, as the simulation computes it. */
  method Activate(tsk: SimTask, table: Interval, rows: seq<IntrRow>, task: PeriodicTask, hp: nat, row: TaskRow,
                  ghost t: nat, jNo: nat) returns (ret: int)
    requires table.Built() && Tiled(rows) && Loaded(table.intrs, rows) && TaskTabled(task, hp, row, t, rows)
    requires Created(tsk, table, row) && tsk.data.AtLastJob() && jNo == tsk.data.activated + 1
    modifies tsk.data`currIndex, tsk.data`activated
    ensures tsk.data.AtLastJob() && tsk.data.activated == jNo
    ensures ret == if jNo <= hp / task.period then 1 else 0
    ensures ret == 1 ==>
      && tsk.data.CurrIntr() != null
      && tsk.data.CurrIntr().data.end == tsk.period * (jNo - 1) + tsk.deadline
  {
    ret := tsk.data.SetCurrentJob(jNo);
    if ret == 1 {
      ResolvedIntervalEnds(table, rows, task, hp, row, t, tsk.data.intrList[jNo - 1].interval, jNo - 1);
    }
  }

  // ---- remaining time and work -------------------------------------------------------------

  /** How much of an interval is still ahead at `now`. */
  function Ahead(row: IntrRow, now: int): int {
    if now <= row.start then row.end - row.start
    else if now < row.end then row.end - now
    else 0
  }

  /** Raw capacity at `now`: the time still ahead in each interval minus its remaining work. */
  function Remaining(rows: seq<IntrRow>, now: int, work: seq<int>): (r: seq<int>)
    requires |work| == |rows|
    ensures |r| == |rows| && forall k :: 0 <= k < |rows| ==> r[k] == Ahead(rows[k], now) - work[k]
  {
    seq(|rows|, k requires 0 <= k < |rows| => Ahead(rows[k], now) - work[k])
  }

  lemma {:induction false} StartsInOrder(rows: seq<IntrRow>, i: nat, j: nat)
    requires Tiled(rows) && i < j < |rows|
    ensures rows[i].end <= rows[j].start
    decreases j
  {
    assert Placed(rows, j) && Placed(rows, j - 1);
    if i < j - 1 {
      StartsInOrder(rows, i, j - 1);
    }
  }

  /** The ghost truth of the run-time table is remaining time minus remaining work: a span of time
      inside interval c, given to a job of interval k or to nobody, moves it as Advanced says. */
  lemma RemainingAdvances(rows: seq<IntrRow>, c: nat, now: int, dt: nat, work: seq<int>, k: Option<nat>)
    requires Tiled(rows) && |work| == |rows| && c < |rows| && (k.Some? ==> k.value < |rows|)
    requires rows[c].start <= now && now + dt <= rows[c].end
    ensures var work' := if k.Some? then work[k.value := work[k.value] - dt] else work;
      Remaining(rows, now + dt, work') == Advanced(Remaining(rows, now, work), c, k, dt)
  {
    var work' := if k.Some? then work[k.value := work[k.value] - dt] else work;
    forall i | 0 <= i < |rows|
      ensures Remaining(rows, now + dt, work')[i] == Advanced(Remaining(rows, now, work), c, k, dt)[i]
    {
      assert Placed(rows, i);
      if i < c {
        StartsInOrder(rows, i, c);
      } else if c < i {
        StartsInOrder(rows, c, i);
      }
    }
  }

  function WorkLeft(groups: seq<seq<Job>>): (r: seq<int>)
    ensures |r| == |groups| && forall k :: 0 <= k < |groups| ==> r[k] == Work(groups[k])
  {
    seq(|groups|, k requires 0 <= k < |groups| => Work(groups[k]))
  }

  /** At time 0 with all work to do, it is the raw capacity the offline recurrence starts from. */
  lemma RemainingAtStart(rows: seq<IntrRow>, groups: seq<seq<Job>>)
    requires Tiled(rows) && |rows| == |groups|
    ensures Remaining(rows, 0, WorkLeft(groups)) == Raws(rows, groups)
  {
    forall i | 0 <= i < |rows| ensures Remaining(rows, 0, WorkLeft(groups))[i] == Raws(rows, groups)[i] {
      assert Placed(rows, i);
      if i > 0 {
        StartsInOrder(rows, 0, i);
        assert Placed(rows, 0);
      }
    }
  }

  // ---- start-up --------------------------------------------------------------------------------

  /** The run-time truth at start-up is what the rows leave of time and work, in run-time units. */
  lemma StartsExact(rows: seq<IntrRow>, groups: seq<seq<Job>>, sc: seq<int>)
    requires Tiled(rows) && |rows| == |groups| && sc == Scaled(Scs(rows))
    requires forall k :: 0 <= k < |rows| ==> rows[k].sc == Sc(Raws(rows, groups), k)
    ensures RawOf(sc) == Scaled(Remaining(rows, 0, WorkLeft(groups)))
  {
    var raws := Raws(rows, groups);
    forall i | 0 <= i < |sc| ensures Sc(Scaled(raws), i) == sc[i] {
      ScScales(raws, i);
    }
    RawOfUnique(sc, Scaled(raws));
    RemainingAtStart(rows, groups);
  }

  /** The interval ends of a loaded table increase, as the decision timer needs it. */
  lemma LoadedEndsIncrease(intrs: seq<IntrNode>, rows: seq<IntrRow>)
    requires Tiled(rows) && Loaded(intrs, rows)
    ensures Timer.EndsIncrease(intrs)
  {
    forall i, j | 0 <= i < j < |intrs| ensures intrs[i].end < intrs[j].end {
      StartsInOrder(rows, i, j);
      assert Placed(rows, j);
    }
    if |intrs| > 0 {
      assert Placed(rows, 0);
    }
  }

  lemma {:induction false} SomeJob(tasks: seq<PeriodicTask>, hp: nat, m: nat)
    requires 0 < m <= |tasks| && hp / tasks[0].period > 0
    ensures AllJobs(tasks, hp, m) != []
    decreases m
  {
    if m > 1 {
      SomeJob(tasks, hp, m - 1);
    } else {
      assert |JobsOf(tasks[0], 0, hp / tasks[0].period)| > 0;
    }
  }

  /** A task set that is not empty has a job to place. */
  lemma SomeInterval(tasks: seq<PeriodicTask>, hp: nat, rows: seq<IntrRow>, groups: seq<seq<Job>>)
    requires tasks != [] && hp == Lcm(1, Periods(tasks))
    requires Generated(SortByDeadline(AllJobs(tasks, hp, |tasks|)), rows, groups)
    ensures rows != []
  {
    var p := Periods(tasks)[0];
    assert p in Periods(tasks);
    HyperperiodIsLeast(Periods(tasks), 1);
    var q := DividesQuotient(p, hp);
    SomeJob(tasks, hp, |tasks|);
    SortSorts(AllJobs(tasks, hp, |tasks|));
    assert AllJobs(tasks, hp, |tasks|)[0] in multiset(SortByDeadline(AllJobs(tasks, hp, |tasks|)));
  }

  /** Load generated rows and find the relation windows; fails when the first interval is in debt. */
  method LoadTable(rows: seq<IntrRow>, ghost groups: seq<seq<Job>>) returns (ok: bool, table: Interval)
    requires rows != [] && Tiled(rows) && |rows| == |groups|
    requires forall k :: 0 <= k < |rows| ==> rows[k].sc == Sc(Raws(rows, groups), k)
    ensures ok <==> rows[0].sc >= 0
    ensures fresh(table) && Loaded(table.intrs, rows) && Timer.EndsIncrease(table.intrs)
    ensures ok ==> Started(table) && table.raw == Scaled(Remaining(rows, 0, WorkLeft(groups)))
  {
    hide Interval.OnTrack, Interval.Built, Interval.Table, Interval.Stored, Loaded, ExactWindows;
    table := CreateDefIntrList(rows);
    LoadedLength(table.intrs, rows);
    LoadedEndsIncrease(table.intrs, rows);
    StartsExact(rows, groups, table.sc);
    assert table.sc[0] == rows[0].sc * SCALE;
    ok := table.CreateRelationWindow();
  }

  /** The table before the first decision. */
  ghost predicate Started(table: Interval)
    reads table, table.intrList, table.intrList.nodes, table.intrs, table.currPoint
  {
    && table.OnTrack() && table.cur == 0 && table.currInterval != null && table.schedTime < 0 && table.timeMovt
    && ExactWindows(table.sc, table.win)
  }

  /** From a task set to the running table: generate, load, find the relation windows. It stops only
      when the tasks ask for more than the processor or the first interval is in debt; the latter
      does not happen when every deadline is within its period. */
  method StartUp(taskSet: seq<PeriodicTask>) returns (ok: bool, gen: Generator, table: Interval?)
    requires taskSet != []
    ensures ok <==> Utilisation(taskSet) <= 1.0 && gen.intrLst != [] && gen.intrLst[0].sc >= 0
    ensures Utilisation(taskSet) <= 1.0 && Constrained(taskSet) ==> ok
    ensures Utilisation(taskSet) <= 1.0 ==>
      && Generated(SortByDeadline(AllJobs(taskSet, Lcm(1, Periods(taskSet)), |taskSet|)), gen.intrLst, gen.groups)
      && Tiled(gen.intrLst) && gen.intrLst != [] && |gen.groups| == |gen.intrLst|
      && (forall k :: 0 <= k < |gen.intrLst| ==> gen.intrLst[k].sc == Sc(Raws(gen.intrLst, gen.groups), k))
      && |gen.tskLst| == |taskSet|
      && (forall i :: 0 <= i < |taskSet| ==>
            TaskTabled(taskSet[i], Lcm(1, Periods(taskSet)), gen.tskLst[i], i, gen.intrLst))
    ensures ok ==>
      && table != null && Started(table) && Loaded(table.intrs, gen.intrLst) && Timer.EndsIncrease(table.intrs)
      && table.raw == Scaled(Remaining(gen.intrLst, 0, WorkLeft(gen.groups)))
  {
    hide Loaded, AllJobs, Utilisation, Constrained, TaskTabled, Started, Generated, Timer.EndsIncrease;
    gen := new Generator();
    table := null;
    var hp;
    ok, hp := gen.GenSlotshiftTable(taskSet);
    if ok {
      SomeInterval(taskSet, hp, gen.intrLst, gen.groups);
      GeneratedTiles(gen.done, gen.intrLst, gen.groups);
      ok, table := LoadTable(gen.intrLst, gen.groups);
    }
  }

  lemma GeneratedTiles(done: seq<Job>, rows: seq<IntrRow>, groups: seq<seq<Job>>)
    requires Generated(done, rows, groups)
    ensures Tiled(rows) && |rows| == |groups|
  {
  }

  lemma LoadedLength(intrs: seq<IntrNode>, rows: seq<IntrRow>)
    requires Loaded(intrs, rows)
    ensures |intrs| == |rows|
  {
  }
}
