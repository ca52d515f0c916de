// The generator that turns a task set into the tables of tasks and intervals.

module OfflinePhase {
  import opened Recurrence
  import opened Hyperperiod
  import opened OfflineData
  import opened OfflineTable
  import opened Schedulability

  /** Jobs still to be placed: by deadline, each starting before it is due, all due after the table's end. */
  ghost predicate Upcoming(js: seq<Job>, rows: seq<IntrRow>, taskCount: nat) {
    && SortedByDeadline(js)
    && forall i :: 0 <= i < |js| ==> 0 <= js[i].est < js[i].d && js[i].tid < taskCount && LastEnd(rows) < js[i].d
  }

  /** Task tid lists, job by job, an interval that ends at that job's deadline. */
  ghost predicate Associated(done: seq<Job>, row: TaskRow, tid: nat, rows: seq<IntrRow>) {
    && row.intrCnt == |row.intrIds| == |JobsWithId(done, tid)|
    && forall j :: 0 <= j < |row.intrIds| ==>
         row.intrIds[j] < |rows| && rows[row.intrIds[j]].end == JobsWithId(done, tid)[j].d
  }

  ghost predicate AllAssociated(done: seq<Job>, tsk: seq<TaskRow>, rows: seq<IntrRow>) {
    forall t :: 0 <= t < |tsk| ==> Associated(done, tsk[t], t, rows)
  }

  /** A task row with n more entries for interval id. */
  function Extended(row: TaskRow, n: nat, id: nat): TaskRow {
    row.(intrCnt := row.intrCnt + n, intrIds := row.intrIds + seq(n, _ => id))
  }

  ghost predicate ExtendedBy(tsk: seq<TaskRow>, tsk': seq<TaskRow>, g: seq<Job>, id: nat) {
    |tsk'| == |tsk| && forall t :: 0 <= t < |tsk| ==> tsk'[t] == Extended(tsk[t], |JobsWithId(g, t)|, id)
  }

  lemma AssociateOne(done: seq<Job>, row: TaskRow, tid: nat, rows: seq<IntrRow>, g: seq<Job>, rows': seq<IntrRow>, id: nat)
    requires Associated(done, row, tid, rows) && rows <= rows' && id < |rows'| && DueAtEnd(rows'[id], g)
    ensures Associated(done + g, Extended(row, |JobsWithId(g, tid)|, id), tid, rows')
  {
    WithIdAppend(done, g, tid);
    var row', own := Extended(row, |JobsWithId(g, tid)|, id), JobsWithId(done + g, tid);
    forall j | 0 <= j < |row'.intrIds| ensures row'.intrIds[j] < |rows'| && rows'[row'.intrIds[j]].end == own[j].d {
      if j >= |row.intrIds| {
        assert own[j] == JobsWithId(g, tid)[j - |row.intrIds|] && own[j] in g;
      } else {
        assert rows'[row.intrIds[j]] == rows[row.intrIds[j]];
      }
    }
  }

  lemma AssociateGroup(done: seq<Job>, tsk: seq<TaskRow>, rows: seq<IntrRow>, g: seq<Job>,
                       tsk': seq<TaskRow>, rows': seq<IntrRow>, id: nat)
    requires AllAssociated(done, tsk, rows) && ExtendedBy(tsk, tsk', g, id)
    requires rows <= rows' && id < |rows'| && DueAtEnd(rows'[id], g)
    ensures AllAssociated(done + g, tsk', rows')
  {
    forall t | 0 <= t < |tsk| ensures Associated(done + g, tsk'[t], t, rows') {
      AssociateOne(done, tsk[t], t, rows, g, rows', id);
    }
  }

  /** Only the capacities differ. */
  ghost predicate SameShape(rows: seq<IntrRow>, rows': seq<IntrRow>) {
    |rows'| == |rows| && forall k :: 0 <= k < |rows| ==>
      rows'[k].id == rows[k].id && rows'[k].start == rows[k].start && rows'[k].end == rows[k].end
  }

  lemma ShapeDecides(done: seq<Job>, rows: seq<IntrRow>, rows': seq<IntrRow>, groups: seq<seq<Job>>)
    requires Generated(done, rows, groups) && SameShape(rows, rows')
    ensures Generated(done, rows', groups) && Raws(rows', groups) == Raws(rows, groups)
  {
    forall k | 0 <= k < |rows| ensures Placed(rows', k) && Justified(rows', groups, k) {
      assert Placed(rows, k) && Justified(rows, groups, k);
    }
  }

  lemma ShapeAssociates(done: seq<Job>, tsk: seq<TaskRow>, rows: seq<IntrRow>, rows': seq<IntrRow>)
    requires AllAssociated(done, tsk, rows) && SameShape(rows, rows')
    ensures AllAssociated(done, tsk, rows')
  {
    forall t | 0 <= t < |tsk| ensures Associated(done, tsk[t], t, rows') {
      assert Associated(done, tsk[t], t, rows);
    }
  }

  function Scs(rows: seq<IntrRow>): (r: seq<int>)
    ensures |r| == |rows| && forall k :: 0 <= k < |rows| ==> r[k] == rows[k].sc
  {
    seq(|rows|, k requires 0 <= k < |rows| => rows[k].sc)
  }

  class Generator {
    var jobSet: seq<Job>
    var tskLst: seq<TaskRow>
    var intrLst: seq<IntrRow>
    ghost var done: seq<Job>          // jobs already placed
    ghost var groups: seq<seq<Job>>   // the jobs of each interval

    ghost predicate Valid()
      reads this
    {
      && Generated(done, intrLst, groups) && HoldsRaw(intrLst, groups)
      && AllAssociated(done, tskLst, intrLst)
      && Upcoming(jobSet, intrLst, |tskLst|)
    }

    constructor ()
      ensures Valid() && jobSet == [] && tskLst == [] && intrLst == [] && done == [] && groups == []
    {
      jobSet, tskLst, intrLst, done, groups := [], [], [], [], [];
    }

    /** All jobs of one task within the hyperperiod, appended to the job list. */
    method GenJobs(task: PeriodicTask, hp: nat, i: nat) returns (tsk: TaskRow)
      modifies this`jobSet
      ensures jobSet == old(jobSet) + JobsOf(task, i, hp / task.period)
      ensures tsk == TaskRow(i, 0, task.wcet, task.deadline, task.period, 0, [])
    {
      var tskJob: seq<Job> := [];
      var jobCnt: nat := hp / task.period;
      var jid, nxtEst := 1, 0;
      while jid <= jobCnt
        invariant 1 <= jid <= jobCnt + 1
        invariant jid > 1 ==> nxtEst == task.period * (jid - 1)
        invariant tskJob == JobsOf(task, i, jid - 1)
      {
        var d, est;
        if jid > 1 {
          d := nxtEst + task.deadline;
          est := nxtEst;
        } else {
          d := task.deadline;
          est := 0;
        }
        nxtEst := task.period * jid;
        tskJob := tskJob + [Job(i, jid, task.wcet, d, est)];
        jid := jid + 1;
      }
      jobSet := jobSet + tskJob;
      tsk := TaskRow(i, 0, task.wcet, task.deadline, task.period, 0, []);
    }

    method CalcWcet(tmp: seq<Job>) returns (c: nat)
      ensures c == Work(tmp)
    {
      c := 0;
      for i := 0 to |tmp|
        invariant c == Work(tmp[..i])
      {
        assert tmp[..i + 1] == tmp[..i] + [tmp[i]];
        WorkAppend(tmp[..i], [tmp[i]]);
        c := c + tmp[i].c;
      }
      assert tmp[..|tmp|] == tmp;
    }

    /** Sum up the densities of the first tasks. */
    method CheckUtilisation(taskLen: nat, taskSet: seq<PeriodicTask>) returns (u: real)
      requires taskLen <= |taskSet|
      ensures u == Utilisation(taskSet[..taskLen])
    {
      u := 0.0;
      var i := 0;
      while i < taskLen
        invariant 0 <= i <= taskLen && u == Utilisation(taskSet[..i])
      {
        assert taskSet[..i + 1][..i] == taskSet[..i];
        u := u + taskSet[i].wcet as real / taskSet[i].deadline as real;
        i := i + 1;
      }
    }

    /** Note interval id in the row of every job's task. */
    method AsocTask(jobLst: seq<Job>, intrId: nat)
      requires forall i :: 0 <= i < |jobLst| ==> jobLst[i].tid < |tskLst|
      modifies this`tskLst
      ensures ExtendedBy(old(tskLst), tskLst, jobLst, intrId)
    {
      for i := 0 to |jobLst|
        invariant ExtendedBy(old(tskLst), tskLst, jobLst[..i], intrId)
      {
        var id := jobLst[i].tid;
        ghost var before := tskLst;
        tskLst := tskLst[id := tskLst[id].(intrCnt := tskLst[id].intrCnt + 1, intrIds := tskLst[id].intrIds + [intrId])];
        assert jobLst[..i + 1] == jobLst[..i] + [jobLst[i]];
        forall t | 0 <= t < |tskLst|
          ensures tskLst[t] == Extended(old(tskLst)[t], |JobsWithId(jobLst[..i + 1], t)|, intrId)
        {
          WithIdAppend(jobLst[..i], [jobLst[i]], t);
          ExtendMore(old(tskLst)[t], |JobsWithId(jobLst[..i], t)|, intrId);
        }
      }
      assert jobLst[..|jobLst|] == jobLst;
    }

    lemma ExtendMore(row: TaskRow, n: nat, id: nat)
      ensures Extended(row, n, id).(intrCnt := row.intrCnt + n + 1, intrIds := Extended(row, n, id).intrIds + [id])
           == Extended(row, n + 1, id)
      ensures Extended(row, 0, id) == row
    {
    }

    /** Take `job` and everything due at the same time off the job list. */
    method TakeGroup(job: Job) returns (tmp: seq<Job>)
      modifies this`jobSet
      ensures tmp != [] && tmp[0] == job && [job] + old(jobSet) == tmp + jobSet
      ensures forall i :: 0 <= i < |tmp| ==> tmp[i].d == job.d
      ensures jobSet != [] ==> jobSet[0].d != job.d
    {
      tmp := [];
      var j := job;
      while true
        invariant tmp + [j] + jobSet == [job] + old(jobSet)
        invariant tmp == [] ==> j == job
        invariant tmp != [] ==> tmp[0] == job
        invariant j.d == job.d && forall i :: 0 <= i < |tmp| ==> tmp[i].d == job.d
        decreases |jobSet|
      {
        tmp := tmp + [j];
        if |jobSet| == 0 {
          break;
        }
        if job.d == jobSet[0].d {
          assert tmp + jobSet == tmp + [jobSet[0]] + jobSet[1..];
          j := jobSet[0];
          jobSet := jobSet[1..];
        } else {
          break;
        }
      }
    }

    /** Place `job` and all jobs due with it. */
    method GenIntr(job: Job, intrId: nat) returns (intrCnt: nat)
      requires Generated(done, intrLst, groups) && HoldsRaw(intrLst, groups)
      requires AllAssociated(done, tskLst, intrLst)
      requires Upcoming([job] + jobSet, intrLst, |tskLst|) && intrId == |intrLst|
      modifies this
      ensures Valid() && done + jobSet == old(done + [job] + jobSet)
      ensures |jobSet| <= |old(jobSet)| && |intrLst| == intrId + intrCnt
      ensures SameTasks(old(tskLst), tskLst)
    {
      hide Generated, HoldsRaw, AllAssociated;
      ghost var all := [job] + jobSet;
      var tmp := TakeGroup(job);
      GroupReady(all, tmp, jobSet, intrLst, |tskLst|);
      intrCnt := PlaceGroup(tmp, intrId);
      assert |jobSet| <= |old(jobSet)|;
      assert old(done + [job] + jobSet) == old(done) + all;
    }

    /** One interval ends at the deadline of the group; a job-less one comes before it when no job
        of the group may start where the table ends. */
    method PlaceGroup(tmp: seq<Job>, intrId: nat) returns (intrCnt: nat)
      requires Generated(done, intrLst, groups) && HoldsRaw(intrLst, groups)
      requires AllAssociated(done, tskLst, intrLst) && intrId == |intrLst|
      requires tmp != [] && LastEnd(intrLst) < tmp[0].d && MinEst(tmp) < tmp[0].d
      requires forall i :: 0 <= i < |tmp| ==> tmp[i].d == tmp[0].d && tmp[i].tid < |tskLst|
      modifies this`intrLst, this`tskLst, this`done, this`groups
      ensures Generated(done, intrLst, groups) && HoldsRaw(intrLst, groups)
      ensures AllAssociated(done, tskLst, intrLst) && SameTasks(old(tskLst), tskLst)
      ensures done == old(done) + tmp && |intrLst| == intrId + intrCnt && LastEnd(intrLst) == tmp[0].d
    {
      hide Generated, HoldsRaw, AllAssociated, ExtendedBy, SameTasks, Work;
      ghost var rows, tsk := intrLst, tskLst;
      intrCnt := 0;
      var id := intrId;
      var est := MinEst(tmp);
      var start;
      if intrLst != [] {
        var beforeEnd := intrLst[intrId - 1].end;
        start := if est > beforeEnd then est else beforeEnd;
        if beforeEnd != start {
          intrLst := intrLst + [IntrRow(id, beforeEnd, start, start - beforeEnd)];
          id := id + 1;
          intrCnt := intrCnt + 1;
        }
      } else {
        start := 0;
      }
      var end := tmp[0].d;
      var wcet := CalcWcet(tmp);
      AsocTask(tmp, id);
      ExtendedSame(tsk, tskLst, tmp, id);
      ghost var row := IntrRow(id, start, end, end - start - wcet);
      if intrCnt == 1 {
        ghost var gap := intrLst[intrId];
        GroupFollowsGap(done, rows, groups, tmp, gap, row);
        assert rows + [gap, row] == intrLst + [row];
        groups := groups + [[], tmp];
      } else {
        GroupFollows(done, rows, groups, tmp, row);
        groups := groups + [tmp];
      }
      intrLst := intrLst + [IntrRow(id, start, end, end - start - wcet)];
      intrCnt := intrCnt + 1;
      AssociateGroup(done, tsk, rows, tmp, tskLst, intrLst, id);
      done := done + tmp;
    }

    /** The backward pass, in place. */
    method CalculateSc()
      modifies this`intrLst
      ensures SameShape(old(intrLst), intrLst)
      ensures forall k :: 0 <= k < |intrLst| ==> intrLst[k].sc == Sc(Scs(old(intrLst)), k)
    {
      hide Sc;
      ghost var was, raws := intrLst, Scs(intrLst);
      if |intrLst| > 0 {
        ScStep(raws, |intrLst| - 1);
      }
      var i := |intrLst| - 2;
      while i >= 0
        invariant -2 <= i <= |intrLst| - 1 && SameShape(was, intrLst) && |was| == |intrLst|
        invariant forall k :: 0 <= k <= i ==> intrLst[k].sc == raws[k]
        invariant forall k :: 0 <= k < |intrLst| && i < k ==> intrLst[k].sc == Sc(raws, k)
        invariant |intrLst| > 0 ==> i <= |intrLst| - 2
        decreases i + 1
      {
        ScStep(raws, i);
        intrLst := intrLst[i := intrLst[i].(sc := intrLst[i].sc + Min0(intrLst[i + 1].sc))];
        i := i - 1;
      }
    }

    /** Place every job, then run the backward pass. */
    method GenSlotshiftingIntervals()
      requires Valid() && done == [] && intrLst == [] && groups == []
      modifies this
      ensures jobSet == [] && done == old(jobSet) && SameTasks(old(tskLst), tskLst)
      ensures Generated(done, intrLst, groups) && AllAssociated(done, tskLst, intrLst)
      ensures forall k :: 0 <= k < |intrLst| ==> intrLst[k].sc == Sc(Raws(intrLst, groups), k)
    {
      hide Generated, AllAssociated, HoldsRaw;
      ghost var all := jobSet;
      var intrId := 0;
      assert done + jobSet == all;
      while |jobSet| > 0
        invariant Valid() && done + jobSet == all && intrId == |intrLst| && SameTasks(old(tskLst), tskLst)
        decreases |jobSet|
      {
        var job := jobSet[0];
        assert [job] + jobSet[1..] == jobSet;
        jobSet := jobSet[1..];
        assert done + [job] + jobSet == all;
        var intrCnt := GenIntr(job, intrId);
        intrId := intrId + intrCnt;
      }
      assert done == all;
      ghost var rows := intrLst;
      CalculateSc();
      ShapeDecides(done, rows, intrLst, groups);
      ShapeAssociates(done, tskLst, rows, intrLst);
      RawsAreScs(rows, groups);
    }

    lemma RawsAreScs(rows: seq<IntrRow>, groups: seq<seq<Job>>)
      requires HoldsRaw(rows, groups)
      ensures Scs(rows) == Raws(rows, groups)
    {
    }

    /** The whole offline phase. Fails exactly when the tasks ask for more than the processor. With the
        deadlines at the ends of the periods that is when the work of one hyperperiod does not fit in it;
        otherwise it is when this happens to the tasks with their deadlines for periods. */
    method GenSlotshiftTable(taskSet: seq<PeriodicTask>) returns (ok: bool, hp: nat)
      requires jobSet == [] && tskLst == [] && intrLst == [] && done == [] && groups == []
      modifies this
      ensures ok <==> Utilisation(taskSet) <= 1.0
      ensures ok <==> var tight := AtDeadlines(taskSet);
        Work(AllJobs(tight, Lcm(1, Periods(tight)), |tight|)) <= Lcm(1, Periods(tight))
      ensures (forall i :: 0 <= i < |taskSet| ==> taskSet[i].deadline == taskSet[i].period) ==>
        (ok <==> Work(AllJobs(taskSet, hp, |taskSet|)) <= hp)
      ensures hp == Lcm(1, Periods(taskSet))
      ensures ok ==>
        && done == SortByDeadline(AllJobs(taskSet, hp, |taskSet|))
        && Generated(done, intrLst, groups)
        && (forall k :: 0 <= k < |intrLst| ==> intrLst[k].sc == Sc(Raws(intrLst, groups), k))
        && (Constrained(taskSet) && intrLst != [] ==> intrLst[0].sc >= 0)
        && |tskLst| == |taskSet|
        && (forall t :: 0 <= t < |taskSet| ==> TaskTabled(taskSet[t], hp, tskLst[t], t, intrLst))
    {
      hide Generated, Utilisation, AllJobs, TaskTabled;
      hp := Lcm(1, Periods(taskSet));
      FitsIffUtilised(taskSet);
      var u := CheckUtilisation(|taskSet|, taskSet);
      assert taskSet[..|taskSet|] == taskSet;
      if u > 1.0 {
        return false, hp;
      }
      ListTasks(taskSet, hp);
      jobSet := SortByDeadline(jobSet);
      StartValid(taskSet, hp);
      GenSlotshiftingIntervals();
      if Constrained(taskSet) && intrLst != [] {
        forall t: int | t >= 0 ensures Demand(done, t) <= t {
          DemandFits(taskSet, hp, t);
        }
        FirstNotInDebt(done, intrLst, groups);
      }
      forall t | 0 <= t < |taskSet| ensures TaskTabled(taskSet[t], hp, tskLst[t], t, intrLst) {
        TableOfTask(taskSet, hp, t, tskLst[t], intrLst);
      }
      return true, hp;
    }

    /** Convert every task into its jobs and its row. */
    method ListTasks(taskSet: seq<PeriodicTask>, hp: nat)
      requires jobSet == [] && tskLst == []
      modifies this`jobSet, this`tskLst
      ensures jobSet == AllJobs(taskSet, hp, |taskSet|)
      ensures |tskLst| == |taskSet|
      ensures forall t :: 0 <= t < |taskSet| ==> tskLst[t] == FreshRow(taskSet[t], t)
    {
      var i := 0;
      while i < |taskSet|
        invariant 0 <= i <= |taskSet| && |tskLst| == i
        invariant jobSet == AllJobs(taskSet, hp, i)
        invariant forall t :: 0 <= t < i ==> tskLst[t] == FreshRow(taskSet[t], t)
      {
        var tsk := GenJobs(taskSet[i], hp, i);
        tskLst := tskLst + [tsk];
        i := i + 1;
      }
    }

    lemma StartValid(taskSet: seq<PeriodicTask>, hp: nat)
      requires jobSet == SortByDeadline(AllJobs(taskSet, hp, |taskSet|))
      requires intrLst == [] && done == [] && groups == [] && |tskLst| == |taskSet|
      requires forall t :: 0 <= t < |taskSet| ==> tskLst[t] == FreshRow(taskSet[t], t)
      ensures Valid()
    {
      var js := AllJobs(taskSet, hp, |taskSet|);
      SortSorts(js);
      JobsStartBeforeDue(taskSet, hp, |taskSet|);
      forall i | 0 <= i < |jobSet|
        ensures 0 <= jobSet[i].est < jobSet[i].d && jobSet[i].tid < |taskSet| && 0 < jobSet[i].d
      {
        assert jobSet[i] in multiset(jobSet) && jobSet[i] in js;
      }
    }

    /** One task of the finished table. */
    lemma TableOfTask(taskSet: seq<PeriodicTask>, hp: nat, t: nat, row: TaskRow, rows: seq<IntrRow>)
      requires t < |taskSet| && Associated(SortByDeadline(AllJobs(taskSet, hp, |taskSet|)), row, t, rows)
      requires row == FreshRow(taskSet[t], t).(intrCnt := row.intrCnt, intrIds := row.intrIds)
      ensures TaskTabled(taskSet[t], hp, row, t, rows)
    {
      SortedJobsOfTask(taskSet, hp, t);
    }
  }

  function Periods(taskSet: seq<PeriodicTask>): (ps: seq<Pos>)
    ensures |ps| == |taskSet| && forall i :: 0 <= i < |ps| ==> ps[i] == taskSet[i].period
  {
    seq(|taskSet|, i requires 0 <= i < |taskSet| => taskSet[i].period as Pos)
  }

  /** Utilisation 1 is where the jobs of the tasks with their deadlines for periods just fit. */
  lemma FitsIffUtilised(taskSet: seq<PeriodicTask>)
    ensures var tight := AtDeadlines(taskSet);
      var hp := Lcm(1, Periods(tight));
      Utilisation(taskSet) <= 1.0 <==> Work(AllJobs(tight, hp, |tight|)) <= hp
    ensures (forall i :: 0 <= i < |taskSet| ==> taskSet[i].deadline == taskSet[i].period) ==>
      AtDeadlines(taskSet) == taskSet
  {
    hide Utilisation, AllJobs, Work;
    var ps := Periods(AtDeadlines(taskSet));
    HyperperiodIsLeast(ps, 1);
    assert forall i :: 0 <= i < |ps| ==> ps[i] in ps;
    UtilisationIsWork(taskSet, Lcm(1, ps));
    if forall i :: 0 <= i < |taskSet| ==> taskSet[i].deadline == taskSet[i].period {
      assert AtDeadlines(taskSet) == taskSet;
    }
  }

  function FreshRow(task: Task, t: nat): TaskRow {
    TaskRow(t, 0, task.wcet, task.deadline, task.period, 0, [])
  }

  /** The row of a task lists one interval per job; the j-th ends at the j-th absolute deadline. */
  ghost predicate TaskTabled(task: PeriodicTask, hp: nat, row: TaskRow, t: nat, rows: seq<IntrRow>) {
    && row.id == t && row.est == 0 && row.wcet == task.wcet && row.deadline == task.deadline && row.period == task.period
    && row.intrCnt == |row.intrIds| == hp / task.period
    && forall j :: 0 <= j < |row.intrIds| ==>
         row.intrIds[j] < |rows| && rows[row.intrIds[j]].end == task.period * j + task.deadline
  }

  /** Everything but the interval list of a task row stays as generated. */
  ghost predicate SameTasks(tsk: seq<TaskRow>, tsk': seq<TaskRow>) {
    |tsk'| == |tsk| && forall t :: 0 <= t < |tsk| ==>
      tsk'[t] == tsk[t].(intrCnt := tsk'[t].intrCnt, intrIds := tsk'[t].intrIds)
  }

  lemma ExtendedSame(tsk: seq<TaskRow>, tsk': seq<TaskRow>, g: seq<Job>, id: nat)
    requires ExtendedBy(tsk, tsk', g, id)
    ensures SameTasks(tsk, tsk')
  {
  }

  /** What is left after taking the first group is still to come, and later than that group. */
  lemma GroupReady(all: seq<Job>, g: seq<Job>, rest: seq<Job>, rows: seq<IntrRow>, n: nat)
    requires Upcoming(all, rows, n) && all == g + rest && g != []
    requires forall i :: 0 <= i < |g| ==> g[i].d == g[0].d
    requires rest != [] ==> rest[0].d != g[0].d
    ensures SortedByDeadline(rest)
    ensures forall i :: 0 <= i < |rest| ==> 0 <= rest[i].est < rest[i].d && rest[i].tid < n && g[0].d < rest[i].d
    ensures forall i :: 0 <= i < |g| ==> g[i].tid < n
    ensures LastEnd(rows) < g[0].d && 0 <= MinEst(g) < g[0].d
  {
    forall i | 0 <= i < |g| ensures g[i] == all[i] {
    }
    forall i | 0 <= i < |rest| ensures rest[i] == all[|g| + i] {
    }
    if rest != [] {
      assert all[0].d <= all[|g|].d;
      forall i | 0 <= i < |rest| ensures rest[0].d <= rest[i].d {
        if i > 0 {
          assert all[|g|].d <= all[|g| + i].d;
        }
      }
    }
  }
}
