// The processor-demand argument: enough capacity for every interval of the generated table.

module Schedulability {
  import opened OfflineData

  /** How many of the first n jobs of a task are due by t. */
  function DueCount(task: PeriodicTask, n: nat, t: int): nat {
    if n == 0 then 0
    else DueCount(task, n - 1, t) + if task.period * (n - 1) + task.deadline <= t then 1 else 0
  }

  lemma {:induction false} DueCountAll(task: PeriodicTask, n: nat, t: int)
    ensures DueCount(task, n, t) <= n
    ensures n > 0 && task.period * (n - 1) + task.deadline <= t ==> DueCount(task, n, t) == n
    decreases n
  {
    if n > 0 {
      DueCountAll(task, n - 1, t);
      if n > 1 {
        assert task.period * (n - 2) + task.period == task.period * (n - 1);
      }
    }
  }

  /** A task whose deadline is within its period is due at most t / deadline times by t. */
  lemma {:induction false} DueCountBound(task: PeriodicTask, n: nat, t: int)
    requires task.deadline <= task.period && t >= 0
    ensures DueCount(task, n, t) * task.deadline <= t
    decreases n
  {
    if n > 0 {
      if task.period * (n - 1) + task.deadline <= t {
        DueCountAll(task, n, t);
        FitsInPeriods(task, n);
      } else {
        DueCountBound(task, n - 1, t);
      }
    }
  }

  lemma {:induction false} TimesKeepsOrder(k: nat, a: int, b: int)
    requires a <= b
    ensures k * a <= k * b
  {
    if k > 0 {
      TimesKeepsOrder(k - 1, a, b);
    }
  }

  lemma FitsInPeriods(task: PeriodicTask, n: nat)
    requires task.deadline <= task.period && n > 0
    ensures n * task.deadline <= task.period * (n - 1) + task.deadline
  {
    TimesKeepsOrder(n - 1, task.deadline, task.period);
  }

  lemma {:induction false} DemandOfTask(task: PeriodicTask, tid: nat, n: nat, t: int)
    ensures Demand(JobsOf(task, tid, n), t) == task.wcet * DueCount(task, n, t)
    decreases n
  {
    if n > 0 {
      var js, last := JobsOf(task, tid, n), JobsOf(task, tid, n)[n - 1];
      assert js == JobsOf(task, tid, n - 1) + [last];
      DemandOfTask(task, tid, n - 1, t);
      DemandAppend(JobsOf(task, tid, n - 1), [last], t);
      assert Demand([last], t) == if last.d <= t then last.c else 0;
      assert task.wcet * (DueCount(task, n - 1, t) + 1) == task.wcet * DueCount(task, n - 1, t) + task.wcet;
    }
  }

  /** Every deadline is within its period. */
  ghost predicate Constrained(tasks: seq<PeriodicTask>) {
    forall i :: 0 <= i < |tasks| ==> tasks[i].deadline <= tasks[i].period
  }

  /** The share of the processor one task asks for. */
  function Density(task: PeriodicTask): real
  {
    task.wcet as real / task.deadline as real
  }

  function Utilisation(tasks: seq<PeriodicTask>): real
  {
    if tasks == [] then 0.0 else Utilisation(tasks[..|tasks| - 1]) + Density(tasks[|tasks| - 1])
  }

  /** The processor time a share u amounts to by t. */
  function Times(u: real, t: int): real {
    u * t as real
  }

  lemma TimesAdds(u: real, v: real, t: int)
    ensures Times(u + v, t) == Times(u, t) + Times(v, t)
  {
  }

  lemma TimesAtMostOnce(u: real, t: int)
    requires u <= 1.0 && t >= 0
    ensures Times(u, t) <= t as real
  {
  }

  lemma DemandWithinDensity(task: PeriodicTask, tid: nat, n: nat, t: int)
    requires task.deadline <= task.period && t >= 0
    ensures Demand(JobsOf(task, tid, n), t) as real <= Times(Density(task), t)
  {
    DemandOfTask(task, tid, n, t);
    DueCountBound(task, n, t);
    Scale(task.wcet, DueCount(task, n, t), task.deadline, t);
  }

  lemma Scale(c: nat, m: nat, d: int, t: int)
    requires d > 0 && m * d <= t
    ensures (c * m) as real <= (c as real / d as real) * t as real
  {
    var cr, mr, dr, tr := c as real, m as real, d as real, t as real;
    assert (m * d) as real == mr * dr;
    var q := cr / dr;
    assert q * dr == cr;
    MulLe(q, mr * dr, tr);
    assert q * (mr * dr) == (q * dr) * mr == cr * mr == (c * m) as real;
  }

  lemma MulLe(q: real, x: real, y: real)
    requires q >= 0.0 && x <= y
    ensures q * x <= q * y
  {
  }

  /** The jobs of the first m tasks, task after task, as they are put into the job list. */
  function AllJobs(tasks: seq<PeriodicTask>, hp: nat, m: nat): seq<Job>
    requires m <= |tasks|
  {
    if m == 0 then [] else AllJobs(tasks, hp, m - 1) + JobsOf(tasks[m - 1], m - 1, hp / tasks[m - 1].period)
  }

  lemma {:induction false} DemandWithinUtilisation(tasks: seq<PeriodicTask>, hp: nat, m: nat, t: int)
    requires m <= |tasks| && t >= 0 && Constrained(tasks)
    ensures Demand(AllJobs(tasks, hp, m), t) as real <= Times(Utilisation(tasks[..m]), t)
    decreases m
  {
    hide Times, Density;
    if m == 0 {
      assert tasks[..0] == [];
      TimesAdds(0.0, 0.0, t);
    } else {
      DemandWithinUtilisation(tasks, hp, m - 1, t);
      var js := JobsOf(tasks[m - 1], m - 1, hp / tasks[m - 1].period);
      DemandAppend(AllJobs(tasks, hp, m - 1), js, t);
      DemandWithinDensity(tasks[m - 1], m - 1, hp / tasks[m - 1].period, t);
      assert tasks[..m][..m - 1] == tasks[..m - 1];
      TimesAdds(Utilisation(tasks[..m - 1]), Density(tasks[m - 1]), t);
    }
  }

  /** A task set that asks for at most the whole processor never demands more than the time there is. */
  lemma DemandFits(tasks: seq<PeriodicTask>, hp: nat, t: int)
    requires Constrained(tasks) && Utilisation(tasks) <= 1.0 && t >= 0
    ensures Demand(SortByDeadline(AllJobs(tasks, hp, |tasks|)), t) <= t
  {
    hide Times, Utilisation;
    assert tasks[..|tasks|] == tasks;
    SortDemand(AllJobs(tasks, hp, |tasks|), t);
    DemandWithinUtilisation(tasks, hp, |tasks|, t);
    TimesAtMostOnce(Utilisation(tasks), t);
  }

  // ---- the utilisation itself ------------------------------------------------------------------

  lemma {:induction false} WorkOfTask(task: PeriodicTask, tid: nat, n: nat)
    ensures Work(JobsOf(task, tid, n)) == n * task.wcet
    decreases n
  {
    if n > 0 {
      WorkOfTask(task, tid, n - 1);
      var last := JobsOf(task, tid, n)[n - 1];
      assert JobsOf(task, tid, n) == JobsOf(task, tid, n - 1) + [last];
      WorkAppend(JobsOf(task, tid, n - 1), [last]);
      assert Work([last]) == task.wcet;
    }
  }

  /** A task's share of the processor completes n jobs in n times the deadline. */
  lemma ShareOfTask(task: PeriodicTask, n: nat)
    ensures Times(Density(task), n * task.deadline) == (n * task.wcet) as real
  {
    var q, nr, dr := Density(task), n as real, task.deadline as real;
    assert (n * task.deadline) as real == nr * dr;
    assert q * dr == task.wcet as real;
    assert q * (nr * dr) == nr * (q * dr);
  }

  /** The tasks as they ask for most: the next job is released as soon as the last one is due. */
  function AtDeadlines(tasks: seq<PeriodicTask>): (r: seq<PeriodicTask>)
    ensures |r| == |tasks|
    ensures forall i :: 0 <= i < |r| ==> r[i] == Task(tasks[i].wcet, tasks[i].deadline, tasks[i].deadline)
  {
    seq(|tasks|, i requires 0 <= i < |tasks| => tasks[i].(period := tasks[i].deadline))
  }

  /** What a task asks for in d, with as many of its jobs as fit one behind the other. */
  function WorkWithin(task: PeriodicTask, d: nat): nat {
    d / task.deadline * task.wcet
  }

  ghost predicate EndsADeadline(task: PeriodicTask, d: nat) {
    d % task.deadline == 0
  }

  lemma ShareWithin(task: PeriodicTask, d: nat)
    requires EndsADeadline(task, d)
    ensures Times(Density(task), d) == WorkWithin(task, d) as real
  {
    hide Times, Density;
    assert d == d / task.deadline * task.deadline;
    ShareOfTask(task, d / task.deadline);
  }

  lemma NextWork(tasks: seq<PeriodicTask>, d: nat, m: nat)
    requires 0 < m <= |tasks|
    ensures Work(AllJobs(AtDeadlines(tasks), d, m))
         == Work(AllJobs(AtDeadlines(tasks), d, m - 1)) + WorkWithin(tasks[m - 1], d)
  {
    hide Work;
    var task := AtDeadlines(tasks)[m - 1];
    WorkAppend(AllJobs(AtDeadlines(tasks), d, m - 1), JobsOf(task, m - 1, d / task.period));
    WorkOfTask(task, m - 1, d / task.period);
  }

  lemma NextUtilisation(tasks: seq<PeriodicTask>, m: nat)
    requires 0 < m <= |tasks|
    ensures Utilisation(tasks[..m]) == Utilisation(tasks[..m - 1]) + Density(tasks[m - 1])
  {
    assert tasks[..m][..m - 1] == tasks[..m - 1];
  }

  lemma NothingToShare(tasks: seq<PeriodicTask>, d: nat)
    ensures Times(Utilisation(tasks[..0]), d) == 0.0 && Work(AllJobs(AtDeadlines(tasks), d, 0)) == 0
  {
  }

  lemma {:induction false} ShareOfTasks(tasks: seq<PeriodicTask>, d: nat, m: nat)
    requires m <= |tasks| && forall i :: 0 <= i < |tasks| ==> EndsADeadline(tasks[i], d)
    ensures Times(Utilisation(tasks[..m]), d) == Work(AllJobs(AtDeadlines(tasks), d, m)) as real
    decreases m
  {
    hide *;
    if m == 0 {
      NothingToShare(tasks, d);
    } else {
      ShareOfTasks(tasks, d, m - 1);
      NextWork(tasks, d, m);
      NextUtilisation(tasks, m);
      ShareWithin(tasks[m - 1], d);
      TimesAdds(Utilisation(tasks[..m - 1]), Density(tasks[m - 1]), d);
    }
  }

  /** What the utilisation is: over any time d that all deadlines divide, u * d is the work of the jobs
      that fit into d one behind the other. So it is at most 1 exactly when that work is at most d. */
  lemma UtilisationIsWork(tasks: seq<PeriodicTask>, d: nat)
    requires d > 0 && forall i :: 0 <= i < |tasks| ==> EndsADeadline(tasks[i], d)
    ensures Utilisation(tasks) * d as real == Work(AllJobs(AtDeadlines(tasks), d, |tasks|)) as real
    ensures Utilisation(tasks) <= 1.0 <==> Work(AllJobs(AtDeadlines(tasks), d, |tasks|)) <= d
  {
    hide Utilisation, AllJobs;
    assert tasks[..|tasks|] == tasks;
    ShareOfTasks(tasks, d, |tasks|);
    AtMostOnce(Utilisation(tasks), d);
  }

  lemma AtMostOnce(u: real, d: int)
    requires d > 0
    ensures u <= 1.0 <==> Times(u, d) <= d as real
  {
    if u > 1.0 {
      assert (u - 1.0) * d as real > 0.0;
    }
  }

  lemma NextJobsWithId(tasks: seq<PeriodicTask>, hp: nat, m: nat, tid: nat)
    requires 0 < m <= |tasks|
    ensures JobsWithId(AllJobs(tasks, hp, m), tid) == JobsWithId(AllJobs(tasks, hp, m - 1), tid)
        + if tid == m - 1 then JobsOf(tasks[m - 1], m - 1, hp / tasks[m - 1].period) else []
  {
    hide JobsWithId;
    var js := JobsOf(tasks[m - 1], m - 1, hp / tasks[m - 1].period);
    WithIdAppend(AllJobs(tasks, hp, m - 1), js, tid);
    AllOneId(js, m - 1, tid);
  }

  /** The jobs of one task within the whole list are exactly the ones generated for it. */
  lemma {:induction false} JobsOfOneTask(tasks: seq<PeriodicTask>, hp: nat, m: nat, tid: nat)
    requires m <= |tasks|
    ensures JobsWithId(AllJobs(tasks, hp, m), tid)
         == if tid < m then JobsOf(tasks[tid], tid, hp / tasks[tid].period) else []
    decreases m
  {
    if m > 0 {
      hide *;
      JobsOfOneTask(tasks, hp, m - 1, tid);
      NextJobsWithId(tasks, hp, m, tid);
    }
  }

  lemma {:induction false} AllOneId(js: seq<Job>, own: nat, tid: nat)
    requires forall i :: 0 <= i < |js| ==> js[i].tid == own
    ensures JobsWithId(js, tid) == if tid == own then js else []
    decreases |js|
  {
    if js != [] {
      AllOneId(js[1..], own, tid);
    }
  }

  /** After sorting, the j-th job of a task is still its j-th job, with its own absolute deadline. */
  lemma SortedJobsOfTask(tasks: seq<PeriodicTask>, hp: nat, tid: nat)
    requires tid < |tasks|
    ensures JobsWithId(SortByDeadline(AllJobs(tasks, hp, |tasks|)), tid)
         == JobsOf(tasks[tid], tid, hp / tasks[tid].period)
  {
    var js, task := AllJobs(tasks, hp, |tasks|), tasks[tid];
    JobsOfOneTask(tasks, hp, |tasks|, tid);
    var own := JobsOf(task, tid, hp / task.period);
    forall i, j | 0 <= i < j < |own| ensures own[i].d <= own[j].d {
      TimesKeepsOrder(task.period, i, j);
    }
    SortWithId(js, tid);
  }

  /** Every job starts before it is due. */
  lemma {:induction false} JobsStartBeforeDue(tasks: seq<PeriodicTask>, hp: nat, m: nat)
    requires m <= |tasks|
    ensures forall i :: 0 <= i < |AllJobs(tasks, hp, m)| ==>
      var j := AllJobs(tasks, hp, m)[i];
      0 <= j.est < j.d && j.tid < m
    decreases m
  {
    if m > 0 {
      JobsStartBeforeDue(tasks, hp, m - 1);
      var n := hp / tasks[m - 1].period;
      var js := JobsOf(tasks[m - 1], m - 1, n);
      forall i | 0 <= i < n ensures 0 <= js[i].est < js[i].d {
        assert tasks[m - 1].period * i >= 0;
      }
    }
  }
}
