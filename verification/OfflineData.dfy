// The offline phase: from periodic tasks to the table of intervals with spare capacities.

module OfflineData {
  import opened Recurrence

  /** A periodic task: worst-case execution time, relative deadline, period. */
  datatype Task = Task(wcet: nat, deadline: int, period: int)

  /** One job of a task within the hyperperiod; d and est are absolute. */
  datatype Job = Job(tid: nat, jid: nat, c: nat, d: int, est: int)

  datatype TaskRow = TaskRow(id: nat, est: int, wcet: nat, deadline: int, period: int,
                             intrCnt: nat, intrIds: seq<nat>)

  datatype IntrRow = IntrRow(id: nat, start: int, end: int, sc: int)

  type PeriodicTask = t: Task | 0 < t.deadline && 0 < t.period witness Task(0, 1, 1)

  // ---- jobs -----------------------------------------------------------------------------

  /** The n first jobs of a task. */
  function JobsOf(t: Task, tid: nat, n: nat): (js: seq<Job>)
    ensures |js| == n
    ensures forall i :: 0 <= i < n ==> js[i] == Job(tid, i + 1, t.wcet, t.period * i + t.deadline, t.period * i)
  {
    seq(n, i requires 0 <= i < n => Job(tid, i + 1, t.wcet, t.period * i + t.deadline, t.period * i))
  }

  /** The work of all jobs. */
  function Work(js: seq<Job>): nat {
    if js == [] then 0 else js[0].c + Work(js[1..])
  }

  /** The work due by time t. */
  function Demand(js: seq<Job>, t: int): nat {
    if js == [] then 0 else (if js[0].d <= t then js[0].c else 0) + Demand(js[1..], t)
  }

  /** The jobs of one task, in order. */
  function JobsWithId(js: seq<Job>, tid: nat): (r: seq<Job>)
    ensures forall i :: 0 <= i < |r| ==> r[i].tid == tid && r[i] in js
  {
    if js == [] then []
    else if js[0].tid == tid then [js[0]] + JobsWithId(js[1..], tid)
    else JobsWithId(js[1..], tid)
  }

  ghost predicate SortedByDeadline(js: seq<Job>) {
    forall i, j :: 0 <= i < j < |js| ==> js[i].d <= js[j].d
  }

  /** Stable sorting by deadline, the documented effect of the library sort. */
  function SortByDeadline(js: seq<Job>): seq<Job> {
    if js == [] then [] else Insert(js[0], SortByDeadline(js[1..]))
  }

  function Insert(j: Job, s: seq<Job>): seq<Job> {
    if s == [] || j.d <= s[0].d then [j] + s else [s[0]] + Insert(j, s[1..])
  }

  lemma {:induction false} InsertBounded(j: Job, s: seq<Job>, x: int)
    requires x <= j.d && forall i :: 0 <= i < |s| ==> x <= s[i].d
    ensures forall i :: 0 <= i < |Insert(j, s)| ==> x <= Insert(j, s)[i].d
    decreases |s|
  {
    if !(s == [] || j.d <= s[0].d) {
      InsertBounded(j, s[1..], x);
    }
  }

  lemma {:induction false} InsertSorted(j: Job, s: seq<Job>)
    requires SortedByDeadline(s)
    ensures SortedByDeadline(Insert(j, s))
    decreases |s|
  {
    if !(s == [] || j.d <= s[0].d) {
      InsertSorted(j, s[1..]);
      InsertBounded(j, s[1..], s[0].d);
    }
  }

  lemma {:induction false} InsertPermutes(j: Job, s: seq<Job>)
    ensures multiset(Insert(j, s)) == multiset{j} + multiset(s)
    decreases |s|
  {
    if !(s == [] || j.d <= s[0].d) {
      assert s == [s[0]] + s[1..];
      InsertPermutes(j, s[1..]);
    }
  }

  lemma {:induction false} SortSorts(js: seq<Job>)
    ensures SortedByDeadline(SortByDeadline(js)) && multiset(SortByDeadline(js)) == multiset(js)
    decreases |js|
  {
    if js != [] {
      SortSorts(js[1..]);
      InsertSorted(js[0], SortByDeadline(js[1..]));
      InsertPermutes(js[0], SortByDeadline(js[1..]));
      assert js == [js[0]] + js[1..];
    }
  }

  lemma {:induction false} InsertDemand(j: Job, s: seq<Job>, t: int)
    ensures Demand(Insert(j, s), t) == Demand([j] + s, t)
    decreases |s|
  {
    assert ([j] + s)[1..] == s;
    if !(s == [] || j.d <= s[0].d) {
      InsertDemand(j, s[1..], t);
      assert ([j] + s[1..])[1..] == s[1..];
      assert ([s[0]] + Insert(j, s[1..]))[1..] == Insert(j, s[1..]);
    }
  }

  lemma {:induction false} SortDemand(js: seq<Job>, t: int)
    ensures Demand(SortByDeadline(js), t) == Demand(js, t)
    decreases |js|
  {
    if js != [] {
      SortDemand(js[1..], t);
      InsertDemand(js[0], SortByDeadline(js[1..]), t);
      assert ([js[0]] + SortByDeadline(js[1..]))[1..] == SortByDeadline(js[1..]);
    }
  }

  lemma {:induction false} InsertWithId(j: Job, s: seq<Job>, tid: nat)
    requires forall i :: 0 <= i < |JobsWithId(s, tid)| ==> j.tid == tid ==> j.d <= JobsWithId(s, tid)[i].d
    ensures JobsWithId(Insert(j, s), tid) == (if j.tid == tid then [j] else []) + JobsWithId(s, tid)
    decreases |s|
  {
    if s == [] || j.d <= s[0].d {
      assert ([j] + s)[1..] == s;
    } else {
      assert s[0].tid == tid ==> JobsWithId(s, tid)[0] == s[0];
      assert s[0].tid == tid ==> JobsWithId(s, tid)[1..] == JobsWithId(s[1..], tid);
      forall i | 0 <= i < |JobsWithId(s[1..], tid)| ensures j.tid == tid ==> j.d <= JobsWithId(s[1..], tid)[i].d {
        if s[0].tid == tid {
          assert JobsWithId(s, tid)[i + 1] == JobsWithId(s[1..], tid)[i];
        } else {
          assert JobsWithId(s, tid)[i] == JobsWithId(s[1..], tid)[i];
        }
      }
      InsertWithId(j, s[1..], tid);
      assert ([s[0]] + Insert(j, s[1..]))[1..] == Insert(j, s[1..]);
    }
  }

  /** Sorting keeps the jobs of one task in their order, when that order is by deadline already. */
  lemma {:induction false} SortWithId(js: seq<Job>, tid: nat)
    requires SortedByDeadline(JobsWithId(js, tid))
    ensures JobsWithId(SortByDeadline(js), tid) == JobsWithId(js, tid)
    decreases |js|
  {
    if js != [] {
      var rest := JobsWithId(js[1..], tid);
      if js[0].tid == tid {
        assert JobsWithId(js, tid)[0] == js[0];
        assert rest == JobsWithId(js, tid)[1..];
      }
      SortWithId(js[1..], tid);
      InsertWithId(js[0], SortByDeadline(js[1..]), tid);
    }
  }

  /** The jobs due at t, in order. */
  function JobsDueAt(js: seq<Job>, t: int): seq<Job> {
    if js == [] then [] else (if js[0].d == t then [js[0]] else []) + JobsDueAt(js[1..], t)
  }

  lemma {:induction false} InsertDueAt(j: Job, s: seq<Job>, t: int)
    ensures JobsDueAt(Insert(j, s), t) == (if j.d == t then [j] else []) + JobsDueAt(s, t)
    decreases |s|
  {
    if !(s == [] || j.d <= s[0].d) {
      InsertDueAt(j, s[1..], t);
      assert ([s[0]] + Insert(j, s[1..]))[1..] == Insert(j, s[1..]);
    }
  }

  /** Jobs with the same deadline keep their order. */
  lemma {:induction false} SortIsStable(js: seq<Job>, t: int)
    ensures JobsDueAt(SortByDeadline(js), t) == JobsDueAt(js, t)
    decreases |js|
  {
    if js != [] {
      SortIsStable(js[1..], t);
      InsertDueAt(js[0], SortByDeadline(js[1..]), t);
    }
  }

  lemma {:induction false} WithIdAppend(xs: seq<Job>, ys: seq<Job>, tid: nat)
    ensures JobsWithId(xs + ys, tid) == JobsWithId(xs, tid) + JobsWithId(ys, tid)
    decreases |xs|
  {
    if xs == [] {
      assert xs + ys == ys;
    } else {
      assert (xs + ys)[1..] == xs[1..] + ys;
      WithIdAppend(xs[1..], ys, tid);
    }
  }

  lemma {:induction false} DemandAppend(xs: seq<Job>, ys: seq<Job>, t: int)
    ensures Demand(xs + ys, t) == Demand(xs, t) + Demand(ys, t)
    decreases |xs|
  {
    if xs == [] {
      assert xs + ys == ys;
    } else {
      assert (xs + ys)[1..] == xs[1..] + ys;
      DemandAppend(xs[1..], ys, t);
    }
  }

  lemma {:induction false} WorkAppend(xs: seq<Job>, ys: seq<Job>)
    ensures Work(xs + ys) == Work(xs) + Work(ys)
    decreases |xs|
  {
    if xs == [] {
      assert xs + ys == ys;
    } else {
      assert (xs + ys)[1..] == xs[1..] + ys;
      WorkAppend(xs[1..], ys);
    }
  }

  /** Work that is all due by t is part of the demand at t. */
  lemma {:induction false} WorkDue(js: seq<Job>, t: int)
    requires forall i :: 0 <= i < |js| ==> js[i].d <= t
    ensures Work(js) == Demand(js, t)
    decreases |js|
  {
    if js != [] {
      WorkDue(js[1..], t);
    }
  }
}
