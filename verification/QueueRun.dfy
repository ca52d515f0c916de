// Whole runs of the job queues: any sequence of arrivals, ends and selections.

module QueueRun {
  import opened Wrappers
  import Runs
  import opened TaskInfo
  import opened StateMachine

  datatype Op = Arrive(job: ReadyJob) | End(job: ReadyJob) | Select

  ghost predicate TaskIsLive(qs: Queues, data: TaskData) {
    exists j :: j in Live(qs) && j.data == data
  }

  /** What keeps the states naming the queues: a job that ends was concluded, or, if it had been refused,
      its task has no live job. */
  ghost predicate Possible(qs: Queues, op: Op) {
    op.End? ==> if op.job in Live(qs) then op.job !in qs.unc else !TaskIsLive(qs, op.job.data)
  }

  /** What an operation does to the queues, told from the queues alone. */
  ghost function Done(qs: Queues, op: Op): Queues {
    match op
    case Arrive(job) => if TaskIsLive(qs, job.data) then qs else Entered(qs, HomeState(job.data.tskType), job)
    case End(job) => Removed(qs, job)
    case Select => Selected(qs)
  }

  function Removed(qs: Queues, job: ReadyJob): Queues {
    if qs.run == job then qs.(run := null)
    else if job in qs.g then qs.(g := Without(qs.g, job))
    else if job in qs.ng then qs.(ng := Without(qs.ng, job))
    else qs
  }

  ghost function Ops(): (Queues, Op) -> Option<Queues> {
    (qs: Queues, op: Op) => if Possible(qs, op) then Some(Done(qs, op)) else None
  }

  /** The queues after a run, where it is possible throughout. */
  ghost function After(qs: Queues, ops: seq<Op>): Option<Queues> {
    Runs.After(Ops(), qs, ops)
  }

  lemma OpInRun(qs: Queues, ops: seq<Op>, n: nat)
    requires After(qs, ops).Some? && n < |ops|
    ensures var before := After(qs, ops[..n]);
      && before.Some? && Possible(before.value, ops[n])
      && After(qs, ops[..n + 1]) == Some(Done(before.value, ops[n]))
  {
    Runs.StepRuns(Ops(), qs, ops, n);
  }

  /** The machine's states are the ones it set itself: a task without a live job is in none. */
  ghost predicate Accounted(qs: Queues, tasks: set<TaskData>)
    reads tasks`state
  {
    && (forall j :: j in Live(qs) ==> j.data in tasks)
    && forall d :: d in tasks ==> d.state == EXIT || TaskIsLive(qs, d)
  }

  /** One operation of the machine is one step on the queues, whatever the operation; afterwards the
      states still name the queues if and only if the operation was a possible one. */
  method Perform(m: State, op: Op, ghost tasks: set<TaskData>)
    requires Sorted(m.View()) && Accounted(m.View(), tasks)
    requires !op.Select? ==> op.job.data in tasks
    modifies m, tasks`state
    ensures m.View() == Done(old(m.View()), op)
    ensures Sorted(m.View()) <==> Possible(old(m.View()), op)
    ensures Possible(old(m.View()), op) ==> Accounted(m.View(), tasks)
  {
    hide Sorted, Live, Accounted;
    match op
    case Arrive(job) => Arrives(m, job, tasks);
    case End(job) => Ends(m, job, tasks);
    case Select => Selects(m, tasks);
  }

  method Arrives(m: State, job: ReadyJob, ghost tasks: set<TaskData>)
    requires Sorted(m.View()) && Accounted(m.View(), tasks) && job.data in tasks
    modifies m, tasks`state
    ensures m.View() == Done(old(m.View()), Arrive(job)) && Sorted(m.View()) && Accounted(m.View(), tasks)
  {
    hide Sorted, Live;
    ghost var qs := m.View();
    LiveStates(qs);
    if job.data.state == EXIT {
      NoLiveJob(qs, job);
    }
    var ret := m.AddJob(job);
  }

  method Ends(m: State, job: ReadyJob, ghost tasks: set<TaskData>)
    requires Sorted(m.View()) && Accounted(m.View(), tasks) && job.data in tasks
    modifies m, tasks`state
    ensures m.View() == Done(old(m.View()), End(job))
    ensures Sorted(m.View()) <==> Possible(old(m.View()), End(job))
    ensures Possible(old(m.View()), End(job)) ==> Accounted(m.View(), tasks)
  {
    hide Sorted, Live;
    ghost var qs := m.View();
    if job in Live(qs) {
      StateNamesQueue(qs, job);
    }
    NotQueued(qs, job);
    LiveStates(qs);
    m.RmvJob(job);
  }

  method Selects(m: State, ghost tasks: set<TaskData>)
    requires Sorted(m.View()) && Accounted(m.View(), tasks)
    modifies m, tasks`state
    ensures m.View() == Done(old(m.View()), Select) && Sorted(m.View()) && Accounted(m.View(), tasks)
  {
    hide Sorted, Live, Selected;
    var job := m.SelectionFunction();
  }

  /** In every run the queues are what the operations make of them, every live job stays in exactly
      the queue its state names, and a task without a live job is in no state. */
  method Run(m: State, ops: seq<Op>, ghost tasks: set<TaskData>)
    requires Sorted(m.View()) && Accounted(m.View(), tasks) && After(m.View(), ops).Some?
    requires forall op :: op in ops && !op.Select? ==> op.job.data in tasks
    modifies m, tasks`state
    ensures Some(m.View()) == After(old(m.View()), ops) && Sorted(m.View()) && Accounted(m.View(), tasks)
  {
    hide Sorted, Accounted, Possible, Done;
    ghost var qs := m.View();
    assert ops[..0] == [];
    for i := 0 to |ops|
      invariant After(qs, ops[..i]) == Some(m.View())
      invariant Sorted(m.View()) && Accounted(m.View(), tasks)
    {
      OpInRun(qs, ops, i);
      Perform(m, ops[i], tasks);
    }
    assert ops[..|ops|] == ops;
  }

  // ---- runs of selections ---------------------------------------------------------------------

  function Selections(n: nat): (ops: seq<Op>)
    ensures |ops| == n && forall i :: 0 <= i < n ==> ops[i] == Select
  {
    seq(n, _ => Select)
  }

  lemma {:induction false} SelectionsRun(qs: Queues, n: nat)
    ensures After(qs, Selections(n)) == Some(SelectedTimes(qs, n))
    decreases n
  {
    hide Selected, Possible, SelectedTimes;
    SelectedNext(qs, n);
    if n > 0 {
      SelectionsRun(qs, n - 1);
      assert Selections(n)[..n - 1] == Selections(n - 1);
      SelectIsPossible(SelectedTimes(qs, n - 1));
    }
  }

  lemma SelectedNext(qs: Queues, n: nat)
    ensures SelectedTimes(qs, n) == if n == 0 then qs else Selected(SelectedTimes(qs, n - 1))
  {
  }

  lemma SelectIsPossible(qs: Queues)
    ensures Possible(qs, Select)
  {
  }

  /** The run leads to j running. */
  ghost predicate RunsAfter(qs: Queues, ops: seq<Op>, j: ReadyJob) {
    After(qs, ops).Some? && After(qs, ops).value.run == j
  }

  /** In a run without arrivals, ends and guaranteed jobs, every live soft job gets to run within as many
      selections as there are soft jobs. */
  lemma NoSoftJobStarves(qs: Queues, j: ReadyJob)
    requires Sorted(qs) && (forall i :: i in Live(qs) ==> !Guaranteed(i.data.tskType))
    requires j in Live(qs) && j !in qs.unc
    ensures exists n :: 0 < n <= |Waiting(qs)| && RunsAfter(qs, Selections(n), j)
  {
    hide After, SelectedTimes, Sorted, Live;
    EveryLiveSoftJobRuns(qs, j);
    var n :| 0 < n <= |Waiting(qs)| && SelectedTimes(qs, n).run == j;
    SelectionsRun(qs, n);
    assert RunsAfter(qs, Selections(n), j);
  }

  // ---- an end that does harm ----------------------------------------------------------------------

  /** Two jobs of one periodic task arrive, and the second one, which was refused, ends: the first one
      is still queued, but its state is gone. */
  method RefusedJobEnds() returns (m: State, live: ReadyJob, refused: ReadyJob)
    ensures fresh(m) && live != refused && live.data == refused.data
    ensures live in Live(m.View()) && live.data.state == EXIT
    ensures !Sorted(m.View()) && !Possible(m.View(), End(refused))
  {
    hide Sorted, Holds, Left, Entered, Without;
    var data := new TaskData([], 0, Periodic);
    live := new ReadyJob(data, 1);
    refused := new ReadyJob(data, 2);
    m := new State();
    var r := m.AddJob(live);
    r := m.AddJob(refused);
    m.RmvJob(refused);
  }
}
