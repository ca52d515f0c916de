// The job queues of the scheduler and the bitmask-guarded state machine that moves jobs between
// them.

module StateMachine {
  import opened TaskInfo

  const JUST_ARRIVED := 0
  const UNCONCLUDED := 1
  const NOT_GUARANTEE := 2
  const GUARANTEE := 3
  const RUNNING := 4
  const EXIT := -1

  class ReadyJob {
    const data: TaskData
    const absoluteDeadline: int

    constructor (data: TaskData, absoluteDeadline: int)
      ensures this.data == data && this.absoluteDeadline == absoluteDeadline
    {
      this.data, this.absoluteDeadline := data, absoluteDeadline;
    }
  }

  // ---- the transition guard -----------------------------------------------------------------

  /** The states a job may not enter from s, as a mask of their bits. */
  function NotState(s: int): bv8
    requires JUST_ARRIVED <= s <= RUNNING
  {
    if s == JUST_ARRIVED then 0 else if s == UNCONCLUDED then 1 else if s == NOT_GUARANTEE then 11
    else if s == GUARANTEE then 7 else 3
  }

  function StateBit(s: int): bv8
    requires JUST_ARRIVED <= s <= RUNNING
  {
    if s == JUST_ARRIVED then 1 else if s == UNCONCLUDED then 2 else if s == NOT_GUARANTEE then 4
    else if s == GUARANTEE then 8 else 16
  }

  predicate CheckTransition(curr: int, nxt: int)
    requires EXIT <= curr <= RUNNING && JUST_ARRIVED <= nxt <= RUNNING
  {
    curr == EXIT || NotState(curr) & StateBit(nxt) == 0
  }

  /** What the masks amount to: a job enters only when its task has no live job, a guaranteed job
      never loses its guarantee, a soft job never gains one, and nothing becomes unconcluded later. */
  lemma TransitionsAllowed(curr: int, nxt: int)
    requires EXIT <= curr <= RUNNING && JUST_ARRIVED <= nxt <= RUNNING
    ensures CheckTransition(curr, nxt) <==>
      || curr == EXIT || curr == JUST_ARRIVED
      || (nxt == RUNNING)
      || (nxt == GUARANTEE && curr != NOT_GUARANTEE)
      || (nxt == NOT_GUARANTEE && curr != GUARANTEE)
      || (nxt == UNCONCLUDED && curr == UNCONCLUDED)
  {
  }

  // ---- queues as sequences --------------------------------------------------------------------

  /** q without its first occurrence of x. */
  function Without<X(==)>(q: seq<X>, x: X): (r: seq<X>) {
    if q == [] then [] else if q[0] == x then q[1..] else [q[0]] + Without(q[1..], x)
  }

  lemma {:induction false} WithoutAbsent<X>(q: seq<X>, x: X)
    requires x !in q
    ensures Without(q, x) == q
    decreases |q|
  {
    if q != [] {
      WithoutAbsent(q[1..], x);
    }
  }

  /** Removing takes out exactly one occurrence, and keeps the order of the rest. */
  lemma {:induction false} WithoutPresent<X>(q: seq<X>, x: X) returns (k: nat)
    requires x in q
    ensures k < |q| && q[k] == x && (forall i :: 0 <= i < k ==> q[i] != x)
    ensures Without(q, x) == q[..k] + q[k + 1..]
    decreases |q|
  {
    if q[0] == x {
      k := 0;
    } else {
      var k' := WithoutPresent(q[1..], x);
      k := k' + 1;
    }
  }

  predicate Guaranteed(t: TskType) {
    t == Periodic || t == FirmAperiodicG
  }

  /** Every job of the queue is in state st with a task that fits, and no task is queued twice. */
  ghost predicate Holds(q: seq<ReadyJob>, st: int, fits: TskType -> bool)
    reads set j | j in q :: j.data`state
  {
    && (forall i :: 0 <= i < |q| ==> q[i].data.state == st && fits(q[i].data.tskType))
    && (forall i, j {:trigger q[i].data, q[j].data} :: 0 <= i < j < |q| ==> q[i].data != q[j].data)
  }

  /** The contents of all queues. */
  datatype Queues = Queues(unc: seq<ReadyJob>, ng: seq<ReadyJob>, g: seq<ReadyJob>, run: ReadyJob?)

  /** All jobs in the machine. */
  ghost function Live(qs: Queues): set<ReadyJob> {
    (set j | j in qs.unc) + (set j | j in qs.ng) + (set j | j in qs.g) + if qs.run == null then {} else {qs.run}
  }

  /** Each live job is in exactly one queue, the one its state names, and no task has two live jobs. */
  ghost predicate Sorted(qs: Queues)
    reads set j | j in Live(qs) :: j.data`state
  {
    && Holds(qs.unc, UNCONCLUDED, t => t == FirmAperiodic)
    && Holds(qs.ng, NOT_GUARANTEE, t => t == SoftAperiodic)
    && Holds(qs.g, GUARANTEE, t => Guaranteed(t))
    && (qs.run != null ==> qs.run.data.state == RUNNING && qs.run.data.tskType != FirmAperiodic)
  }

  /** The state of a job says which queue it is in, whatever the machine did before. */
  lemma StateNamesQueue(qs: Queues, j: ReadyJob)
    requires Sorted(qs) && j in Live(qs)
    ensures j in qs.unc <==> j.data.state == UNCONCLUDED
    ensures j in qs.ng <==> j.data.state == NOT_GUARANTEE
    ensures j in qs.g <==> j.data.state == GUARANTEE
    ensures j == qs.run <==> j.data.state == RUNNING
  {
  }

  lemma TypeNamesQueue(qs: Queues, j: ReadyJob)
    requires Sorted(qs)
    ensures j in qs.unc ==> j.data.tskType == FirmAperiodic
    ensures j in qs.ng ==> j.data.tskType == SoftAperiodic
    ensures j in qs.g ==> Guaranteed(j.data.tskType)
  {
  }

  /** A live job whose state was taken from it. */
  lemma StaleState(qs: Queues, j: ReadyJob)
    requires j in Live(qs) && j.data.state == EXIT
    ensures !Sorted(qs)
  {
    if Sorted(qs) {
      LiveStates(qs);
    }
  }

  lemma NotQueued(qs: Queues, j: ReadyJob)
    ensures j !in Live(qs) ==> j !in qs.unc && j !in qs.ng && j !in qs.g && j != qs.run
  {
  }

  lemma OneJobPerTask(qs: Queues, j1: ReadyJob, j2: ReadyJob)
    requires Sorted(qs) && j1 in Live(qs) && j2 in Live(qs) && j1.data == j2.data
    ensures j1 == j2
  {
    StateNamesQueue(qs, j1);
    StateNamesQueue(qs, j2);
  }

  lemma WithoutHolds(q: seq<ReadyJob>, st: int, fits: TskType -> bool, job: ReadyJob)
    requires Holds(q, st, fits)
    ensures Holds(Without(q, job), st, fits)
    ensures forall j :: j in Without(q, job) <==> j in q && j != job
    ensures forall i :: 0 <= i < |Without(q, job)| ==> Without(q, job)[i].data != job.data || job !in q
  {
    if job in q {
      var k := WithoutPresent(q, job);
    } else {
      WithoutAbsent(q, job);
    }
  }

  /** Leaving its own queue, a job leaves the machine. */
  lemma LeftKeeps(qs: Queues, job: ReadyJob)
    requires Sorted(qs) && job in Live(qs)
    ensures var qs' := Left(qs, job.data.state, job);
      && Sorted(qs') && Live(qs') == Live(qs) - {job}
      && forall j :: j in Live(qs') ==> j.data != job.data
  {
    StateNamesQueue(qs, job);
    WithoutHolds(qs.unc, UNCONCLUDED, t => t == FirmAperiodic, job);
    WithoutHolds(qs.ng, NOT_GUARANTEE, t => t == SoftAperiodic, job);
    WithoutHolds(qs.g, GUARANTEE, t => Guaranteed(t), job);
    var qs' := Left(qs, job.data.state, job);
    forall j ensures j in Live(qs') <==> j in Live(qs) && j != job {
    }
    assert Live(qs') == Live(qs) - {job};
    forall j | j in Live(qs') ensures j.data != job.data {
      if j.data == job.data {
        OneJobPerTask(qs, j, job);
      }
    }
  }

  /** A job whose task has no live job may join the queue its new state names. */
  lemma EnteredKeeps(qs: Queues, job: ReadyJob)
    requires Sorted(qs) && UNCONCLUDED <= job.data.state <= RUNNING && Admits(qs, job.data.state, job)
    requires job.data.state == RUNNING ==> job.data.tskType != FirmAperiodic
    requires forall j :: j in Live(qs) ==> j.data != job.data
    ensures var qs' := Entered(qs, job.data.state, job);
      Sorted(qs') && Live(qs') == Live(qs) + {job}
  {
    assert forall i :: 0 <= i < |qs.unc| ==> qs.unc[i] in Live(qs);
    assert forall i :: 0 <= i < |qs.ng| ==> qs.ng[i] in Live(qs);
    assert forall i :: 0 <= i < |qs.g| ==> qs.g[i] in Live(qs);
    var qs' := Entered(qs, job.data.state, job);
    forall j ensures j in Live(qs') <==> j in Live(qs) || j == job {
    }
  }

  /** Sorted reads nothing but the states of live jobs. */
  lemma NoLiveJob(qs: Queues, job: ReadyJob)
    requires Sorted(qs) && job.data.state == EXIT
    ensures forall j :: j in Live(qs) ==> j.data != job.data
  {
  }

  /** Changing the state of a task without a live job disturbs nothing. */
  twostate lemma Undisturbed(qs: Queues)
    requires old(Sorted(qs)) && forall j :: j in Live(qs) ==> j.data.state == old(j.data.state)
    ensures Sorted(qs)
  {
    assert forall i :: 0 <= i < |qs.unc| ==> qs.unc[i] in Live(qs);
    assert forall i :: 0 <= i < |qs.ng| ==> qs.ng[i] in Live(qs);
    assert forall i :: 0 <= i < |qs.g| ==> qs.g[i] in Live(qs);
  }

  lemma LiveStates(qs: Queues)
    requires Sorted(qs)
    ensures forall j :: j in Live(qs) ==> UNCONCLUDED <= j.data.state <= RUNNING
  {
  }

  /** No job of q is due before the k-th, and none in front of it is due as early. */
  ghost predicate FirstEarliest(q: seq<ReadyJob>, k: nat) {
    && k < |q|
    && (forall i :: 0 <= i < |q| ==> q[k].absoluteDeadline <= q[i].absoluteDeadline)
    && (forall i :: 0 <= i < k ==> q[k].absoluteDeadline < q[i].absoluteDeadline)
  }

  /** The job with the earliest deadline, the first of them in queue order. */
  function Earliest(q: seq<ReadyJob>): (j: ReadyJob)
    requires q != []
    ensures exists k: nat :: FirstEarliest(q, k) && q[k] == j
  {
    if |q| == 1 then
      assert FirstEarliest(q, 0);
      q[0]
    else
      var n := |q| - 1;
      var j := Earliest(q[..n]);
      ghost var k: nat :| FirstEarliest(q[..n], k) && q[..n][k] == j;
      assert FirstEarliest(q, if q[n].absoluteDeadline < j.absoluteDeadline then n else k);
      if q[n].absoluteDeadline < j.absoluteDeadline then q[n] else j
  }

  class State {
    var unconcludedQ: seq<ReadyJob>
    var notGuaranteedQ: seq<ReadyJob>
    var guaranteedQ: seq<ReadyJob>
    var currJob: ReadyJob?

    ghost function View(): Queues
      reads this
    {
      Queues(unconcludedQ, notGuaranteedQ, guaranteedQ, currJob)
    }

    constructor ()
      ensures View() == Queues([], [], [], null) && Sorted(View())
    {
      unconcludedQ, notGuaranteedQ, guaranteedQ, currJob := [], [], [], null;
    }

    // ---- entering and leaving a state -----------------------------------------------------

    method Exit(st: int, job: ReadyJob)
      requires JUST_ARRIVED <= st <= RUNNING
      modifies this
      ensures View() == Left(old(View()), st, job)
    {
      if st == UNCONCLUDED {
        unconcludedQ := Without(unconcludedQ, job);
      } else if st == NOT_GUARANTEE {
        notGuaranteedQ := Without(notGuaranteedQ, job);
      } else if st == GUARANTEE {
        guaranteedQ := Without(guaranteedQ, job);
      } else if st == RUNNING {
        currJob := null;
      }
    }

    /** Entering just_arrived yields the state to go on to; a queue refuses tasks that do not fit. */
    method Enter(st: int, job: ReadyJob) returns (ret: int)
      requires JUST_ARRIVED <= st <= RUNNING
      modifies this
      ensures st == JUST_ARRIVED ==> View() == old(View()) && ret == HomeState(job.data.tskType)
      ensures st != JUST_ARRIVED ==>
        && (ret == 0 <==> Admits(old(View()), st, job)) && (ret == 0 || ret == -1)
        && View() == if Admits(old(View()), st, job) then Entered(old(View()), st, job) else old(View())
    {
      var t := job.data.tskType;
      if st == JUST_ARRIVED {
        return HomeState(t);
      } else if st == UNCONCLUDED {
        if t == FirmAperiodic {
          unconcludedQ := unconcludedQ + [job];
          return 0;
        }
      } else if st == NOT_GUARANTEE {
        if t == SoftAperiodic {
          notGuaranteedQ := notGuaranteedQ + [job];
          return 0;
        }
      } else if st == GUARANTEE {
        if Guaranteed(t) {
          guaranteedQ := guaranteedQ + [job];
          return 0;
        }
      } else {
        if currJob == null {
          currJob := job;
          return 0;
        }
      }
      return -1;
    }

    /** Move a job, if the guard allows it. */
    method ChangeState(job: ReadyJob, nxt: int) returns (ret: int)
      requires EXIT <= job.data.state <= RUNNING && JUST_ARRIVED <= nxt <= RUNNING
      modifies this, job.data`state
      ensures !CheckTransition(old(job.data.state), nxt) ==>
        ret == -1 && View() == old(View()) && job.data.state == old(job.data.state)
      ensures CheckTransition(old(job.data.state), nxt) ==>
        && job.data.state == nxt
        && var mid := if old(job.data.state) >= 0 then Left(old(View()), old(job.data.state), job) else old(View());
           if nxt == JUST_ARRIVED then View() == mid && ret == HomeState(job.data.tskType)
           else View() == (if Admits(mid, nxt, job) then Entered(mid, nxt, job) else mid)
                && ret == if Admits(mid, nxt, job) then 0 else -1
    {
      ret := -1;
      if CheckTransition(job.data.state, nxt) {
        if job.data.state >= 0 {
          Exit(job.data.state, job);
        }
        ret := Enter(nxt, job);
        job.data.state := nxt;
      }
    }

    // ---- the three operations ---------------------------------------------------------------

    /** A job arrives. It is admitted exactly when its task has no live job; then it joins the queue
        of its type. */
    method AddJob(job: ReadyJob) returns (ret: int)
      requires Sorted(View())
      requires job.data.state == EXIT || exists j :: j in Live(View()) && j.data == job.data
      modifies this, job.data`state
      ensures Sorted(View())
      ensures old(job.data.state) != EXIT ==>
        ret == -1 && View() == old(View()) && job.data.state == old(job.data.state)
      ensures old(job.data.state) == EXIT ==>
        && ret == 0 && job.data.state == HomeState(job.data.tskType)
        && View() == Entered(old(View()), HomeState(job.data.tskType), job)
        && Live(View()) == old(Live(View())) + {job}
      ensures old(job.data.state) == EXIT ==>
        match job.data.tskType
        case Periodic | FirmAperiodicG => View() == old(View()).(g := old(guaranteedQ) + [job])
        case FirmAperiodic => View() == old(View()).(unc := old(unconcludedQ) + [job])
        case SoftAperiodic => View() == old(View()).(ng := old(notGuaranteedQ) + [job])
    {
      hide Sorted, Holds;
      ghost var qs := View();
      LiveStates(qs);
      if job.data.state == EXIT {
        NoLiveJob(qs, job);
      }
      var nxtState := ChangeState(job, JUST_ARRIVED);
      if nxtState >= 0 {
        ret := ChangeState(job, nxtState);
        Undisturbed(qs);
        EnteredKeeps(qs, job);
        return ret;
      }
      Undisturbed(qs);
      return -1;
    }

    /** A job ended. A live job leaves the machine, unless it is unconcluded; a job that was never
        admitted is in no queue to leave. The state of the task is wiped in any case, and so the states
        go on naming the queues exactly when no other live job has that task. */
    method RmvJob(job: ReadyJob)
      requires Sorted(View())
      modifies this, job.data`state
      ensures job.data.state == EXIT
      ensures View() == if job in Live(old(View())) && job !in old(View()).unc
                        then Left(old(View()), old(job.data.state), job) else old(View())
      ensures Sorted(View()) <==> (if job in Live(old(View())) then job !in old(View()).unc
                                   else forall j :: j in Live(old(View())) ==> j.data != job.data)
      ensures job in Live(old(View())) && job !in old(View()).unc ==> Live(View()) == Live(old(View())) - {job}
    {
      hide Holds, Without;
      ghost var qs, st := View(), job.data.state;
      NotQueued(qs, job);
      if job in Live(qs) {
        StateNamesQueue(qs, job);
        LeftKeeps(qs, job);
        TypeNamesQueue(qs, job);
      }
      job.data.state := EXIT;
      LeaveQueue(job);
      if job in Live(qs) && st != UNCONCLUDED {
        hide Sorted;
        Undisturbed(Left(qs, st, job));
      } else if j :| j in Live(qs) && j.data == job.data {
        StaleState(qs, j);
      } else {
        hide Sorted;
        Undisturbed(qs);
      }
    }

    method LeaveQueue(job: ReadyJob)
      requires job in guaranteedQ ==> Guaranteed(job.data.tskType) && currJob != job
      requires job in notGuaranteedQ ==> job.data.tskType == SoftAperiodic && currJob != job
      modifies this
      ensures job == old(currJob) ==> View() == old(View()).(run := null)
      ensures job in old(guaranteedQ) ==> View() == old(View()).(g := Without(old(guaranteedQ), job))
      ensures job in old(notGuaranteedQ) ==> View() == old(View()).(ng := Without(old(notGuaranteedQ), job))
      ensures job != old(currJob) && job !in old(guaranteedQ) && job !in old(notGuaranteedQ) ==> View() == old(View())
    {
      if currJob == job {
        Exit(RUNNING, job);
        return;
      }
      if job !in guaranteedQ {
        WithoutAbsent(guaranteedQ, job);
      }
      if job !in notGuaranteedQ {
        WithoutAbsent(notGuaranteedQ, job);
      }
      if job.data.tskType == SoftAperiodic {
        Exit(NOT_GUARANTEE, job);
      } else {
        Exit(GUARANTEE, job);
      }
    }

    /** Select the next job: the running one first goes back to its queue, then the guaranteed job
        with the earliest deadline is taken, and without one the soft job that waited longest. */
    method SelectionFunction() returns (job: ReadyJob?)
      requires Sorted(View())
      modifies this, set j | j in Live(View()) :: j.data`state
      ensures Sorted(View()) && Live(View()) == old(Live(View()))
      ensures View() == Selected(old(View())) && job == View().run
    {
      hide Sorted, Holds, Live, Without;
      ghost var qs := View();
      if currJob != null {
        RunningIsLive(qs);
        TypeFits(qs);
        if Guaranteed(currJob.data.tskType) {
          MoveJob(currJob, GUARANTEE);
        } else {
          MoveJob(currJob, NOT_GUARANTEE);
        }
      }
      job := null;
      if guaranteedQ != [] {
        job := Earliest(guaranteedQ);
        QueuedIsLive(View(), job);
        MoveJob(job, RUNNING);
      } else if notGuaranteedQ != [] {
        QueuedIsLive(View(), notGuaranteedQ[0]);
        job := PopWaiting();
      }
    }

    /** A live job goes from its queue to another one, nobody else is touched. */
    method MoveJob(job: ReadyJob, nxt: int)
      requires Sorted(View()) && job in Live(View()) && NOT_GUARANTEE <= nxt <= RUNNING
      requires UNCONCLUDED <= job.data.state <= RUNNING && CheckTransition(job.data.state, nxt)
      requires Admits(Left(View(), job.data.state, job), nxt, job) && job.data.tskType != FirmAperiodic
      modifies this, job.data`state
      ensures View() == Entered(Left(old(View()), old(job.data.state), job), nxt, job)
      ensures Sorted(View()) && Live(View()) == old(Live(View())) && job.data.state == nxt
    {
      hide Holds, Without, Sorted;
      ghost var qs, st := View(), job.data.state;
      ghost var mid := Left(qs, st, job);
      LeftKeeps(qs, job);
      var ret := ChangeState(job, nxt);
      Undisturbed(mid);
      EnteredKeeps(mid, job);
      assert Live(View()) == Live(qs);
    }

    /** Take the soft job that waited longest off its queue and run it. */
    method PopWaiting() returns (job: ReadyJob)
      requires Sorted(View()) && notGuaranteedQ != [] && currJob == null
      modifies this, notGuaranteedQ[0].data`state
      ensures job == old(notGuaranteedQ)[0]
      ensures View() == old(View()).(ng := old(notGuaranteedQ)[1..], run := job)
      ensures Sorted(View()) && Live(View()) == old(Live(View()))
    {
      hide Holds, Sorted;
      ghost var qs := View();
      job := notGuaranteedQ[0];
      QueuedIsLive(qs, job);
      LeftKeeps(qs, job);
      ghost var mid := Left(qs, NOT_GUARANTEE, job);
      notGuaranteedQ := notGuaranteedQ[1..];
      WithoutAbsent(notGuaranteedQ, job);
      var ret := ChangeState(job, RUNNING);
      Undisturbed(mid);
      EnteredKeeps(mid, job);
      assert Live(View()) == Live(qs);
    }
  }

  lemma RunningIsLive(qs: Queues)
    requires Sorted(qs) && qs.run != null
    ensures qs.run in Live(qs) && qs.run.data.state == RUNNING
  {
  }

  lemma TypeFits(qs: Queues)
    requires Sorted(qs) && qs.run != null
    ensures Guaranteed(qs.run.data.tskType) || qs.run.data.tskType == SoftAperiodic
  {
  }

  lemma QueuedIsLive(qs: Queues, j: ReadyJob)
    requires Sorted(qs)
    ensures j in qs.g ==> j in Live(qs) && j.data.state == GUARANTEE && Guaranteed(j.data.tskType)
    ensures j in qs.ng ==> j in Live(qs) && j.data.state == NOT_GUARANTEE && j.data.tskType == SoftAperiodic
    ensures qs.ng != [] && j == qs.ng[0] ==> j !in qs.ng[1..]
  {
  }

  /** Where a job of this type of task goes on arrival. */
  function HomeState(t: TskType): int {
    if Guaranteed(t) then GUARANTEE else if t == FirmAperiodic then UNCONCLUDED else NOT_GUARANTEE
  }

  /** The queues after `job` left the queue of state st. */
  function Left(qs: Queues, st: int, job: ReadyJob): Queues {
    if st == UNCONCLUDED then qs.(unc := Without(qs.unc, job))
    else if st == NOT_GUARANTEE then qs.(ng := Without(qs.ng, job))
    else if st == GUARANTEE then qs.(g := Without(qs.g, job))
    else if st == RUNNING then qs.(run := null)
    else qs
  }

  predicate Admits(qs: Queues, st: int, job: ReadyJob) {
    if st == UNCONCLUDED then job.data.tskType == FirmAperiodic
    else if st == NOT_GUARANTEE then job.data.tskType == SoftAperiodic
    else if st == GUARANTEE then Guaranteed(job.data.tskType)
    else qs.run == null
  }

  /** The queues after `job` joined the queue of state st. */
  function Entered(qs: Queues, st: int, job: ReadyJob): Queues {
    if st == UNCONCLUDED then qs.(unc := qs.unc + [job])
    else if st == NOT_GUARANTEE then qs.(ng := qs.ng + [job])
    else if st == GUARANTEE then qs.(g := qs.g + [job])
    else qs.(run := job)
  }

  /** All waiting guaranteed jobs once the running job went back to its queue. */
  function Contenders(qs: Queues): seq<ReadyJob> {
    if qs.run != null && Guaranteed(qs.run.data.tskType) then qs.g + [qs.run] else qs.g
  }

  /** All waiting soft jobs once the running job went back to its queue. */
  function Waiting(qs: Queues): seq<ReadyJob> {
    if qs.run != null && !Guaranteed(qs.run.data.tskType) then qs.ng + [qs.run] else qs.ng
  }

  function Selected(qs: Queues): Queues {
    var g, ng := Contenders(qs), Waiting(qs);
    if g != [] then Queues(qs.unc, ng, Without(g, Earliest(g)), Earliest(g))
    else if ng != [] then Queues(qs.unc, ng[1..], g, ng[0])
    else Queues(qs.unc, ng, g, null)
  }

  // ---- what selection promises ---------------------------------------------------------------

  lemma ContendersAreGuaranteed(qs: Queues, j: ReadyJob)
    requires Sorted(qs) && j in Live(qs)
    ensures j in Contenders(qs) <==> Guaranteed(j.data.tskType)
  {
    TypeNamesQueue(qs, j);
  }

  /** Whenever a guaranteed job is live, the selected job is guaranteed and has the earliest deadline
      of all live guaranteed jobs; without one a soft job is selected if there is any. */
  lemma SelectionIsEdf(qs: Queues)
    requires Sorted(qs)
    ensures var run := Selected(qs).run;
      && (forall j :: j in Live(qs) && Guaranteed(j.data.tskType) ==>
            run != null && run in Contenders(qs) && run.absoluteDeadline <= j.absoluteDeadline)
      && (run == null <==> qs.ng == [] && qs.g == [] && qs.run == null)
  {
    hide Sorted, Live, Without;
    if Contenders(qs) != [] {
      var k := TiesGoToTheFirst(qs);
    }
    forall j | j in Live(qs) && Guaranteed(j.data.tskType)
      ensures Selected(qs).run != null && Selected(qs).run in Contenders(qs)
      ensures Selected(qs).run.absoluteDeadline <= j.absoluteDeadline
    {
      ContendersAreGuaranteed(qs, j);
    }
  }

  /** Which of several earliest jobs it is: the one that waits longest, the running job queueing up
      last. So on a tie the running job gives way, and the others keep their order. */
  lemma TiesGoToTheFirst(qs: Queues) returns (k: nat)
    requires qs.g != [] || (qs.run != null && Guaranteed(qs.run.data.tskType))
    ensures var c := if qs.run != null && Guaranteed(qs.run.data.tskType) then qs.g + [qs.run] else qs.g;
      && FirstEarliest(c, k)
      && Selected(qs).run == c[k] && Selected(qs).g == c[..k] + c[k + 1..]
  {
    var c := Contenders(qs);
    var j := Earliest(c);
    k :| FirstEarliest(c, k) && c[k] == j;
    var k' := WithoutPresent(c, c[k]);
  }

  function Single(j: ReadyJob?): multiset<ReadyJob> {
    if j == null then multiset{} else multiset{j}
  }

  lemma RequeueConserves(qs: Queues)
    ensures multiset(Waiting(qs)) + multiset(Contenders(qs))
         == multiset(qs.ng) + multiset(qs.g) + Single(qs.run)
  {
  }

  lemma WithoutOne(q: seq<ReadyJob>, j: ReadyJob)
    requires j in q
    ensures multiset(Without(q, j)) + multiset{j} == multiset(q)
  {
    var k := WithoutPresent(q, j);
    assert q == q[..k] + [q[k]] + q[k + 1..];
  }

  /** Selection neither loses nor duplicates a job. */
  lemma SelectionConserves(qs: Queues)
    ensures var qs' := Selected(qs);
      && qs'.unc == qs.unc
      && multiset(qs'.ng) + multiset(qs'.g) + Single(qs'.run) == multiset(qs.ng) + multiset(qs.g) + Single(qs.run)
  {
    hide Without, Earliest;
    var g, ng := Contenders(qs), Waiting(qs);
    RequeueConserves(qs);
    if g != [] {
      WithoutOne(g, Earliest(g));
    } else if ng != [] {
      assert ng == [ng[0]] + ng[1..];
    }
  }

  /** n selections in a row, with nothing arriving or ending in between. */
  function SelectedTimes(qs: Queues, n: nat): Queues {
    if n == 0 then qs else Selected(SelectedTimes(qs, n - 1))
  }

  /** Only soft jobs, in the order in which they wait once the running one is back in the queue. */
  ghost predicate SoftRing(qs: Queues, ring: seq<ReadyJob>) {
    && Contenders(qs) == [] && Waiting(qs) == ring && ring != []
    && forall i :: 0 <= i < |ring| ==> ring[i].data.tskType == SoftAperiodic
  }

  /** One selection turns the ring by one place. */
  lemma RingTurns(qs: Queues, ring: seq<ReadyJob>)
    requires SoftRing(qs, ring)
    ensures Selected(qs).run == ring[0] && SoftRing(Selected(qs), ring[1..] + [ring[0]])
  {
    var ring' := ring[1..] + [ring[0]];
    assert forall i :: 0 <= i < |ring'| ==> ring'[i] in ring;
  }

  /** The ring turned by n places, and once more. */
  lemma TurnedOnce(ring: seq<ReadyJob>, n: nat)
    requires n < |ring|
    ensures var before := ring[n..] + ring[..n];
      before != [] && before[0] == ring[n] && before[1..] + [before[0]] == ring[n + 1..] + ring[..n + 1]
  {
  }

  lemma NotTurned(ring: seq<ReadyJob>)
    ensures ring[0..] + ring[..0] == ring
  {
  }

  lemma NextSelected(qs: Queues, n: nat)
    ensures SelectedTimes(qs, 0) == qs && SelectedTimes(qs, n + 1) == Selected(SelectedTimes(qs, n))
  {
    hide Selected;
  }

  /** In n <= m selections the first n jobs of a ring of m run, in ring order. */
  lemma {:induction false} RingRuns(qs: Queues, ring: seq<ReadyJob>, n: nat)
    requires SoftRing(qs, ring) && n <= |ring|
    ensures SoftRing(SelectedTimes(qs, n), ring[n..] + ring[..n])
    ensures n > 0 ==> SelectedTimes(qs, n).run == ring[n - 1]
    decreases n
  {
    hide *;
    NextSelected(qs, if n > 0 then n - 1 else 0);
    if n == 0 {
      NotTurned(ring);
    } else {
      RingRuns(qs, ring, n - 1);
      TurnedOnce(ring, n - 1);
      RingTurns(SelectedTimes(qs, n - 1), ring[n - 1..] + ring[..n - 1]);
    }
  }

  /** Among m soft jobs, every one runs within m selections. */
  lemma EverySoftJobRuns(qs: Queues, j: ReadyJob)
    requires SoftRing(qs, Waiting(qs)) && j in Waiting(qs)
    ensures exists n :: 0 < n <= |Waiting(qs)| && SelectedTimes(qs, n).run == j
  {
    hide SoftRing, SelectedTimes;
    var ring := Waiting(qs);
    var k :| 0 <= k < |ring| && ring[k] == j;
    RingRuns(qs, ring, k + 1);
    assert SelectedTimes(qs, k + 1).run == j;
  }

  /** With no guaranteed job live, the waiting jobs form such a ring. */
  lemma NoGuaranteedIsRing(qs: Queues)
    requires Sorted(qs) && (forall j :: j in Live(qs) ==> !Guaranteed(j.data.tskType)) && Waiting(qs) != []
    ensures SoftRing(qs, Waiting(qs))
  {
    if qs.g != [] {
      QueuedIsLive(qs, qs.g[0]);
    }
    if qs.run != null {
      TypeFits(qs);
    }
  }

  /** Without a live guaranteed job, every live soft job runs within as many selections as there are
      soft jobs. */
  lemma EveryLiveSoftJobRuns(qs: Queues, j: ReadyJob)
    requires Sorted(qs) && (forall i :: i in Live(qs) ==> !Guaranteed(i.data.tskType))
    requires j in Live(qs) && j !in qs.unc
    ensures exists n :: 0 < n <= |Waiting(qs)| && SelectedTimes(qs, n).run == j
  {
    hide SelectedTimes;
    assert j in Waiting(qs);
    NoGuaranteedIsRing(qs);
    EverySoftJobRuns(qs, j);
  }
}
