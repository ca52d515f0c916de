# Slot shifting: interval table, table file, task packets, job queues

This project models a slot-shifting scheduler and proves what its bookkeeping is for.

* **The offline phase** turns periodic tasks into jobs, jobs into intervals, and gives every interval
  a spare capacity by the recurrence `sc_i = raw_i + min(0, sc_{i+1})` (`Recurrence.dfy`,
  `Hyperperiod.dfy`, `OfflineData.dfy`, `OfflineTable.dfy`, `Schedulability.dfy`, `OfflinePhase.dfy`).
* **The deferred interval table** charges each scheduling decision in constant time and settles the
  rest in one backward walk when the current interval changes (`LocalList.dfy`, `Deferral.dfy`,
  `IntervalTable.dfy`, `Chronos.dfy`, `TaskInfo.dfy`, `Loading.dfy`). `raw` is the ghost truth: interval
  length still ahead minus work still to do. The claim is that the lazily kept capacities are those of
  the recurrence recomputed on `raw`. `SchedulerRun.dfy` states it over whole runs from start-up on, and
  `TimedRun.dfy` adds the decision timer.
* **The original slot-by-slot update**, and the capacity reservation of an admitted task: `Eager.dfy`,
  over whole runs `SlotRun.dfy`.
* **The table file reader** is a machine over sections, each a machine over the fields of a row
  (`TableFormat.dfy`, `Grammar.dfy`, `GrammarProofs.dfy`, `Parser.dfy`).
* **The task packets** put all jobs of a task into one buffer behind an array of offsets, and the
  intervals are then bonded with the jobs found through these offsets (`TaskPacket.dfy`, `Bonding.dfy`,
  `IntervalBonding.dfy`).
* **The job queues** are moved through by a bitmask-guarded state machine (`StateMachine.dfy`), also over
  whole runs (`QueueRun.dfy`).

`Runs.dfy` says what a run is for all of them, and `PlainState.dfy` is the plain bookkeeping that the runs of
the interval tables are held against.

Code that updates objects in place is modelled by classes and loops, and each method is tied by its
contract to a function of the old state; the lemmas are about these functions.

`dafny verify dfyconfig.toml` checks everything.

## What the code turned out to do

* The per-slot update (`interval.py:217-238`) never over-reports, but it is not the recurrence: it
  tests the capacity after the increment, so the unit that takes an interval from -1 to 0 does not
  reach the interval before it. `Eager.EagerExactIff` says when it stays exact, `Eager.EagerNotExact`
  gives a table where it does not.
* The base class never moves on: its `update_sc` returns no value, `None < 0` holds in Python 2, and so
  `update_intr` always returns at `interval.py:210-211` before the move at line 212
  (`IntervalTable.Interval.UpdateIntrPerSlot`, over whole runs `SlotRun.RunAsWritten`). `SlotRun.Run` states the
  runs with the move. For a job whose interval is over the backward walk may run off the head of the list,
  which ends the update with an error.
* A job that runs on after its interval is over, while that interval is still in debt and lies in the
  window of the current one, earns the current interval a credit (`interval.py:448-452`) that the
  recurrence does not give it. `Deferral.LateJobHarmlessIff` says exactly when a late job does no harm,
  `Deferral.LateJobHarms` shows one that does, and `IntervalTable.Charged` is what the table tracks then. In the
  run theorems the credit stays with the interval it was earned in: `SchedulerRun.Run`.
* When the timer fires while the task of the running job has no interval left, the table refuses the update
  and stays where it is, but the timer has re-armed: from then on it runs ahead of the table
  (`Chronos.Timer.Expire`, with an if and only if).
* The bonds of a job end at the first `]`, even where that byte is the low byte of an interval id
  (93, 349, ...). A row that has `!` first and CR LF at bytes 5 and 6 ends its section. The list of bonds
  of a new row is allocated without being cleared and is set by the first bond only
  (`ss_parser/src/ss_parser.c:646`, `266-310`), so a row without bonds is accepted with a list that was
  never set. A table is given back exactly when it has none of these three and no empty section, and is
  never misread: `Parser.FileRoundTrip`, with `Parser.Job93IsLost` and `Parser.JobWithoutBondsIsLost` as tables
  that are lost.
* The table definition allows several hyperperiods in one file, but the index into the body is set to 0 only
  once (`ss_parser/src/ss_parser.c:1095`), so each further body is read from where the one before ended: no two
  written hyperperiods ever come back (`Parser.SecondHyperperiodIsLost`).
* `rmv_job` takes a job off the running, soft or guaranteed queue only, so an unconcluded job stays
  queued with its state gone. It wipes the state of the task also when a job ends that was refused
  because an earlier job of its task is live (`SlotShifting.py:33-40`): that live job then has no state.
  `StateMachine.State.RmvJob` says exactly when the states go on naming the queues, and
  `QueueRun.RefusedJobEnds` is such an end.
* The table generator is not reached from `main.py`: `reciever(..)` is never `None`, and the import of
  the generator at line 6 is commented out. `Loading.StartUp` models lines 17-33 as they would run.
* The test `ith_intr_data != curr_intr.lent_till` (`interval.py:484`) compares an interval with a list
  node and always holds; the walk is exact all the same.

## Assumptions

* The time passed in does not go back.
* Where the truth is read as remaining time and work, no decision comes later than the end of the
  interval that is current until then, and the first one comes at time 0 (`Timely`). As long as the timer
  is armed this is the timer's doing: `TimedRun.RunFromStart`.
* A step of a run names the interval of the job that ran. The code takes it from the cursor of the task at
  the time of the decision (`interval.py:426`), so the work is that of the job that ran only if the next
  job of its task was not activated in between (`SlotShifting.py:31`).
* A decision that the table refuses because the task has no interval left changes nothing
  (`IntervalTable.Interval.UpdateIntr`); the runs are those of the other decisions.
* The timer's own decision precedes the scheduler's update at an interval end, as
  `interval.py:377-382` asks for, and the interval ends increase; `Loading.LoadedEndsIncrease` shows
  that they do for a generated table.
* The per-slot update compares interval ids, so it is treated for tables with distinct ids; generated
  ids are positions.
* The state of a task is set by the state machine only, so a task without a live job is in none
  (`QueueRun.Accounted`, which every run keeps). The runs are those in which no end does the harm
  described above (`QueueRun.Possible`); `QueueRun.Perform` treats every operation.

## Model

| member | source | states |
|---|---|---|
| Recurrence.ScIsMinimum | ss_offline_phase.py:98-102 | the recurrence is the least total of raw capacity over all runs of intervals that start at i, and one run attains it |
| Recurrence.NonNegativeIffFeasible | ss_offline_phase.py:98-102 | an interval is out of debt if and only if no run of intervals starting at it is over-demanded |
| Recurrence.RawOfSolves | ss_offline_phase.py:98-102 | any capacity table satisfies the recurrence for the raw capacities read off it |
| Recurrence.RawOfUnique | ss_offline_phase.py:98-102 | and for no others |
| LocalList.LinkedRing.Append | ss_list.py:26-44 | the node comes last; nxt and prev stay inverse over one ring |
| LocalList.LinkedRing.Insert | ss_list.py:45-58 | the ring with one node put behind the given one, nothing else moved |
| LocalList.LinkedRing.SwapPointers | ss_list.py:64-74 | the loop exchanges nxt and prev of every node and ends after one turn |
| LocalList.LinkedRing.Reverse | ss_list.py:60-75 | in place, the ring becomes the reversed sequence |
| LocalList.ReversedTwice | ss_list.py:60-75 | reversing twice is the identity |
| LocalList.LinkedRing.GoNxt | ss_list.py:85-92 | from nowhere to the head, else to the next node of the ring |
| LocalList.LinkedRing.GoPrev | ss_list.py:94-99 | nothing before the head, else the node before |
| Deferral.ExactWindowsUnique | ss_conf_table.py:161-226 | the description of the relation windows determines them |
| Deferral.FutureExact | interval.py:396-459 | every future interval: stored capacity plus pending inflow is the recomputed capacity |
| Deferral.CurrentExact | interval.py:443-459 | the current interval: stored capacity is the recomputed one plus the excess, which is not negative |
| Deferral.PendingCoversOutflow | interval.py:481-496 | the flow that arrives at an interval is at most what is owed behind it in its window |
| Deferral.IdleKeeps | interval.py:457 | time charged to the current interval alone keeps stored table and truth related |
| Deferral.ServeKeeps | interval.py:396-407 | so does the constant-time bookkeeping for a job of a later interval |
| Deferral.ServeLateKeeps | interval.py:443-452 | for a job of an interval that is over, the table tracks the truth plus the credit to the current interval |
| Deferral.LateJobHarmlessIff | interval.py:448-452 | it tracks the truth itself if and only if no time passed, the job's interval is not in debt, or the windows differ |
| Deferral.LateJobHarms | interval.py:448-452 | a table on which a late job does harm |
| IntervalTable.ChargedIsTruthIff | interval.py:448-457 | the same condition on what a decision charges, for every job |
| Deferral.SettleStep | interval.py:481-493 | one step of the walk settles one more interval |
| Deferral.SettleFlow | interval.py:481-490 | the difference of the two accumulators is the flow into the interval before, in all cases of the walk |
| Deferral.SettleKeeps | interval.py:461-496 | after settling, the next interval and its window hold exactly the recomputed capacities |
| Deferral.LeftBehindExact | interval.py:518-520 | the interval just left is exact once its early credit is taken back, and is exact as it is when it shares no window |
| Deferral.MoveKeeps | interval.py:509-520 | the move as a whole keeps the relation and leaves old interval, new interval and its window exact |
| Deferral.WindowAdded | ss_conf_table.py:179-192 | marking a window extends the part of the table whose windows are final |
| Deferral.InitiallyOnTrack | ss_conf_table.py:236-246 | a fresh table with its windows tracks the raw capacities it solves |
| IntervalTable.Interval.UpdateTskIntr | interval.py:396-407 | capacity grows by the run time, the owed amount by the part that paid debt, the result is the rest |
| IntervalTable.Interval.UpdateSc | interval.py:409-459 | all branches, for a job of any interval: returned code, time of the decision, every stored capacity and update value afterwards (only those of the current interval and of the job's differ), and a tracked truth that moves by exactly the charged time and the credit of a late job |
| IntervalTable.Interval.ServePair | interval.py:438-457 | in one step, the change of both intervals, and the credit to the current one exactly when the lenders are the same |
| IntervalTable.Interval.Exact | interval.py:409-459 | in every state between decisions, future and current capacities against the recurrence |
| IntervalTable.Interval.SettleOne | interval.py:482-490 | one interval of the walk, with the effect of the always-true comparison |
| IntervalTable.Interval.SettleWindow | interval.py:476-496 | the backward walk settles the window and returns what was kept back of the owed sum |
| IntervalTable.Interval.DeferredUpdate | interval.py:461-496 | the same from the window pointers of the interval; the iterator is back at it; nothing happens without a window |
| IntervalTable.Interval.CheckSetCurrInterval | interval.py:498-524 | the move happens exactly when the end is reached; afterwards old interval, new interval and window are exact and nothing else has changed; at the last interval the table is used up |
| IntervalTable.Interval.UpdateIntr | interval.py:191-215 | a decision, for a job of any interval: charge, then move, with everything stored afterwards; refused without effect for a job without interval |
| IntervalTable.Interval.NxtDecn | interval.py:377-395 | end of the first interval once, then differences of successive ends, 0 at the last |
| IntervalTable.Interval.GotoNxtInterval | interval.py:106-120 | iterator forward, nothing when it comes round to the head |
| IntervalTable.Interval.GotoPrevInterval | interval.py:122-138 | iterator back, at the head it stays |
| IntervalTable.Interval.NewIntrAppend | interval.py:92-98 | one more interval at the end, the others untouched |
| IntervalTable.Interval.CreateDeferredIntrList | ss_conf_table.py:149-159 | every interval gets an empty deferred record |
| IntervalTable.Interval.FindLentTill | ss_conf_table.py:161-177 | finds the last interval of the negative run behind the lender |
| IntervalTable.Interval.MarkWindow | ss_conf_table.py:179-190 | the walk back marks exactly the window, lender included |
| IntervalTable.Interval.CreateRelation | ss_conf_table.py:161-192 | one window found and marked, iterator at its end, number of borrowers returned |
| IntervalTable.Interval.CreateIntervalRelation | ss_conf_table.py:194-226 | fails exactly when the first interval is in debt, else all windows are final |
| IntervalTable.Interval.CreateRelationWindow | ss_conf_table.py:229-246 | terminates; on success each interval's lender and end are exactly those of its maximal negative run, and the table is on track |
| IntervalTable.Interval.UpdateScPerSlot | interval.py:217-238 | the recorded capacities after one slot, for a job of any interval, when the update fails, and that they stay conservative |
| IntervalTable.Interval.UpdateIntrPerSlot | interval.py:191-238 | the base class's decision charges the slot, with the capacities it leaves, and never moves on |
| IntervalTable.Interval.CheckSetPerSlot | interval.py:178-189 | the move past the end, which keeps the capacities conservative |
| IntervalTable.Interval.RaiseBack | interval.py:227-238 | the backward walk raises exactly the intervals from its end to the job's, does not pass the current one, and fails exactly when it runs off the head |
| IntervalTable.Interval.ReserveCapacity | interval.py:324-341 | the loop takes from each interval what those behind it lacked, and fails exactly when work is left at the head |
| Eager.ConservativeBelow | interval.py:217-238 | conservative capacities are at most the recomputed ones |
| Eager.EagerKeeps | interval.py:226-238 | a slot for a guaranteed job keeps them conservative |
| Eager.TruthAfterSlot | interval.py:226-238 | what one slot does to the recurrence: the unit passes through exactly the run of negative intervals |
| Eager.EagerExactIff | interval.py:236 | from exact capacities the update stays exact if and only if the walk does not stop early on an interval that was at -1 |
| Eager.EagerNotExact | interval.py:236 | a table for which it does not |
| Eager.RestIsShortfall | interval.py:330-341 | what is left to place is the shortfall against the capacity available |
| Eager.ReservedExact | interval.py:330-341 | at run time, with stale intervals before c, reserving w in interval k gives from c on the recurrence with w more work in k |
| Eager.ReservationStaysBehind | interval.py:330-341 | the walk stays at or behind c exactly when w is at most the sum of positive capacities of c..k, and then c does not get into debt |
| Eager.ReservationExact | interval.py:324-341 | the recurrence is re-established from c on; the intervals before c are left alone exactly when c..k can pay; then c stays out of debt |
| SlotRun.Pass | interval.py:178-238 | one slot and the check for the interval's end are one slot of the plain state, and the table promises no more than it; it fails for no job whose interval is not over |
| SlotRun.Run | interval.py:178-238 | in every run of slots each current or future recorded capacity is at most the recomputed one |
| SlotRun.RunAsWritten | interval.py:191-238 | over every run of the base class's decisions as written the current interval stays, and its capacities never exceed the recomputed ones |
| Chronos.Timer.Expire | ss_chronos.py:83-97 | the timer fires at the end of the current interval, is armed for exactly the time that is left until the next end, and stops after the last; it stays in step with the table if and only if the update is not refused |
| Chronos.Timer.Between | ss_chronos.py:83-97 | decisions in between leave timer and current interval alone, and charge what ran |
| Chronos.Timer.Start | ss_chronos.py:73-81 | armed for the first interval end, with the time until then |
| TaskInfo.TaskData.SetCurrentJob | ss_task.py:98-120 | the cursor moves on by one place exactly when it stands at an earlier job; called with 1, 2, ... it stands at that job, until the list ends |
| TaskInfo.TaskData.CurrIntr | ss_task.py:83-89 | nothing exactly when the list has ended |
| TaskInfo.GetIntrFrmId | ss_conf_table.py:122-135 | finds the first interval with the id, if and only if there is one |
| TaskInfo.TaskIntrAsco | ss_conf_table.py:137-146 | resolves all ids in order, or fails on an unknown one |
| Hyperperiod.GcdBezout | ss_offline_phase.py:4-7 | the gcd divides both numbers and is a combination of them |
| Hyperperiod.Lcm2Least | ss_offline_phase.py:11-12 | a common multiple that divides every common multiple |
| Hyperperiod.LcmLeast | ss_offline_phase.py:9-13 | the same for the reduction over a list |
| Hyperperiod.HyperperiodIsLeast | ss_offline_phase.py:15-19 | the hyperperiod is the least positive time that all periods divide |
| OfflineData.SortSorts | ss_offline_phase.py:205 | sorted by deadline, and a permutation |
| OfflineData.SortIsStable | ss_offline_phase.py:205 | jobs with the same deadline keep their order |
| OfflineData.SortWithId | ss_offline_phase.py:205 | the jobs of one task keep their order |
| OfflineData.SortDemand | ss_offline_phase.py:205 | sorting does not change what is due by t |
| OfflineTable.GroupFollows | ss_offline_phase.py:53-81 | appending the interval of one group keeps tiling, ids, deadlines and job placement |
| OfflineTable.GroupFollowsGap | ss_offline_phase.py:58-68 | the same with a job-less interval before it |
| OfflineTable.CapacityPlusWork | ss_offline_phase.py:72-79 | raw capacity plus work of the first k intervals is the length of the time line up to there |
| OfflineTable.FirstNotInDebt | ss_offline_phase.py:98-102 | demand never above the time there is makes the first capacity non-negative |
| Schedulability.DueCountBound | ss_offline_phase.py:138-153 | with deadline at most period, at most t / deadline jobs of a task are due by t |
| Schedulability.DemandWithinUtilisation | ss_offline_phase.py:165-175 | the demand of the whole job list by t is at most utilisation times t |
| Schedulability.DemandFits | ss_offline_phase.py:197-205 | utilisation at most 1 and deadlines within periods: demand by t is at most t |
| Schedulability.SortedJobsOfTask | ss_offline_phase.py:201-205 | after sorting, the j-th job of a task is its j-th job |
| Schedulability.UtilisationIsWork | ss_offline_phase.py:165-175 | over any time d that all deadlines divide, utilisation times d is the work of the jobs that fit into d one behind the other; it is at most 1 exactly when that work is at most d |
| OfflinePhase.Generator.GenJobs | ss_offline_phase.py:127-164 | hyperperiod / period jobs with their starts and absolute deadlines, and the task's row |
| OfflinePhase.Generator.CheckUtilisation | ss_offline_phase.py:165-175 | the loop returns the utilisation, which UtilisationIsWork ties to the work of the jobs |
| OfflinePhase.Generator.AsocTask | ss_offline_phase.py:27-31 | each task's row gets one entry per job of the group |
| OfflinePhase.Generator.TakeGroup | ss_offline_phase.py:34-49 | takes exactly the leading jobs with the same deadline, losing none |
| OfflinePhase.Generator.GenIntr | ss_offline_phase.py:33-81 | one or two intervals that keep the whole table generated and associated |
| OfflinePhase.Generator.PlaceGroup | ss_offline_phase.py:51-81 | a job-less interval exactly when the group starts behind the table's end |
| OfflinePhase.Generator.CalculateSc | ss_offline_phase.py:98-102 | the in-place backward pass computes the recurrence for every interval |
| OfflinePhase.Generator.GenSlotshiftingIntervals | ss_offline_phase.py:104-125 | intervals tile the time line, ids are positions, every job is in one interval that ends at its deadline, capacities are the recurrence |
| OfflinePhase.FitsIffUtilised | ss_offline_phase.py:197-200 | utilisation is at most 1 exactly when the tasks, with their deadlines for periods, have no more work in their hyperperiod than time |
| OfflinePhase.Generator.GenSlotshiftTable | ss_offline_phase.py:177-213 | fails exactly above utilisation 1, which for deadlines at the ends of the periods is when the jobs of one hyperperiod need more than the hyperperiod; with deadlines within periods the first capacity is non-negative; the j-th entry of a task is the interval ending at its j-th absolute deadline |
| Loading.CreateDefIntrList | ss_conf_table.py:251-260 | the run-time table carries the rows in order, in run-time units |
| Loading.CreateTsk | ss_conf_table.py:94-120 | the task of a row, in run-time units, with the row's intervals in order; fails exactly when one of them is not in the table |
| Loading.CreateGeneratedTsk | main.py:35-38 | for a row of a generated table it never fails |
| Loading.ScScales | ss_conf_table.py:255 | scaling the unit scales the recurrence |
| Loading.RemainingAdvances | interval.py:409-459 | a span of time in one interval moves remaining time and work as the table's truth moves |
| Loading.RemainingAtStart | ss_offline_phase.py:72-79 | at time 0 remaining time minus work is the raw capacity of the generator |
| Loading.Activate | ss_task.py:97-120 | the j-th activation of a created task selects the interval that ends at that job's absolute deadline, as period and deadline of the created task give it |
| Loading.LoadTable | main.py:29-33 | loading and relation windows fail exactly when the first interval is in debt; else the truth is remaining time and work at 0 |
| Loading.StartUp | main.py:17-33 | fails exactly above utilisation 1 or with a first interval in debt, the latter not with deadlines within periods; the generated rows are there whenever utilisation is at most 1, and the table as runs need it whenever it succeeds |
| Loading.LoadedEndsIncrease | ss_conf_table.py:251-260 | the interval ends of a loaded table increase |
| SchedulerRun.Decide | SlotShifting.py:43-59 | one decision on the deferred table, for a job of any interval, is one step of the plain bookkeeping; after a move new interval and window are exact, and the old interval up to the credit of late jobs |
| SchedulerRun.Run | interval.py:191-215 | over every sequence of decisions: future capacities plus what is pending, and the current one less its excess and credit, are the recurrence on the plainly kept truth; whenever the last decision moved on, new interval and window hold it exactly, and so does the old one where no job was late |
| SchedulerRun.RunFromStart | interval.py:396-524 | the same from start-up on, with the recurrence taken on remaining time and remaining work |
| SchedulerRun.TruthIsRemaining | interval.py:409-421 | in a run without late decisions that truth is time ahead minus work left, interval by interval |
| SchedulerRun.StartShown | ss_conf_table.py:236-246 | a started table shows the plain state in which no time has passed and all work is to do |
| TimedRun.FiresAtEnds | ss_chronos.py:83-97 | in every run the timer fires exactly at the interval ends, once and in order, though armed relative to its own expiries |
| TimedRun.TimerKeepsTimely | ss_chronos.py:83-97 | while the timer is armed its run is one of the plain state and no decision of it is late |
| TimedRun.Run | ss_chronos.py:73-97 | the timer object and its table go through that run, exact after every move |
| TimedRun.RunFromStart | ss_chronos.py:73-97 | the run from start-up on as the timer drives it: fired at the interval ends, and capacities exact on remaining time and work, with no decision assumed to be timely |
| TableFormat.JobsLength | ss_parser/include/fsm_parser.h:56-72 | the written job rows have the length the header formula gives |
| TableFormat.BodyLength | ss_parser/include/fsm_parser.h:48-109 | for matching counts the body has exactly the computed buffer length |
| TableFormat.Separators | ss_parser/TABLE_DEFINITION.txt:24-32 | the separators, byte for byte |
| TableFormat.WordRoundTrip | ss_parser/src/ss_parser.c:144-149 | four little-endian bytes give the word back |
| GrammarProofs.AtJob | ss_parser/TABLE_DEFINITION.txt:57 | where each field of a job row stands |
| GrammarProofs.AtIntr | ss_parser/TABLE_DEFINITION.txt:61 | where each field of an interval row stands |
| Parser.AtHeader | ss_parser/TABLE_DEFINITION.txt:54 | where each field of the header stands |
| GrammarProofs.BondAreaWritten | ss_parser/src/ss_parser.c:259-321 | clean bonds are read back in order |
| GrammarProofs.BondAreaRead | ss_parser/src/ss_parser.c:259-321 | whatever bond area is accepted is the writing of the bonds it yields, and they are clean |
| GrammarProofs.PathRead | ss_parser/src/ss_parser.c:111-132 | a path field is the path, and padding from the first pad byte on |
| GrammarProofs.JobsWritten | ss_parser/src/ss_parser.c:544-752 | written job rows are read back, newest first |
| GrammarProofs.JobsRead | ss_parser/src/ss_parser.c:544-752 | accepted job rows are the writing of the jobs they yield |
| GrammarProofs.IntrsWritten | ss_parser/src/ss_parser.c:770-969 | written interval rows are read back, newest first |
| GrammarProofs.IntrsRead | ss_parser/src/ss_parser.c:770-969 | accepted interval rows are the writing of the intervals they yield |
| GrammarProofs.BodyWritten | ss_parser/TABLE_DEFINITION.txt:50-66 | a readable body is read back completely, whatever fills the path fields |
| GrammarProofs.BodyRead | ss_parser/src/ss_parser.c:620-1004 | an accepted body, read from any position on, re-encodes to the bytes consumed, and is readable |
| GrammarProofs.BodyUnique | ss_parser/TABLE_DEFINITION.txt:50-66 | the same bytes are the body of one table only, readable or not |
| GrammarProofs.BodyOutcome | ss_parser/src/ss_parser.c:620-1004 | a written body comes to depend on memory never set exactly when its first row that cannot be read back is one without bonds |
| Parser.Fsm.CheckHeaderConsistency | ss_parser/src/ss_parser.c:163-186 | accepts exactly a separator with the expected magic number |
| Parser.Fsm.Strncpy | ss_parser/src/ss_parser.c:111-132 | copies up to the first pad byte and writes one terminator behind it, also behind 255 bytes |
| Parser.Fsm.PerJiAsco | ss_parser/src/ss_parser.c:199-246 | reads one bond or refuses it |
| Parser.Fsm.JobIntrAsco | ss_parser/src/ss_parser.c:259-321 | the bond loop against the bond grammar, 32-bit limit included |
| Parser.Fsm.JobDecideNxt | ss_parser/src/ss_parser.c:544-618 | which field or row follows, with the separator look-ahead, and the end state after a failure |
| Parser.Fsm.JobTraversalStart | ss_parser/src/ss_parser.c:620-752 | the row machine yields the job section of the grammar; a row stored with a list that was never set has no defined outcome |
| Parser.Fsm.IntDecideNxt | ss_parser/src/ss_parser.c:770-842 | the same decision for interval rows |
| Parser.Fsm.IntTraversalStart | ss_parser/src/ss_parser.c:844-969 | the row machine yields the interval section of the grammar |
| Parser.Fsm.HpStart | ss_parser/src/ss_parser.c:435-541 | end of file, refused header, or the body of the hyperperiod in the buffer |
| Parser.Fsm.RunState | ss_parser/src/ss_parser.c:1110-1139 | the action of each section, none for the interval sections of aperiodic tables |
| Parser.Fsm.TransitionFn | ss_parser/src/ss_parser.c:1031-1060 | next section, the end of the run, and the end state after a failure |
| Parser.ParsingMain | ss_parser/src/ss_parser.c:1141-1167 | the machine terminates and yields exactly what the grammar gives for the file, over all hyperperiods, unless that depends on memory never written |
| Parser.BufferIsBody | ss_parser/src/ss_parser.c:495-516 | for matching counts the computed buffer length is the length of the body, modulo 2^32 |
| Parser.BodyInBuffer | ss_parser/src/ss_parser.c:516-530 | a body that is in the buffer in part only is never read, and as a whole exactly when it is readable |
| Parser.FileRoundTrip | ss_parser/TABLE_DEFINITION.txt:50-66 | for any written table: it is read if and only if it is readable (every job bonded, no id and no row mistaken for a delimiter, no empty section) and its body and the margin stay below 2^31 bytes; what comes back is the table, rows reversed; the outcome is undefined exactly when a row without bonds is met first, and the table is refused otherwise |
| Parser.AcceptedFile | ss_parser/src/ss_parser.c:1141-1167 | an accepted file with one hyperperiod is the writing of the lists returned, which are readable |
| Parser.IndexWithinLast | ss_parser/src/ss_parser.c:1095 | over all hyperperiods of an accepted file, the bytes of all rows together fit into what the last body had room for |
| Parser.SecondHyperperiodIsLost | ss_parser/TABLE_DEFINITION.txt:66-79 | whatever two tables are written as hyperperiods of one file, they do not come back |
| Parser.ParsedCounted | ss_parser/src/ss_parser.c:311-315 | every job of every accepted file has the bonds it announces, and at least one |
| Parser.Job93IsLost | ss_parser/src/ss_parser.c:281-282 | a well-formed table that is refused |
| Parser.JobWithoutBondsIsLost | ss_parser/src/ss_parser.c:259-321 | one whose outcome is undefined: a job without bonds |
| TaskPacket.RecordsAdjoin | ss_parser/src/ss_tsaheylu.c:251-252 | each record ends where the next one starts |
| TaskPacket.SlackIsExact | ss_parser/src/ss_tsaheylu.c:172-261 | the last record ends within the allocated length, with exactly (n - 1) times a bond less a word unused |
| TaskPacket.Task.CreateSsTask | ss_parser/src/ss_tsaheylu.c:175-196 | the head, and the offset of the first record |
| TaskPacket.Task.CreateMinorIdBond | ss_parser/src/ss_tsaheylu.c:198-254 | writes exactly the record of the job, and fails when it has more or fewer bonds than announced |
| TaskPacket.Task.CreateTask | ss_parser/src/ss_tsaheylu.c:263-316 | succeeds exactly when there is a bond and all counters match, and then the buffer is head, offsets, records and zeros |
| TaskPacket.ReadBack | ss_parser/src/ss_tsaheylu.c:516-530 | every job and every bond is found through its stored offset |
| Bonding.RunsSplit | ss_parser/src/ss_tsaheylu.c:130-156 | grouping loses no job, each group has one major id, neighbours differ |
| Bonding.OneRunPerId | ss_parser/src/ss_tsaheylu.c:397-455 | when the jobs of each task stand together, each task gets one group |
| Bonding.PluckOutJobs | ss_parser/src/ss_tsaheylu.c:130-156 | the leading run, reversed, and the rest |
| Bonding.CountIntrs | ss_parser/src/ss_tsaheylu.c:158-170 | the sum of the announced bonds |
| Bonding.PackTask | ss_parser/src/ss_tsaheylu.c:424-436 | one group packed, or refused exactly when it has no bond or a wrong counter |
| Bonding.JobToTask | ss_parser/src/ss_tsaheylu.c:397-460 | one packet per run, newest first, each with a pid of its own; succeeds exactly when every job has the bonds it announces and every run has a bond |
| Bonding.AcceptedFileIsPacked | ss_parser/src/main.c:93-96 | the jobs of whatever file the reader accepts meet that condition |
| IntervalBonding.IntrSrchJob | ss_parser/src/ss_tsaheylu.c:489-501 | finds the interval in a packed record if and only if the job is bonded to it |
| IntervalBonding.IntrPoplPerTask | ss_parser/src/ss_tsaheylu.c:506-533 | lists the bonded jobs of a packet, in packet order |
| IntervalBonding.IntrPopulateTask | ss_parser/src/ss_tsaheylu.c:535-560 | the same over all tasks |
| IntervalBonding.IntrTaskBond | ss_parser/src/ss_tsaheylu.c:586-675 | hands on the intervals before the first that does not match, each with its jobs, and succeeds exactly when all match |
| IntervalBonding.ListedIffBonded | ss_parser/src/ss_tsaheylu.c:516-530 | in one packet, an entry is listed if and only if it names a bonded job |
| IntervalBonding.ListedInOrder | ss_parser/src/ss_tsaheylu.c:535-560 | what the packets list for an interval is, entry by entry, the parsed jobs bonded to it, last job first, each with the pid of its run |
| IntervalBonding.ListsExactlyBonded | ss_parser/src/ss_tsaheylu.c:535-560 | over all tasks of a job list, an entry is listed if and only if it is that of a parsed job bonded to the interval |
| IntervalBonding.BondPairsCounted | ss_parser/src/ss_tsaheylu.c:644-653 | over distinct ids the announced task counts add up to the (job, interval) bond pairs |
| IntervalBonding.BondTable | ss_parser/src/main.c:93-109 | from the parsed jobs: succeeds if and only if counters match, every run has a bond and, for a periodic table, there are jobs and intervals, each interval announces the number of jobs bonded to it and no two neighbours are empty; each interval handed on lists exactly the entries of its jobs, in order; the numbers add up to the pairs of the job list |
| StateMachine.TransitionsAllowed | ss_state_machine.py:105-112 | what the bit masks allow, in words |
| StateMachine.StateNamesQueue | ss_state_machine.py:96-124 | each live job is in exactly the queue its state names |
| StateMachine.OneJobPerTask | ss_state_machine.py:105-124 | no task has two live jobs |
| StateMachine.State.ChangeState | ss_state_machine.py:114-124 | guard, leaving, entering and the new state, in all cases |
| StateMachine.State.AddJob | ss_state_machine.py:139-147 | admitted exactly when its task has no live job, then last in the queue of its type |
| StateMachine.State.RmvJob | ss_state_machine.py:126-137 | any job: which queue it leaves, and exactly when the states go on naming the queues |
| StateMachine.State.SelectionFunction | ss_state_machine.py:164-193 | same live jobs before and after, queues as selected, invariant kept |
| StateMachine.Earliest | ss_queue.py:26-32 | the first in the queue of those with the earliest absolute deadline |
| StateMachine.SelectionIsEdf | ss_state_machine.py:164-193 | the selected job has the earliest deadline of all live guaranteed jobs; none is selected only when none waits |
| StateMachine.TiesGoToTheFirst | ss_state_machine.py:164-193 | of several earliest jobs the one that waits longest is selected, the running job queueing up last, and the others keep their order |
| StateMachine.SelectionConserves | ss_state_machine.py:164-193 | selection neither loses nor duplicates a job |
| QueueRun.Perform | ss_state_machine.py:96-193 | every operation is one step on the queues, and the states go on naming them if and only if it is a possible one |
| QueueRun.Run | ss_state_machine.py:126-193 | over every sequence of arrivals, ends (of refused jobs as well) and selections the queues are what the operations make of them, and every live job is in the queue its state names |
| QueueRun.RefusedJobEnds | ss_state_machine.py:126-137 | an end after which a live job has lost its state |
| QueueRun.SelectionsRun | ss_state_machine.py:164-193 | a run of selections is the repeated selection |
| QueueRun.NoSoftJobStarves | ss_queue.py:38-42 | without a live guaranteed job, every live soft job runs within as many selections as there are soft jobs |
| StateMachine.RingRuns | ss_queue.py:38-42 | with soft jobs only, successive selections run them in waiting order |
| StateMachine.EverySoftJobRuns | ss_queue.py:38-42 | in a ring of m soft jobs each one runs within m selections |
| StateMachine.EveryLiveSoftJobRuns | ss_queue.py:38-42 | and so does every live soft job of a machine without a live guaranteed job |

## Left out

- The admission of firm aperiodic tasks: `aperiodic_test`, `acceptance_test`, `split_intr` and the split
  branch of `guarantee_task` use undefined names; only the reservation loop is modelled.
- The transition of unconcluded jobs (`transit_unconcluded_tsk`), which rests on that admission.
- `list.py`, `__correct_intr`, the `*.notused` and backup files: not used by the running code.
- The simulator, sockets, system calls, process control and platform code: calls into code that is not
  here. Platform callbacks are taken to succeed and to give each task a pid.
- File access: a table file is its byte sequence. Memory allocation succeeds, except that a body length
  of 2^31 - 5 or more counts as a failed allocation, as it does with the margin added in 32 bits.
- Freeing, printing and debug output.
- Floating point: utilisation is summed over the reals.
- Cycles: the timer is armed in the unit of the decision times (`ss_chronos.py:90` multiplies by cycles per ms).
- The deferred record and its interval are one object, and the base class and the deferred class are
  one class with different names for the two updates and the two moves.
- The queues are sequences in fields; library sorting and minimum are their documented effects, stable
  and first of equals.
- A read past the body of a hyperperiod, and a row stored with a list of bonds that was never set, end the
  model's run as `Indeterminate`; the program goes on with whatever stands there.
- The round trip is stated for one hyperperiod, since two never come back.
- The fields `est` and `interval_id` of a parsed job, which the reader does not set; packing takes `est`
  as given, and a list of bonds as set.
- Packet buffers are addressed by words of four bytes, the size the offset formula assumes for `long`
  as well; a finished packet is handed on as a value. A bond that would be written past the end of the
  buffer ends packing with a failure; the program writes on. Sizes are unbounded numbers.
- Jobs listed under an interval beyond its announced number are counted, not stored past its list.
- TaskPacket.Task.CreateTask: what a refused group leaves in the buffer is not described.
- SchedulerRun.Run: how the jobs that run are chosen is not part of it; that is the state machine's side.
- TimedRun.Run: decisions after the timer stopped at the last interval end.
