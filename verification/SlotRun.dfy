// Whole runs of the original per-slot update: it never over-reports.

module SlotRun {
  import opened Wrappers
  import Runs
  import opened PlainState
  import opened Recurrence
  import opened LocalList
  import opened Deferral
  import opened Eager
  import opened IntervalTable

  /** One slot: the interval of the guaranteed job that ran, if any. */
  datatype Slot = Slot(time: int, job: Option<nat>)

  /** A slot as the scheduler passes it on. */
  datatype SlotDecision = SlotDecision(time: int, running: Running, soft: bool)

  predicate Allowed(t: Truth, s: Slot) {
    !t.over && (s.job.Some? ==> s.job.value < |t.raw|)
  }

  /** The truth after the slot was charged. */
  function Charged(t: Truth, s: Slot): (r: Truth)
    requires t.cur < |t.raw| && Allowed(t, s)
    ensures |r.raw| == |t.raw|
  {
    Truth(t.cur, false, s.time, Advanced(t.raw, t.cur, s.job, 1))
  }

  /** A slot followed by the check for the end of the current interval. */
  function Next(ends: seq<int>, t: Truth, s: Slot): (r: Truth)
    requires Fits(ends, t) && Allowed(t, s)
    ensures Fits(ends, r)
  {
    if s.time <= ends[t.cur] then Charged(t, s) else Moved(ends, Charged(t, s))
  }

  function Slots(ends: seq<int>): (Truth, Slot) -> Option<Truth> {
    (t: Truth, s: Slot) => if Fits(ends, t) && Allowed(t, s) then Some(Next(ends, t, s)) else None
  }

  /** The run of all slots, where it is allowed throughout. */
  function After(ends: seq<int>, t: Truth, ss: seq<Slot>): (r: Option<Truth>)
    requires Fits(ends, t)
    ensures r.Some? ==> Fits(ends, r.value)
    decreases |ss|
  {
    var r := Runs.After(Slots(ends), t, ss);
    assert r.Some? ==> Fits(ends, r.value) by {
      if ss != [] {
        assert After(ends, t, ss[..|ss| - 1]) == Runs.After(Slots(ends), t, ss[..|ss| - 1]);
      }
    }
    r
  }

  lemma SlotRuns(ends: seq<int>, t: Truth, ss: seq<Slot>, n: nat)
    requires Fits(ends, t) && After(ends, t, ss).Some? && n < |ss|
    ensures var before := After(ends, t, ss[..n]);
      && before.Some? && Allowed(before.value, ss[n])
      && After(ends, t, ss[..n + 1]) == Some(Next(ends, before.value, ss[n]))
  {
    Runs.StepRuns(Slots(ends), t, ss, n);
  }

  /** The table stands where the plain state says, and promises no more than it. */
  ghost predicate Shows(table: Interval, ends: seq<int>, t: Truth)
    reads table, table.intrList, table.intrList.nodes, table.intrs, table.currPoint
  {
    && Fits(ends, t) && |table.intrs| == |ends|
    && (forall k {:trigger table.intrs[k].end} :: 0 <= k < |ends| ==> table.intrs[k].end == ends[k])
    && (t.over ==> table.currInterval == null)
    && (!t.over ==>
          && table.PerSlot() && table.cur == t.cur && table.raw == t.raw
          && table.currPoint == table.intrList.nodes[t.cur]
          && Conservative(table.sc, table.raw, table.cur))
  }

  /** The decision carries the slot: a guaranteed job's interval node is the one at that position. */
  ghost predicate Carries(list: LinkedRing<IntrNode>, d: SlotDecision, s: Slot)
    reads list, if d.running.Job? && d.running.intr != null then {d.running.intr} else {}
  {
    && d.time == s.time && d.running != Job(null)
    && (d.running.Job? ==> list.Has(d.running.intr))
    && s.job == if d.running.Idle? || d.soft then None else Some(d.running.intr.pos)
  }

  lemma ShownParts(table: Interval, ends: seq<int>, t: Truth)
    requires Shows(table, ends, t) && !t.over
    ensures table.PerSlot() && table.cur == t.cur < |table.raw| && table.raw == t.raw
    ensures |table.intrs| == |table.intrList.nodes| == |ends| && table.currPoint == table.intrList.nodes[t.cur]
    ensures table.currInterval != null && table.currInterval.end == ends[t.cur]
    ensures Conservative(table.sc, table.raw, table.cur)
  {
  }

  /** One slot on the table is one slot of the plain state. An update that fails is not followed by the
      check; it fails for no job whose interval is not over. */
  method Pass(table: Interval, d: SlotDecision, ghost ends: seq<int>, ghost t: Truth, ghost s: Slot) returns (ok: bool)
    requires Shows(table, ends, t) && Allowed(t, s) && Carries(table.intrList, d, s)
    modifies table`sc, table`raw, table`currPoint, table`currInterval, table`cur, table.intrs`sc
    ensures Shows(table, ends, if ok then Next(ends, t, s) else Charged(t, s))
    ensures s.job.None? || t.cur <= s.job.value ==> ok
  {
    hide Interval.PerSlot, Conservative, Advanced, Raised;
    ShownParts(table, ends, t);
    ok := table.UpdateScPerSlot(d.running, d.soft);
    if ok {
      CheckEnd(table, d.time, ends, Charged(t, s));
    }
  }

  /** The check for the end of the current interval. */
  method CheckEnd(table: Interval, time: int, ghost ends: seq<int>, ghost t: Truth)
    requires Shows(table, ends, t) && !t.over
    modifies table`currPoint, table`currInterval, table`cur
    ensures Shows(table, ends, if time <= ends[t.cur] then t else Moved(ends, t))
  {
    hide Interval.Built, Conservative;
    ShownParts(table, ends, t);
    var r := table.CheckSetPerSlot(time);
  }

  /** In every run of slots each current or future interval's recorded capacity is at most the one
      recomputed from the plain raw capacities, up to the first slot whose update fails and behind it. */
  method Run(table: Interval, ds: seq<SlotDecision>, ghost ends: seq<int>, ghost t: Truth, ghost ss: seq<Slot>)
      returns (done: nat)
    requires Shows(table, ends, t) && After(ends, t, ss).Some? && |ss| == |ds|
    requires forall i :: 0 <= i < |ds| ==> Carries(table.intrList, ds[i], ss[i])
    modifies table`sc, table`raw, table`currPoint, table`currInterval, table`cur, table.intrs`sc
    ensures done <= |ds| && Reaches(table, ends, t, ss, done)
    ensures forall i :: table.cur <= i < |ends| && table.currInterval != null ==>
      table.intrs[i].sc <= Sc(table.raw, i)
  {
    hide Shows, Next, After, Allowed, Charged;
    ShownBelow(table, ends, t);
    AfterNothing(ends, t);
    assert ss[..0] == [];
    done := 0;
    while done < |ds|
      invariant done <= |ds|
      invariant After(ends, t, ss[..done]).Some? && Shows(table, ends, After(ends, t, ss[..done]).value)
      invariant forall k :: done <= k < |ds| ==> Carries(table.intrList, ds[k], ss[k])
    {
      SlotRuns(ends, t, ss, done);
      var ok := Pass(table, ds[done], ends, After(ends, t, ss[..done]).value, ss[done]);
      if !ok {
        ShownBelow(table, ends, Charged(After(ends, t, ss[..done]).value, ss[done]));
        return;
      }
      done := done + 1;
    }
    assert ss[..|ds|] == ss;
    ShownBelow(table, ends, After(ends, t, ss).value);
  }

  /** The table went through the first `done` slots, and one that failed if there are more. */
  ghost predicate Reaches(table: Interval, ends: seq<int>, t: Truth, ss: seq<Slot>, done: nat)
    requires Fits(ends, t) && done <= |ss|
    reads table, table.intrList, table.intrList.nodes, table.intrs, table.currPoint
  {
    var before := After(ends, t, ss[..done]);
    && before.Some?
    && if done == |ss| then Shows(table, ends, before.value)
       else Allowed(before.value, ss[done]) && Shows(table, ends, Charged(before.value, ss[done]))
  }

  lemma AfterNothing(ends: seq<int>, t: Truth)
    requires Fits(ends, t)
    ensures After(ends, t, []) == Some(t)
  {
  }

  lemma ShownBelow(table: Interval, ends: seq<int>, r: Truth)
    requires Shows(table, ends, r)
    ensures Fits(ends, r) && |table.intrs| == |ends|
    ensures table.currInterval != null ==> table.cur == r.cur && |table.raw| == |ends|
    ensures table.currInterval != null ==>
      forall i :: table.cur <= i < |ends| ==> table.intrs[i].sc <= Sc(table.raw, i)
  {
    hide Interval.Table;
    if table.currInterval != null {
      forall i | table.cur <= i < |ends| ensures table.intrs[i].sc <= Sc(table.raw, i) {
        table.StoredAt(i);
        ConservativeBelow(table.sc, table.raw, table.cur, i);
      }
    }
  }

  /** A table that holds the recurrence from its current interval on can start such a run. */
  lemma StartShown(table: Interval, ends: seq<int>)
    requires table.PerSlot() && ExactFrom(table.sc, table.raw, table.cur)
    requires |table.intrList.nodes| == |table.intrs| && table.currPoint == table.intrList.nodes[table.cur]
    requires |ends| == |table.intrs|
    requires forall k {:trigger table.intrs[k].end} :: 0 <= k < |ends| ==> table.intrs[k].end == ends[k]
    ensures Shows(table, ends, Truth(table.cur, false, 0, table.raw))
  {
    ExactIsConservative(table.sc, table.raw, table.cur);
  }

  // ---- as the base class is written -------------------------------------------------------------

  /** The truth after n slots in the interval c. */
  function RawAfter(raw: seq<int>, c: nat, jobs: seq<Option<nat>>): (r: seq<int>)
    requires c < |raw| && forall i :: 0 <= i < |jobs| && jobs[i].Some? ==> jobs[i].value < |raw|
    ensures |r| == |raw|
  {
    if jobs == [] then raw else Advanced(RawAfter(raw, c, jobs[..|jobs| - 1]), c, jobs[|jobs| - 1], 1)
  }

  /** One decision of the base class. */
  method PassAsWritten(table: Interval, d: SlotDecision, ghost s: Slot) returns (ok: bool)
    requires table.PerSlot() && Conservative(table.sc, table.raw, table.cur) && Carries(table.intrList, d, s)
    modifies table`sc, table`raw, table.intrs`sc
    ensures table.PerSlot() && Conservative(table.sc, table.raw, table.cur)
    ensures table.cur < |table.raw| == |old(table.raw)| == |table.intrs|
    ensures s.job.Some? ==> s.job.value < |table.raw|
    ensures table.raw == Advanced(old(table.raw), table.cur, s.job, 1)
    ensures NotLate(s, table.cur) ==> ok
  {
    hide Interval.PerSlot, Conservative, Advanced;
    table.PerSlotSizes();
    JobInTable(table, d, s);
    var r;
    ok, r := table.UpdateIntrPerSlot(d.running, d.soft);
    table.PerSlotSizes();
  }

  /** Every decision of the base class charges a slot and ends. So over every run its current interval
      stays what it was, as the frame says, and its capacities are conservative on the truth that all
      slots passed in that interval. The run ends early with an update that fails, which it does for no
      job whose interval is not over. */
  method RunAsWritten(table: Interval, ds: seq<SlotDecision>, ghost ss: seq<Slot>) returns (done: nat)
    requires table.PerSlot() && Conservative(table.sc, table.raw, table.cur) && |ss| == |ds|
    requires forall i :: 0 <= i < |ds| ==> Carries(table.intrList, ds[i], ss[i])
    modifies table`sc, table`raw, table.intrs`sc
    ensures table.PerSlot() && |old(table.raw)| == |table.raw| == |table.intrs|
    ensures forall i :: 0 <= i < |ss| && ss[i].job.Some? ==> ss[i].job.value < |table.raw|
    ensures done <= |ds| && ((forall i :: 0 <= i < |ss| ==> NotLate(ss[i], table.cur)) ==> done == |ds|)
    ensures table.raw == RawAfter(old(table.raw), table.cur, seq(done, i requires 0 <= i < done => ss[i].job))
    ensures forall i :: table.cur <= i < |table.intrs| ==> table.intrs[i].sc <= Sc(table.raw, i)
  {
    hide Interval.PerSlot, Conservative, Advanced, NotLate;
    ghost var jobs := seq(|ss|, i requires 0 <= i < |ss| => ss[i].job);
    table.PerSlotSizes();
    forall i | 0 <= i < |ss| && ss[i].job.Some? ensures ss[i].job.value < |table.raw| {
      JobInTable(table, ds[i], ss[i]);
    }
    assert jobs[..0] == [];
    done := 0;
    var ok := true;
    while ok && done < |ds|
      invariant done <= |ds| && (!ok ==> done > 0 && !NotLate(ss[done - 1], table.cur))
      invariant table.PerSlot() && Conservative(table.sc, table.raw, table.cur)
      invariant forall i :: done <= i < |ds| ==> Carries(table.intrList, ds[i], ss[i])
      invariant |table.raw| == |old(table.raw)| == |table.intrs| && table.cur < |table.raw|
      invariant table.raw == RawAfter(old(table.raw), table.cur, jobs[..done])
      decreases |ds| - done
    {
      assert jobs[..done + 1][..done] == jobs[..done];
      ok := PassAsWritten(table, ds[done], ss[done]);
      done := done + 1;
    }
    assert jobs[..done] == seq(done, i requires 0 <= i < done => ss[i].job);
    CapacitiesBelow(table);
  }

  predicate NotLate(s: Slot, c: nat) {
    s.job.Some? ==> c <= s.job.value
  }

  lemma JobInTable(table: Interval, d: SlotDecision, s: Slot)
    requires table.PerSlot() && Carries(table.intrList, d, s)
    ensures s.job.Some? ==> s.job.value < |table.raw|
  {
  }

  lemma CapacitiesBelow(table: Interval)
    requires table.PerSlot() && Conservative(table.sc, table.raw, table.cur)
    ensures |table.raw| == |table.intrs|
    ensures forall i :: table.cur <= i < |table.intrs| ==> table.intrs[i].sc <= Sc(table.raw, i)
  {
    hide Interval.Table;
    forall i | table.cur <= i < |table.intrs| ensures table.intrs[i].sc <= Sc(table.raw, i) {
      table.StoredAt(i);
      ConservativeBelow(table.sc, table.raw, table.cur, i);
    }
  }
}
