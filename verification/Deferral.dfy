// Why settling spare capacities late is exact.
//
// A deferred table stores for interval i a capacity sc[i] and an amount upd[i] that i still
// owes its predecessor. `raw` is the ghost truth: interval length minus work, as time passes
// and jobs run. The claims below relate what is stored to Recurrence.Sc(raw, .).

module Deferral {
  import opened Recurrence

  /** Membership of an interval in a relation window: who lends, and up to where. */
  datatype Link = NoLink | Link(lender: nat, till: nat)

  /** Intervals l+1..t are a maximal negative run, and l is the non-negative one before it. */
  ghost predicate IsWindow(sc: seq<int>, l: nat, t: nat) {
    && l < t < |sc|
    && sc[l] >= 0
    && (forall j :: l < j <= t ==> sc[j] < 0)
    && (t + 1 < |sc| ==> sc[t + 1] >= 0)
  }

  /** Interval i lends or borrows in some window. */
  predicate Linked(sc: seq<int>, i: nat)
    requires i < |sc|
  {
    sc[i] < 0 || (i + 1 < |sc| && sc[i + 1] < 0)
  }

  /** `win` names, for each interval, exactly the relation window of `sc` it lies in. */
  ghost predicate ExactWindows(sc: seq<int>, win: seq<Link>) {
    && |win| == |sc|
    && forall i :: 0 <= i < |sc| ==>
         && (win[i].Link? <==> Linked(sc, i))
         && (win[i].Link? ==> win[i].lender <= i <= win[i].till && IsWindow(sc, win[i].lender, win[i].till))
  }

  /** Windows are disjoint stretches, all members of one agree on it. */
  ghost predicate Partition(win: seq<Link>) {
    && (forall i :: 0 <= i < |win| && win[i].Link? ==> win[i].lender <= i <= win[i].till < |win|)
    && (forall i, j :: 0 <= i < |win| && win[i].Link? && win[i].lender <= j <= win[i].till ==> win[j] == win[i])
  }

  lemma WindowIsUnique(sc: seq<int>, i: nat, l: nat, t: nat, l': nat, t': nat)
    requires IsWindow(sc, l, t) && IsWindow(sc, l', t') && l <= i <= t && l' <= i <= t'
    ensures l == l' && t == t'
  {
  }

  /** The description of the windows leaves no choice. */
  lemma ExactWindowsUnique(sc: seq<int>, win: seq<Link>, win': seq<Link>)
    requires ExactWindows(sc, win) && ExactWindows(sc, win')
    ensures win == win'
  {
    forall i | 0 <= i < |sc| ensures win[i] == win'[i] {
      if win[i].Link? {
        WindowIsUnique(sc, i, win[i].lender, win[i].till, win'[i].lender, win'[i].till);
      }
    }
  }

  lemma ExactWindowsPartition(sc: seq<int>, win: seq<Link>)
    requires ExactWindows(sc, win)
    ensures Partition(win)
  {
    forall i, j | 0 <= i < |win| && win[i].Link? && win[i].lender <= j <= win[i].till
      ensures win[j] == win[i]
    {
      assert Linked(sc, j);
      WindowIsUnique(sc, j, win[i].lender, win[i].till, win[j].lender, win[j].till);
    }
  }

  function Max0(x: int): int {
    if x > 0 then x else 0
  }

  function At(xs: seq<int>, i: nat): int {
    if i < |xs| then xs[i] else 0
  }

  /** What interval i will pass to its predecessor once everything after it is settled. */
  function Outflow(sc: seq<int>, upd: seq<int>, i: nat): int
    requires |upd| == |sc|
    decreases |sc| - i
  {
    if i >= |sc| then 0
    else upd[i] + Min0(sc[i] + Outflow(sc, upd, i + 1)) - Min0(sc[i])
  }

  /** Everything owed inside the window of interval c, behind c. */
  function Pending(upd: seq<int>, win: seq<Link>, c: nat): int
    requires c < |win| == |upd|
    requires win[c].Link? ==> c <= win[c].till < |win|
  {
    if win[c].Link? then Sum(upd, c + 1, win[c].till + 1) else 0
  }

  /** Debts and owed amounts occur only strictly inside windows. */
  ghost predicate Confined(sc: seq<int>, upd: seq<int>, win: seq<Link>, c: nat)
    requires |upd| == |sc| == |win|
  {
    forall j :: c < j < |sc| ==>
      && upd[j] >= 0
      && (sc[j] < 0 || upd[j] > 0 ==> win[j].Link? && win[j].lender < j)
  }

  /** The one-step shape of the recurrence that the stored numbers keep. */
  ghost predicate Local(sc: seq<int>, upd: seq<int>, raw: seq<int>, i: nat)
    requires |upd| == |sc| == |raw| && i < |sc|
  {
    sc[i] + At(upd, i + 1) == raw[i] + Min0(At(sc, i + 1))
  }

  /** The relation between the stored table and the truth while interval c is current. */
  ghost predicate Tracks(sc: seq<int>, upd: seq<int>, raw: seq<int>, win: seq<Link>, c: nat) {
    && |sc| == |upd| == |raw| == |win| && c < |sc|
    && Partition(win)
    && Confined(sc, upd, win, c)
    && (forall i :: c < i < |sc| ==> Local(sc, upd, raw, i))
    && sc[c] + At(upd, c + 1) == raw[c] + Min0(At(sc, c + 1)) + Pending(upd, win, c)
  }

  lemma TracksParts(sc: seq<int>, upd: seq<int>, raw: seq<int>, win: seq<Link>, c: nat)
    requires Tracks(sc, upd, raw, win, c)
    ensures |sc| == |upd| == |raw| == |win| && c < |sc| && Confined(sc, upd, win, c)
  {
  }

  /** An interval behind its window's end passes nothing on. */
  lemma {:induction false} OutflowBounds(sc: seq<int>, upd: seq<int>, win: seq<Link>, c: nat, i: nat)
    requires |sc| == |upd| == |win| && c < i && Partition(win) && Confined(sc, upd, win, c)
    ensures 0 <= Outflow(sc, upd, i)
    ensures i < |sc| && !(win[i].Link? && win[i].lender < i) ==> Outflow(sc, upd, i) == 0
    ensures i < |sc| ==> Outflow(sc, upd, i) <= upd[i] + Outflow(sc, upd, i + 1)
    decreases |sc| - i
  {
    if i < |sc| {
      OutflowBounds(sc, upd, win, c, i + 1);
    }
  }

  /** Nothing flows into the last interval of a window. */
  lemma NoInflowAtTill(sc: seq<int>, upd: seq<int>, win: seq<Link>, c: nat, i: nat)
    requires |sc| == |upd| == |win| && Partition(win) && Confined(sc, upd, win, c)
    requires c <= i < |win| && (win[i].Link? ==> i == win[i].till)
    ensures Outflow(sc, upd, i + 1) == 0 && At(upd, i + 1) == 0 && At(sc, i + 1) >= 0
  {
    if i + 1 < |sc| {
      OutflowBounds(sc, upd, win, c, i + 1);
    }
  }

  /** Every future interval: stored capacity plus pending inflow is the recomputed capacity. */
  lemma {:induction false} FutureExact(sc: seq<int>, upd: seq<int>, raw: seq<int>, win: seq<Link>, c: nat, i: nat)
    requires Tracks(sc, upd, raw, win, c) && c < i < |sc|
    ensures sc[i] + Outflow(sc, upd, i + 1) == Sc(raw, i)
    decreases |sc| - i
  {
    assert Local(sc, upd, raw, i);
    if i + 1 < |sc| {
      FutureExact(sc, upd, raw, win, c, i + 1);
    }
  }

  /** The flow that reached the current interval early although a later one would have kept it. */
  function Excess(sc: seq<int>, upd: seq<int>, win: seq<Link>, c: nat): int
    requires c < |sc| == |upd| == |win|
    requires win[c].Link? ==> c <= win[c].till < |win|
  {
    Pending(upd, win, c) - Outflow(sc, upd, c + 1)
  }

  lemma {:induction false} PendingCoversOutflow(sc: seq<int>, upd: seq<int>, win: seq<Link>, c: nat, i: nat, t: nat)
    requires |sc| == |upd| == |win| && Partition(win) && Confined(sc, upd, win, c)
    requires c < i <= t + 1 <= |sc| && t >= 0 && win[t].Link? && win[t].till == t
    ensures Outflow(sc, upd, i) <= Sum(upd, i, t + 1)
    decreases t + 1 - i
  {
    if i == t + 1 {
      NoInflowAtTill(sc, upd, win, c, t);
    } else {
      PendingCoversOutflow(sc, upd, win, c, i + 1, t);
      OutflowBounds(sc, upd, win, c, i);
    }
  }

  /** The current interval: its stored capacity is the recomputed one plus a non-negative excess. */
  lemma CurrentExact(sc: seq<int>, upd: seq<int>, raw: seq<int>, win: seq<Link>, c: nat)
    requires Tracks(sc, upd, raw, win, c)
    ensures sc[c] == Sc(raw, c) + Excess(sc, upd, win, c)
    ensures Excess(sc, upd, win, c) >= 0
  {
    if c + 1 < |sc| {
      FutureExact(sc, upd, raw, win, c, c + 1);
    }
    if win[c].Link? {
      PendingCoversOutflow(sc, upd, win, c, c + 1, win[c].till);
    } else {
      NoInflowAtTill(sc, upd, win, c, c);
    }
  }

  // ---- running a job -------------------------------------------------------------------

  /** The change of what interval k passes on when its capacity grows from x by dt. */
  function Gain(x: int, dt: int): int {
    Min0(x + dt) - Min0(x)
  }

  /** Time passes in the current interval: idle, or for a job that is not its own. */
  function Elapsed(raw: seq<int>, c: nat, dt: int): (r: seq<int>)
    requires c < |raw|
    ensures |r| == |raw|
  {
    raw[c := raw[c] - dt]
  }

  /** Interval k is credited with dt units of time, as when a job of it got them. */
  function Served(raw: seq<int>, k: nat, dt: int): (r: seq<int>)
    requires k < |raw|
    ensures |r| == |raw|
  {
    raw[k := raw[k] + dt]
  }

  lemma SameLenderSameWindow(win: seq<Link>, i: nat, j: nat)
    requires Partition(win) && i < |win| && j < |win| && win[i].Link? && win[j].Link?
    ensures win[i].lender == win[j].lender <==> win[i] == win[j]
  {
    assert win[win[i].lender] == win[i];
    assert win[win[j].lender] == win[j];
  }

  lemma {:induction false} SumUpdate(xs: seq<int>, lo: nat, hi: nat, k: nat, x: int)
    requires lo <= hi <= |xs| && k < |xs|
    ensures Sum(xs[k := x], lo, hi) == Sum(xs, lo, hi) + if lo <= k < hi then x - xs[k] else 0
    decreases hi - lo
  {
    if lo < hi {
      SumUpdate(xs, lo + 1, hi, k, x);
    }
  }

  lemma IdleKeeps(sc: seq<int>, upd: seq<int>, raw: seq<int>, win: seq<Link>, c: nat, dt: nat)
    requires Tracks(sc, upd, raw, win, c)
    ensures Tracks(sc[c := sc[c] - dt], upd, Elapsed(raw, c, dt), win, c)
  {
    var sc', raw' := sc[c := sc[c] - dt], Elapsed(raw, c, dt);
    forall i | c < i < |sc| ensures Local(sc', upd, raw', i) {
      assert Local(sc, upd, raw, i);
    }
  }

  /** What the current interval gets back at once when interval k passes on `gain`. */
  function Back(win: seq<Link>, c: nat, k: nat, gain: int): int
    requires c < |win| && k < |win|
  {
    if win[c].Link? && win[k] == win[c] then gain else 0
  }

  lemma ServeKeepsFuture(sc: seq<int>, upd: seq<int>, raw: seq<int>, c: nat, k: nat, dt: nat, x: int)
    requires |sc| == |upd| == |raw| && c < k < |sc|
    requires forall i :: c < i < |sc| ==> Local(sc, upd, raw, i)
    ensures var sc', upd' := sc[k := sc[k] + dt][c := x], upd[k := upd[k] + Gain(sc[k], dt)];
      forall i :: c < i < |sc| ==> Local(sc', upd', Served(Elapsed(raw, c, dt), k, dt), i)
  {
    var sc', upd' := sc[k := sc[k] + dt][c := x], upd[k := upd[k] + Gain(sc[k], dt)];
    forall i | c < i < |sc| ensures Local(sc', upd', Served(Elapsed(raw, c, dt), k, dt), i) {
      assert Local(sc, upd, raw, i);
    }
  }

  lemma ServeKeepsPending(sc: seq<int>, upd: seq<int>, win: seq<Link>, c: nat, k: nat, gain: int)
    requires |sc| == |upd| == |win| && Partition(win) && c < k < |win|
    ensures Pending(upd[k := upd[k] + gain], win, c) == Pending(upd, win, c) + Back(win, c, k, gain)
  {
    if win[c].Link? {
      SumUpdate(upd, c + 1, win[c].till + 1, k, upd[k] + gain);
      if win[k] == win[c] {
        assert win[k].lender <= k <= win[k].till;
      }
    }
  }

  /** Serving a job of a later interval with the O(1) bookkeeping keeps the table on track. */
  lemma ServeKeeps(sc: seq<int>, upd: seq<int>, raw: seq<int>, win: seq<Link>, c: nat, k: nat, dt: nat)
    requires Tracks(sc, upd, raw, win, c) && c < k < |sc|
    ensures var gain := Gain(sc[k], dt);
      Tracks(sc[k := sc[k] + dt][c := sc[c] - dt + Back(win, c, k, gain)], upd[k := upd[k] + gain],
             Served(Elapsed(raw, c, dt), k, dt), win, c)
  {
    var gain := Gain(sc[k], dt);
    ServeKeepsFuture(sc, upd, raw, c, k, dt, sc[c] - dt + Back(win, c, k, gain));
    ServeKeepsPending(sc, upd, win, c, k, gain);
  }

  /** The same bookkeeping for a job of an interval k that is over already: the current interval may
      get a credit, and what the table then tracks is the truth plus this credit. */
  lemma ServeLateKeeps(sc: seq<int>, upd: seq<int>, raw: seq<int>, win: seq<Link>, c: nat, k: nat, dt: nat)
    requires Tracks(sc, upd, raw, win, c) && k < c
    ensures var gain := Gain(sc[k], dt); var back := Back(win, c, k, gain);
      Tracks(sc[k := sc[k] + dt][c := sc[c] - dt + back], upd[k := upd[k] + gain],
             Served(Served(Elapsed(raw, c, dt), k, dt), c, back), win, c)
  {
    var gain := Gain(sc[k], dt);
    var back := Back(win, c, k, gain);
    var sc', upd' := sc[k := sc[k] + dt][c := sc[c] - dt + back], upd[k := upd[k] + gain];
    var raw' := Served(Served(Elapsed(raw, c, dt), k, dt), c, back);
    forall i | c < i < |sc| ensures Local(sc', upd', raw', i) {
      assert Local(sc, upd, raw, i);
    }
    if win[c].Link? {
      SumUpdate(upd, c + 1, win[c].till + 1, k, upd[k] + gain);
    }
  }

  /** So a late job leaves the table on track of the truth if and only if it gets no credit, and that
      is when no time passed, its interval is not in debt, or the two intervals share no window. */
  lemma LateJobHarmlessIff(sc: seq<int>, upd: seq<int>, raw: seq<int>, win: seq<Link>, c: nat, k: nat, dt: nat)
    requires Tracks(sc, upd, raw, win, c) && k < c
    ensures var gain := Gain(sc[k], dt);
      var sc', upd' := sc[k := sc[k] + dt][c := sc[c] - dt + Back(win, c, k, gain)], upd[k := upd[k] + gain];
      var harmless := dt == 0 || sc[k] >= 0 || win[c].NoLink? || win[k] != win[c];
      Tracks(sc', upd', Served(Elapsed(raw, c, dt), k, dt), win, c) <==> harmless
  {
    hide Partition, Confined;
    ServeLateKeeps(sc, upd, raw, win, c, k, dt);
    var truth := Served(Elapsed(raw, c, dt), k, dt);
    assert Served(truth, c, 0) == truth;
  }

  /** A late job that does harm: its interval is over and in debt, in the window of the current one. */
  lemma LateJobHarms()
    ensures var win := [Link(0, 2), Link(0, 2), Link(0, 2)];
      && Tracks([2, -2, -1], [0, 0, 0], [4, -1, -1], win, 2)
      && !Tracks([2, -2, -1][1 := -1][2 := -1], [0, 0, 0][1 := 1], Served(Elapsed([4, -1, -1], 2, 1), 1, 1), win, 2)
  {
  }

  // ---- moving to the next interval ------------------------------------------------------

  /** (sc', upd') is (sc, upd) with everything owed inside lo..hi-1 delivered. */
  ghost predicate Settled(sc: seq<int>, upd: seq<int>, sc': seq<int>, upd': seq<int>, lo: nat, hi: nat)
    requires |sc| == |upd| == |sc'| == |upd'| && lo <= hi <= |sc|
  {
    forall j {:trigger sc'[j]} {:trigger upd'[j]} :: 0 <= j < |sc| ==>
      && sc'[j] == sc[j] + (if lo <= j < hi then Outflow(sc, upd, j + 1) else 0)
      && upd'[j] == if lo <= j < hi then 0 else upd[j]
  }

  /** Before the first step of the walk nothing is settled and nothing collected. */
  lemma SettleStart(sc: seq<int>, upd: seq<int>, i: nat)
    requires |sc| == |upd| && i <= |sc|
    ensures Settled(sc, upd, sc, upd, i, i) && Sum(upd, i, i) == 0
  {
  }

  /** One step of the settling walk, from the state where everything behind i is settled. */
  lemma SettleStep(sc: seq<int>, upd: seq<int>, sc': seq<int>, upd': seq<int>, i: nat, hi: nat)
    requires |sc| == |upd| == |sc'| == |upd'| && i < hi <= |sc|
    requires Settled(sc, upd, sc', upd', i + 1, hi)
    ensures sc'[i] == sc[i] && upd'[i] == upd[i]
    ensures Settled(sc, upd, sc'[i := sc[i] + Outflow(sc, upd, i + 1)], upd'[i := 0], i, hi)
  {
    hide Outflow, Settled;
    SettledAt(sc, upd, sc', upd', i + 1, hi, i);
    var sc'', upd'' := sc'[i := sc[i] + Outflow(sc, upd, i + 1)], upd'[i := 0];
    forall j | 0 <= j < |sc|
      ensures sc''[j] == sc[j] + (if i <= j < hi then Outflow(sc, upd, j + 1) else 0)
      ensures upd''[j] == if i <= j < hi then 0 else upd[j]
    {
      SettledAt(sc, upd, sc', upd', i + 1, hi, j);
    }
    SettledIf(sc, upd, sc'', upd'', i, hi);
  }

  lemma SettledIf(sc: seq<int>, upd: seq<int>, sc': seq<int>, upd': seq<int>, lo: nat, hi: nat)
    requires |sc| == |upd| == |sc'| == |upd'| && lo <= hi <= |sc|
    requires forall j :: 0 <= j < |sc| ==>
      && sc'[j] == sc[j] + (if lo <= j < hi then Outflow(sc, upd, j + 1) else 0)
      && upd'[j] == if lo <= j < hi then 0 else upd[j]
    ensures Settled(sc, upd, sc', upd', lo, hi)
  {
    hide Outflow;
  }

  /** The walk's two accumulators always differ by the flow into the next interval to settle. */
  lemma {:induction false} SettleFlow(sc: seq<int>, upd: seq<int>, i: nat, t: nat, u: int, r: int)
    requires |sc| == |upd| && i <= t < |sc| && Outflow(sc, upd, i + 1) >= 0
    requires u == Sum(upd, i + 1, t + 1) && u - r == Outflow(sc, upd, i + 1)
    ensures u + upd[i] == Sum(upd, i, t + 1)
    ensures var r' := if sc[i] < 0 then r + Max0(sc[i] + (u - r)) else u;
      u + upd[i] - r' == Outflow(sc, upd, i)
  {
  }

  /** Where settling on behalf of interval i stops: behind its window, or at once without one. */
  function SettleEnd(win: seq<Link>, i: nat): nat
    requires i < |win|
  {
    if win[i].Link? then win[i].till + 1 else i
  }

  lemma {:induction false} SumZero(xs: seq<int>, lo: nat, hi: nat)
    requires lo <= hi <= |xs| && forall j :: lo <= j < hi ==> xs[j] == 0
    ensures Sum(xs, lo, hi) == 0
    decreases hi - lo
  {
    if lo < hi {
      SumZero(xs, lo + 1, hi);
    }
  }

  lemma SettledLocal(sc: seq<int>, upd: seq<int>, raw: seq<int>, sc': seq<int>, upd': seq<int>, lo: nat, hi: nat, i: nat)
    requires |sc| == |upd| == |raw| == |sc'| == |upd'| && lo <= hi <= |sc|
    requires Settled(sc, upd, sc', upd', lo, hi)
    requires hi < |sc| ==> Outflow(sc, upd, hi) == 0 && upd[hi] == 0 && sc[hi] >= 0
    requires lo <= i < |sc| && Local(sc, upd, raw, i)
    ensures Local(sc', upd', raw, i)
  {
    if i + 1 < |sc| {
      assert Settled(sc, upd, sc', upd', lo, hi);
    }
  }

  /** After settling, the next interval and its whole window hold their recomputed capacity. */
  lemma SettleKeeps(sc: seq<int>, upd: seq<int>, raw: seq<int>, win: seq<Link>, c: nat, sc': seq<int>, upd': seq<int>)
    requires Tracks(sc, upd, raw, win, c) && c + 1 < |sc| == |sc'| == |upd'|
    requires Settled(sc, upd, sc', upd', c + 1, SettleEnd(win, c + 1))
    ensures Tracks(sc', upd', raw, win, c + 1)
    ensures sc'[c + 1] == Sc(raw, c + 1)
    ensures forall j :: c + 1 <= j < SettleEnd(win, c + 1) ==> sc'[j] == Sc(raw, j)
  {
    hide Sc, Outflow, Sum, Confined, Partition, Local, Settled;
    var nxt, end := c + 1, SettleEnd(win, c + 1);
    WindowEnds(win, nxt);
    SettledLocals(sc, upd, raw, win, c, sc', upd');
    SettledConfined(sc, upd, win, c, sc', upd');
    forall j | nxt <= j < end || j == nxt ensures sc'[j] == Sc(raw, j) {
      SettledAt(sc, upd, sc', upd', nxt, end, j);
      FutureExact(sc, upd, raw, win, c, j);
      if j >= end {
        NoInflowAtTill(sc, upd, win, c, nxt);
      }
    }
    NothingPending(sc, upd, win, nxt, sc', upd');
    LocalIs(sc', upd', raw, nxt);
  }

  lemma WindowEnds(win: seq<Link>, i: nat)
    requires Partition(win) && i < |win|
    ensures i <= SettleEnd(win, i) <= |win| && (win[i].Link? ==> i <= win[i].till < |win|)
  {
  }

  lemma LocalIs(sc: seq<int>, upd: seq<int>, raw: seq<int>, i: nat)
    requires |upd| == |sc| == |raw| && i < |sc| && Local(sc, upd, raw, i)
    ensures sc[i] + At(upd, i + 1) == raw[i] + Min0(At(sc, i + 1))
  {
  }

  lemma SettledAt(sc: seq<int>, upd: seq<int>, sc': seq<int>, upd': seq<int>, lo: nat, hi: nat, j: nat)
    requires |sc| == |upd| == |sc'| == |upd'| && lo <= hi <= |sc| && j < |sc|
    requires Settled(sc, upd, sc', upd', lo, hi)
    ensures sc'[j] == sc[j] + (if lo <= j < hi then Outflow(sc, upd, j + 1) else 0)
    ensures upd'[j] == if lo <= j < hi then 0 else upd[j]
  {
  }

  /** Nothing is owed any more behind interval i in its window. */
  lemma NothingPending(sc: seq<int>, upd: seq<int>, win: seq<Link>, i: nat, sc': seq<int>, upd': seq<int>)
    requires |sc| == |upd| == |win| == |sc'| == |upd'| && i < |sc| && Partition(win)
    requires SettleEnd(win, i) <= |sc| && i <= SettleEnd(win, i)
    requires Settled(sc, upd, sc', upd', i, SettleEnd(win, i))
    ensures Pending(upd', win, i) == 0
  {
    hide Outflow, Sum;
    if win[i].Link? {
      SumZero(upd', i + 1, win[i].till + 1);
    }
  }

  lemma SettledLocals(sc: seq<int>, upd: seq<int>, raw: seq<int>, win: seq<Link>, c: nat, sc': seq<int>, upd': seq<int>)
    requires Tracks(sc, upd, raw, win, c) && c + 1 < |sc| == |sc'| == |upd'|
    requires Settled(sc, upd, sc', upd', c + 1, SettleEnd(win, c + 1))
    ensures forall i :: c < i < |sc| ==> Local(sc', upd', raw, i)
  {
    hide Outflow, Local, Settled;
    var nxt, end := c + 1, SettleEnd(win, c + 1);
    WindowEnds(win, nxt);
    NoInflowAtTill(sc, upd, win, c, if win[nxt].Link? then end - 1 else nxt);
    if end < |sc| && end > nxt {
      OutflowBounds(sc, upd, win, c, end);
    }
    forall i | c < i < |sc| ensures Local(sc', upd', raw, i) {
      if nxt < end || end == |sc| {
        SettledLocal(sc, upd, raw, sc', upd', nxt, end, i);
      } else {
        UnsettledLocal(sc, upd, raw, sc', upd', nxt, i);
      }
    }
  }

  lemma UnsettledLocal(sc: seq<int>, upd: seq<int>, raw: seq<int>, sc': seq<int>, upd': seq<int>, lo: nat, i: nat)
    requires |sc| == |upd| == |raw| == |sc'| == |upd'| && lo <= |sc| && i < |sc|
    requires Settled(sc, upd, sc', upd', lo, lo) && Local(sc, upd, raw, i)
    ensures Local(sc', upd', raw, i)
  {
  }

  lemma SettledConfined(sc: seq<int>, upd: seq<int>, win: seq<Link>, c: nat, sc': seq<int>, upd': seq<int>)
    requires |sc| == |upd| == |win| == |sc'| == |upd'| && c + 1 < |sc|
    requires Partition(win) && Confined(sc, upd, win, c)
    requires Settled(sc, upd, sc', upd', c + 1, SettleEnd(win, c + 1))
    ensures Confined(sc', upd', win, c + 1)
  {
    forall j | c + 1 < j < |sc|
      ensures upd'[j] >= 0 && (sc'[j] < 0 || upd'[j] > 0 ==> win[j].Link? && win[j].lender < j)
    {
      OutflowBounds(sc, upd, win, c, j + 1);
    }
  }

  /** The correction of the interval just left: exact as soon as its early credit is taken back. */
  lemma LeftBehindExact(sc: seq<int>, upd: seq<int>, raw: seq<int>, win: seq<Link>, c: nat)
    requires Tracks(sc, upd, raw, win, c) && c + 1 < |sc|
    ensures win[c] == win[c + 1] ==> sc[c] - Excess(sc, upd, win, c) == Sc(raw, c)
    ensures win[c] != win[c + 1] ==> sc[c] == Sc(raw, c)
  {
    CurrentExact(sc, upd, raw, win, c);
    if win[c] != win[c + 1] {
      if win[c].Link? {
        assert win[c].till == c;
      }
      NoInflowAtTill(sc, upd, win, c, c);
    }
  }

  /** The table right after the move from c to c + 1. */
  ghost predicate SettledExactly(sc: seq<int>, raw: seq<int>, win: seq<Link>, c: nat) {
    && 0 < c < |sc| == |raw| == |win|
    && SettleEnd(win, c) <= |sc|
    && (forall j :: c - 1 <= j <= c || c <= j < SettleEnd(win, c) ==> sc[j] == Sc(raw, j))
  }

  /** The move to the next interval: settle its window, take the early credit back from the one left. */
  lemma MoveKeeps(sc: seq<int>, upd: seq<int>, raw: seq<int>, win: seq<Link>, c: nat,
                  sc': seq<int>, upd': seq<int>, rec: int)
    requires Tracks(sc, upd, raw, win, c) && c + 1 < |sc| == |sc'| == |upd'|
    requires Settled(sc, upd, sc', upd', c + 1, SettleEnd(win, c + 1))
    requires rec == if win[c + 1].Link? then Sum(upd, c + 1, win[c + 1].till + 1) - Outflow(sc, upd, c + 1) else 0
    ensures var sc'' := if win[c] == win[c + 1] then sc'[c := sc'[c] - rec] else sc';
      Tracks(sc'', upd', raw, win, c + 1) && SettledExactly(sc'', raw, win, c + 1)
  {
    hide Outflow, Sum, Sc, Confined, Local;
    SettleKeeps(sc, upd, raw, win, c, sc', upd');
    LeftBehindExact(sc, upd, raw, win, c);
    if win[c] == win[c + 1] && win[c].NoLink? {
      NoInflowAtTill(sc, upd, win, c, c);
    }
    var x := if win[c] == win[c + 1] then sc'[c] - rec else sc'[c];
    assert x == Sc(raw, c);
    PastIsFree(sc', upd', raw, win, c + 1, c, x);
  }

  lemma PastIsFree(sc: seq<int>, upd: seq<int>, raw: seq<int>, win: seq<Link>, c: nat, i: nat, x: int)
    requires Tracks(sc, upd, raw, win, c) && i < c
    ensures Tracks(sc[i := x], upd, raw, win, c)
  {
    var sc' := sc[i := x];
    forall j | c < j < |sc| ensures Local(sc', upd, raw, j) {
      assert Local(sc, upd, raw, j);
    }
  }

  // ---- building the relation windows ------------------------------------------------------

  /** `win` is final for the intervals before i and still empty from i on. */
  ghost predicate WindowsUpTo(sc: seq<int>, win: seq<Link>, i: nat) {
    && |win| == |sc| && i <= |sc|
    && (forall j :: 0 <= j < i ==>
         && (win[j].Link? <==> Linked(sc, j))
         && (win[j].Link? ==> win[j].lender <= j <= win[j].till && IsWindow(sc, win[j].lender, win[j].till)))
    && (forall j :: i <= j < |sc| ==> win[j].NoLink?)
  }

  /** Intervals lo..t enter the window of lender l. */
  function Painted(win: seq<Link>, lo: nat, l: nat, t: nat): (r: seq<Link>)
    ensures |r| == |win|
    ensures forall j :: 0 <= j < |win| ==> r[j] == if lo <= j <= t then Link(l, t) else win[j]
  {
    seq(|win|, j requires 0 <= j < |win| => if lo <= j <= t then Link(l, t) else win[j])
  }

  lemma PaintNone(win: seq<Link>, t: nat, l: nat)
    ensures Painted(win, t + 1, l, t) == win
  {
  }

  lemma PaintOne(win: seq<Link>, i: nat, l: nat, t: nat)
    requires i <= t < |win|
    ensures Painted(win, i + 1, l, t)[i := Link(l, t)] == Painted(win, i, l, t)
  {
  }

  lemma WindowAdded(sc: seq<int>, win: seq<Link>, l: nat, t: nat)
    requires l < t < |sc| && WindowsUpTo(sc, win, l) && IsWindow(sc, l, t)
    ensures WindowsUpTo(sc, Painted(win, l, l, t), t + 1)
  {
  }

  lemma EmptyWindows(sc: seq<int>, win: seq<Link>)
    requires |win| == |sc| && forall j :: 0 <= j < |sc| ==> win[j].NoLink?
    ensures WindowsUpTo(sc, win, 0)
  {
  }

  lemma AllWindows(sc: seq<int>, win: seq<Link>)
    requires WindowsUpTo(sc, win, |sc|)
    ensures ExactWindows(sc, win)
  {
  }

  /** A window-less interval extends the finished part. */
  lemma WindowSkipped(sc: seq<int>, win: seq<Link>, i: nat)
    requires WindowsUpTo(sc, win, i) && i < |sc| && !Linked(sc, i)
    ensures WindowsUpTo(sc, win, i + 1)
  {
  }

  lemma InitiallyConfined(sc: seq<int>, upd: seq<int>, win: seq<Link>)
    requires ExactWindows(sc, win)
    requires |upd| == |sc| && forall i :: 0 <= i < |sc| ==> upd[i] == 0
    ensures Confined(sc, upd, win, 0)
  {
  }

  /** A fresh table with windows as computed offline tracks the truth it solves. */
  lemma InitiallyOnTrack(sc: seq<int>, upd: seq<int>, win: seq<Link>)
    requires |sc| > 0 && ExactWindows(sc, win)
    requires |upd| == |sc| && forall i :: 0 <= i < |sc| ==> upd[i] == 0
    ensures Tracks(sc, upd, RawOf(sc), win, 0)
  {
    hide Confined, IsWindow;
    ExactWindowsPartition(sc, win);
    InitiallyConfined(sc, upd, win);
    if win[0].Link? {
      SumZero(upd, 1, win[0].till + 1);
    }
  }
}
