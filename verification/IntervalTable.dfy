// The interval table at run time: a ring of intervals, an iterator, the current interval,
// and the deferred (O(1) per decision) update of the spare capacities.

module IntervalTable {
  import opened Wrappers
  import opened Recurrence
  import opened LocalList
  import opened Deferral
  import opened Eager

  /** An interval together with its deferred-update record. */
  class IntrNode {
    var id: int
    var start: int
    var end: int
    var sc: int
    var updateVal: int
    var lentTill: ListNode?<IntrNode>
    var lender: ListNode?<IntrNode>
    ghost var pos: nat  // position in the table

    constructor (id: int, start: int, end: int, sc: int)
      ensures this.id == id && this.start == start && this.end == end && this.sc == sc
      ensures updateVal == 0 && lentTill == null && lender == null
    {
      this.id, this.start, this.end, this.sc := id, start, end, sc;
      updateVal, lentTill, lender := 0, null, null;
    }
  }

  /** What ran since the last decision: nothing, or a job with the interval it belongs to. */
  datatype Running = Idle | Job(intr: ListNode?<IntrNode>)

  /** The truth after dt units of time in interval c: k is the interval of the job that ran. */
  function Advanced(raw: seq<int>, c: nat, k: Option<nat>, dt: int): (r: seq<int>)
    requires c < |raw| && (k.Some? ==> k.value < |raw|)
    ensures |r| == |raw|
  {
    if k.None? then Elapsed(raw, c, dt) else Served(Elapsed(raw, c, dt), k.value, dt)
  }

  /** What the table tracks after dt units of time in interval c: the truth, plus the credit that a
      job of an interval k that is over already earns the current one. */
  function Charged(raw: seq<int>, sc: seq<int>, win: seq<Link>, c: nat, k: Option<nat>, dt: int): (r: seq<int>)
    requires c < |raw| == |sc| == |win| && (k.Some? ==> k.value < |raw|)
    ensures |r| == |raw|
  {
    var truth := Advanced(raw, c, k, dt);
    if k.Some? && k.value < c then Served(truth, c, Back(win, c, k.value, Gain(sc[k.value], dt))) else truth
  }

  /** It is the truth if and only if the job is not late, or no credit is due. */
  lemma ChargedIsTruthIff(raw: seq<int>, sc: seq<int>, win: seq<Link>, c: nat, k: Option<nat>, dt: nat)
    requires c < |raw| == |sc| == |win| && (k.Some? ==> k.value < |raw|)
    ensures Charged(raw, sc, win, c, k, dt) == Advanced(raw, c, k, dt) <==>
      k.None? || c <= k.value || dt == 0 || sc[k.value] >= 0 || win[c].NoLink? || win[k.value] != win[c]
  {
    var truth := Advanced(raw, c, k, dt);
    assert forall x :: Served(truth, c, x)[c] == truth[c] + x;
    assert Served(truth, c, 0) == truth;
  }

  /** The capacities stored after dt units of time in interval c: the current interval pays, the interval
      of the job that ran gains, and what that gains from its debt comes back within a window. */
  function ChargedSc(sc: seq<int>, win: seq<Link>, c: nat, k: Option<nat>, dt: int): (r: seq<int>)
    requires c < |sc| == |win| && (k.Some? ==> k.value < |sc|)
    ensures |r| == |sc|
  {
    if k.None? then sc[c := sc[c] - dt]
    else if k.value == c then sc
    else sc[k.value := sc[k.value] + dt][c := sc[c] - dt + Back(win, c, k.value, Gain(sc[k.value], dt))]
  }

  /** The update values stored then. */
  function ChargedUpd(sc: seq<int>, upd: seq<int>, c: nat, k: Option<nat>, dt: int): (r: seq<int>)
    requires |sc| == |upd| && (k.Some? ==> k.value < |sc|)
    ensures |r| == |upd|
  {
    if k.None? || k.value == c then upd else upd[k.value := upd[k.value] + Gain(sc[k.value], dt)]
  }

  /** A move from interval c on settles what is stored from c up to hi, and touches nothing else. */
  ghost predicate HandedOver(sc: seq<int>, upd: seq<int>, sc': seq<int>, upd': seq<int>, c: nat, hi: nat) {
    && |sc'| == |sc| == |upd| == |upd'|
    && (forall i :: 0 <= i < |sc| && (i < c || hi <= i) ==> sc'[i] == sc[i])
    && (forall i :: 0 <= i < |upd| ==> upd'[i] == if c < i < hi then 0 else upd[i])
  }

  lemma SettledIsHandedOver(sc: seq<int>, upd: seq<int>, sc': seq<int>, upd': seq<int>, c: nat, hi: nat, x: int)
    requires |sc| == |upd| == |sc'| == |upd'| && c < c + 1 <= hi <= |sc|
    requires Settled(sc, upd, sc', upd', c + 1, hi)
    ensures HandedOver(sc, upd, sc', upd', c, hi) && HandedOver(sc, upd, sc'[c := x], upd', c, hi)
  {
    hide Outflow;
  }

  /** raw' is what the table tracks after a decision at `now`, the one before being at sched. */
  ghost predicate ChargedTo(raw: seq<int>, sc: seq<int>, win: seq<Link>, c: nat, k: Option<nat>,
                            sched: int, now: int, raw': seq<int>)
  {
    && c < |raw| == |sc| == |win| && (k.Some? ==> k.value < |raw|)
    && raw' == if sched < 0 then raw else Charged(raw, sc, win, c, k, now - sched)
  }

  /** sc' and upd' are what is stored then, before any move. */
  ghost predicate StoredTo(sc: seq<int>, upd: seq<int>, win: seq<Link>, c: nat, k: Option<nat>,
                           sched: int, now: int, sc': seq<int>, upd': seq<int>)
  {
    && c < |sc| == |upd| == |win| && (k.Some? ==> k.value < |sc|)
    && sc' == (if sched < 0 then sc else ChargedSc(sc, win, c, k, now - sched))
    && upd' == (if sched < 0 then upd else ChargedUpd(sc, upd, c, k, now - sched))
  }

  /** sc' and upd' are what is stored then, after a move from interval c on. */
  ghost predicate StoredMoved(sc: seq<int>, upd: seq<int>, win: seq<Link>, c: nat, k: Option<nat>,
                              sched: int, now: int, sc': seq<int>, upd': seq<int>)
  {
    && c + 1 < |sc| == |upd| == |win| && (k.Some? ==> k.value < |sc|)
    && var sc0 := if sched < 0 then sc else ChargedSc(sc, win, c, k, now - sched);
       var upd0 := if sched < 0 then upd else ChargedUpd(sc, upd, c, k, now - sched);
       HandedOver(sc0, upd0, sc', upd', c, SettleEnd(win, c + 1))
  }

  class Interval {
    const intrList: LinkedRing<IntrNode>
    var intrCount: nat
    var currInterval: IntrNode?
    var currPoint: ListNode?<IntrNode>
    var schedTime: int      // time of the last decision, negative before the first
    var timeDiff: int
    var timeMovt: bool

    ghost var intrs: seq<IntrNode>   // the intervals in order
    ghost var sc: seq<int>       // their stored capacities
    ghost var upd: seq<int>      // their stored update values
    ghost var win: seq<Link>     // the relation window of each interval
    ghost var raw: seq<int>      // remaining length minus remaining work of each interval
    ghost var cur: nat           // position of the current interval

    constructor ()
      ensures OnTrack() && intrs == [] && currInterval == null && currPoint == null
      ensures schedTime < 0 && timeMovt && sc == [] && upd == [] && fresh(intrList) && intrList.nodes == []
    {
      intrList := new LinkedRing();
      intrCount, currInterval, currPoint := 0, null, null;
      schedTime, timeDiff, timeMovt := -1, 0, true;
      intrs, sc, upd, win, raw, cur := [], [], [], [], [], 0;
    }

    /** The ring carries `intrs` in order, and the iterator points into it. */
    static ghost predicate Table(list: LinkedRing<IntrNode>, intrs: seq<IntrNode>, point: ListNode?<IntrNode>)
      reads list, list.nodes, intrs`pos, point
    {
      && list.Valid() && |intrs| == |list.nodes|
      && (forall i :: 0 <= i < |intrs| ==> intrs[i].pos == i)
      && (forall i {:trigger list.nodes[i].data} :: 0 <= i < |intrs| ==> list.nodes[i].data == intrs[i])
      && (point != null ==> list.Has(point))
    }

    /** The window pointers stored in the intervals say what `win` says. */
    static ghost predicate LinksAre(intrs: seq<IntrNode>, nodes: seq<ListNode<IntrNode>>, win: seq<Link>)
      reads intrs`lentTill, intrs`lender
    {
      && |win| == |intrs| == |nodes|
      && forall i {:trigger intrs[i].lentTill} {:trigger intrs[i].lender} {:trigger win[i]} :: 0 <= i < |intrs| ==>
           if win[i].NoLink? then intrs[i].lentTill == null && intrs[i].lender == null
           else
             && win[i].till < |nodes| && intrs[i].lentTill == nodes[win[i].till]
             && win[i].lender < |nodes| && intrs[i].lender == nodes[win[i].lender]
    }

    static ghost predicate LinksStored(intrs: seq<IntrNode>, nodes: seq<ListNode<IntrNode>>, win: seq<Link>)
      reads intrs`lentTill, intrs`lender
    {
      LinksAre(intrs, nodes, win) && Partition(win)
    }

    /** The capacities and owed amounts stored in the intervals are `sc` and `upd`. */
    static ghost predicate Stored(intrs: seq<IntrNode>, sc: seq<int>, upd: seq<int>)
      reads intrs`sc, intrs`updateVal
    {
      && |sc| == |upd| == |intrs|
      && forall i {:trigger intrs[i].sc} {:trigger intrs[i].updateVal} :: 0 <= i < |intrs| ==>
           intrs[i].sc == sc[i] && intrs[i].updateVal == upd[i]
    }

    /** While an interval is current, the iterator is at it and the stored capacities track the truth. */
    ghost predicate OnTrack()
      reads this, intrList, intrList.nodes, intrs, currPoint
    {
      && Table(intrList, intrs, currPoint) && intrCount == |intrs| == |raw|
      && LinksStored(intrs, intrList.nodes, win) && Stored(intrs, sc, upd)
      && (currInterval != null ==>
            && cur < |intrs| && currInterval == intrs[cur]
            && currPoint == intrList.nodes[cur]
            && Tracks(sc, upd, raw, win, cur))
    }

    /** Every future interval's capacity plus what is pending for it is the recomputed one, and
        the current interval is above its recomputed capacity by exactly its excess. */
    lemma Exact()
      requires OnTrack() && currInterval != null
      ensures forall i :: cur < i < |intrs| ==>
        intrs[i].sc + Outflow(sc, upd, i + 1) == Sc(raw, i)
      ensures currInterval.sc == Sc(raw, cur) + Excess(sc, upd, win, cur)
      ensures Excess(sc, upd, win, cur) >= 0
    {
      forall i | cur < i < |intrs| ensures intrs[i].sc + Outflow(sc, upd, i + 1) == Sc(raw, i) {
        FutureExact(sc, upd, raw, win, cur, i);
      }
      CurrentExact(sc, upd, raw, win, cur);
    }

    /** The position of the interval whose job ran. */
    ghost function Serving(running: Running): (k: Option<nat>)
      reads this, intrList, if running.Job? && running.intr != null then {running.intr} else {}
    {
      if running.Job? && running.intr != null then Some(running.intr.pos) else None
    }

    /** A running job belongs to an interval of the table. */
    ghost predicate Belongs(running: Running)
      reads this, intrList, if running.Job? && running.intr != null then {running.intr} else {}
    {
      running.Job? && running.intr != null ==> intrList.Has(running.intr)
    }

    lemma ServingInTable(running: Running)
      requires OnTrack() && Belongs(running)
      ensures Serving(running).Some? ==> Serving(running).value < |raw| == |intrs|
      ensures currInterval != null ==> cur < |raw|
    {
    }

    /** Add run time to the interval of a job; the result is what the job's debt did not absorb. */
    method UpdateTskIntr(runTime: nat, tskIntr: IntrNode) returns (rest: int)
      modifies tskIntr`sc, tskIntr`updateVal
      ensures tskIntr.sc == old(tskIntr.sc) + runTime
      ensures tskIntr.updateVal == old(tskIntr.updateVal) + Gain(old(tskIntr.sc), runTime)
      ensures rest == if old(tskIntr.sc) < 0 then runTime - Gain(old(tskIntr.sc), runTime) else 0
    {
      if tskIntr.sc < 0 {
        tskIntr.sc := tskIntr.sc + runTime;
        if tskIntr.sc > 0 {
          tskIntr.updateVal := tskIntr.updateVal + (runTime - tskIntr.sc);
          return tskIntr.sc;
        } else {
          tskIntr.updateVal := tskIntr.updateVal + runTime;
          return 0;
        }
      } else {
        tskIntr.sc := tskIntr.sc + runTime;
        return 0;
      }
    }

    /** Charge the time since the last decision. */
    method UpdateSc(time: int, running: Running) returns (ret: int)
      requires OnTrack() && Belongs(running) && 0 <= time && schedTime <= time
      modifies this`schedTime, this`timeDiff, this`raw, this`sc, this`upd, intrs`sc, intrs`updateVal
      ensures OnTrack()
      ensures schedTime == if currInterval == null then old(schedTime) else time
      ensures ret == if currInterval != null && old(schedTime) >= 0 && running == Job(null) then -1 else 0
      ensures currInterval == null || old(schedTime) < 0 || ret < 0 ==>
        raw == old(raw) && sc == old(sc) && upd == old(upd)
      ensures |old(sc)| == |old(upd)| == |win| == |old(raw)| == |intrs|
      ensures currInterval != null && old(schedTime) >= 0 && ret == 0 ==>
        && raw == Charged(old(raw), old(sc), win, cur, Serving(running), time - old(schedTime))
        && sc == ChargedSc(old(sc), win, cur, Serving(running), time - old(schedTime))
        && upd == ChargedUpd(old(sc), old(upd), cur, Serving(running), time - old(schedTime))
    {
      hide Tracks, LinksStored, Stored, Charged, ChargedSc, ChargedUpd;
      StoredSizes();
      WindowsStored();
      if currInterval == null {
        return 0;
      }
      ChargedHere(raw, sc, upd, win, cur, time - schedTime);
      if schedTime < 0 {
        schedTime := time;
        return 0;
      }
      timeDiff := time - schedTime;
      schedTime := time;
      if running.Job? {
        if running.intr == null {
          return -1;
        }
        var intrTask := running.intr.data;
        if currInterval == intrTask {
          return 0;
        }
        ServeOther(running.intr);
        return 0;
      }
      Idling();
      return 0;
    }

    /** What is charged when nothing ran, and when a job of the current interval did. */
    static lemma ChargedHere(raw: seq<int>, sc: seq<int>, upd: seq<int>, win: seq<Link>, c: nat, dt: int)
      requires c < |raw| == |sc| == |upd| == |win|
      ensures Charged(raw, sc, win, c, None, dt) == Elapsed(raw, c, dt)
      ensures ChargedSc(sc, win, c, None, dt) == sc[c := sc[c] - dt] && ChargedUpd(sc, upd, c, None, dt) == upd
      ensures Charged(raw, sc, win, c, Some(c), dt) == raw
      ensures ChargedSc(sc, win, c, Some(c), dt) == sc && ChargedUpd(sc, upd, c, Some(c), dt) == upd
    {
    }

    /** Nothing ran: only the current interval pays. */
    method Idling()
      requires OnTrack() && currInterval != null && timeDiff >= 0
      modifies this`raw, this`sc, currInterval`sc
      ensures OnTrack() && raw == Elapsed(old(raw), cur, timeDiff)
      ensures cur < |old(sc)| && sc == old(sc)[cur := old(sc[cur]) - timeDiff]
    {
      hide Tracks, LinksStored, LinkedRing.Valid;
      IdleKeeps(sc, upd, raw, win, cur, timeDiff);
      currInterval.sc := currInterval.sc - timeDiff;
      sc := sc[cur := sc[cur] - timeDiff];
      raw := Elapsed(raw, cur, timeDiff);
    }

    /** The O(1) bookkeeping: it touches the current interval and the interval of the job only. */
    method ServePair(curr: IntrNode, tsk: IntrNode)
      requires curr != tsk && timeDiff >= 0
      modifies curr`sc, tsk`sc, tsk`updateVal
      ensures tsk.sc == old(tsk.sc) + timeDiff
      ensures tsk.updateVal == old(tsk.updateVal) + Gain(old(tsk.sc), timeDiff)
      ensures curr.sc == old(curr.sc) - timeDiff
                         + if curr.lender != null && curr.lender == tsk.lender then Gain(old(tsk.sc), timeDiff) else 0
    {
      var tskIntrSc := tsk.sc;
      var currIntrUpdate := UpdateTskIntr(timeDiff, tsk);
      if curr.lender != null && tsk.lender != null && curr.lender == tsk.lender && tskIntrSc < 0 {
        curr.sc := curr.sc - currIntrUpdate;
      } else {
        curr.sc := curr.sc - timeDiff;
      }
    }

    /** The same on the table: curr is interval c, and tsk is interval k. */
    method ServeStored(curr: IntrNode, tsk: IntrNode, ghost c: nat, ghost k: nat)
      requires Table(intrList, intrs, currPoint) && Stored(intrs, sc, upd)
      requires c < |intrs| && k < |intrs| && c != k && curr == intrs[c] && tsk == intrs[k] && timeDiff >= 0
      modifies this`sc, this`upd, curr`sc, tsk`sc, tsk`updateVal
      ensures Stored(intrs, sc, upd) && |old(sc)| == |old(upd)| == |intrs|
      ensures upd == old(upd)[k := old(upd[k]) + Gain(old(sc[k]), timeDiff)]
      ensures sc == old(sc)[k := old(sc[k]) + timeDiff][c := old(sc[c]) - timeDiff
                      + if curr.lender != null && curr.lender == tsk.lender then Gain(old(sc[k]), timeDiff) else 0]
    {
      hide LinkedRing.Valid, Gain;
      ServePair(curr, tsk);
      upd := upd[k := upd[k] + Gain(sc[k], timeDiff)];
      sc := sc[k := sc[k] + timeDiff][c := curr.sc];
    }

    /** A job of another interval ran in the current one. */
    method ServeOther(intr: ListNode<IntrNode>)
      requires OnTrack() && currInterval != null && timeDiff >= 0
      requires intrList.Has(intr) && cur != intr.pos
      modifies this`raw, this`sc, this`upd, intrs`sc, intrs`updateVal
      ensures OnTrack() && |old(sc)| == |old(upd)| == |win| == |old(raw)| == |intrs|
      ensures raw == Charged(old(raw), old(sc), win, cur, Some(intr.pos), timeDiff)
      ensures sc == ChargedSc(old(sc), win, cur, Some(intr.pos), timeDiff)
      ensures upd == ChargedUpd(old(sc), old(upd), cur, Some(intr.pos), timeDiff)
    {
      hide Tracks, LinksStored, LinkedRing.Valid, Stored, Gain, Partition;
      ghost var k := intr.pos;
      StoredSizes();
      TracksParts(sc, upd, raw, win, cur);
      if cur < k {
        ServeKeeps(sc, upd, raw, win, cur, k, timeDiff);
      } else {
        ServeLateKeeps(sc, upd, raw, win, cur, k, timeDiff);
      }
      var tsk := intr.data;
      assert tsk == intrs[k];
      SameLender(cur, k);
      hide Table;
      raw := Charged(raw, sc, win, cur, Some(k), timeDiff);
      ServeStored(currInterval, tsk, cur, k);
    }

    /** Comparing the stored lenders tells whether two intervals share a window. */
    lemma SameLender(i: nat, j: nat)
      requires Table(intrList, intrs, currPoint) && LinksStored(intrs, intrList.nodes, win) && i < |intrs| && j < |intrs|
      ensures intrs[i].lender != null && intrs[i].lender == intrs[j].lender <==> win[i].Link? && win[i] == win[j]
    {
      if win[i].Link? && win[j].Link? {
        SameLenderSameWindow(win, i, j);
        assert intrList.nodes[win[i].lender].pos == win[i].lender;
        assert intrList.nodes[win[j].lender].pos == win[j].lender;
      }
    }

    lemma StoredAt(i: nat)
      requires Stored(intrs, sc, upd) && i < |intrs|
      ensures |sc| == |upd| == |intrs| && intrs[i].sc == sc[i]
    {
    }

    lemma StoredSizes()
      requires Stored(intrs, sc, upd)
      ensures |sc| == |upd| == |intrs|
    {
    }

    lemma WindowsStored()
      requires LinksStored(intrs, intrList.nodes, win)
      ensures |win| == |intrs|
    {
    }

    lemma WindowsOfAll()
      requires LinksAre(intrs, intrList.nodes, win)
      ensures |win| == |intrs|
    {
    }

    lemma SameIntr(i: nat, j: nat)
      requires Table(intrList, intrs, currPoint) && i < |intrs| && j < |intrs|
      ensures intrs[i] == intrs[j] <==> i == j
    {
    }

    lemma HeadFirst()
      requires Table(intrList, intrs, currPoint) && |intrs| > 0
      ensures |intrList.nodes| == |intrs| && intrList.head == intrList.nodes[0]
    {
    }

    lemma NodeAt(i: nat)
      requires Table(intrList, intrs, currPoint) && i < |intrs|
      ensures |intrList.nodes| == |intrs| && intrList.Has(intrList.nodes[i])
      ensures intrList.nodes[i].pos == i && intrList.nodes[i].data == intrs[i]
    {
    }

    /** Comparing the stored ends tells whether two intervals share a window, or both have none. */
    lemma SameTill(i: nat, j: nat)
      requires Table(intrList, intrs, currPoint) && LinksStored(intrs, intrList.nodes, win)
      requires i < |intrs| && j < |intrs|
      ensures intrs[i].lentTill == intrs[j].lentTill <==> win[i] == win[j]
    {
      if win[i].Link? && win[j].Link? {
        assert intrList.nodes[win[i].till].pos == win[i].till;
        assert intrList.nodes[win[j].till].pos == win[j].till;
        assert win[win[i].till] == win[i] && win[win[j].till] == win[j];
      }
    }

    // ---- the iterator -------------------------------------------------------------------

    method ResetIterator()
      requires Table(intrList, intrs, currPoint)
      modifies this`currPoint
      ensures Table(intrList, intrs, currPoint) && currPoint == null
    {
      currPoint := null;
    }

    method SetIterator(iterPoint: ListNode<IntrNode>)
      requires Table(intrList, intrs, currPoint) && intrList.Has(iterPoint)
      modifies this`currPoint
      ensures Table(intrList, intrs, currPoint) && currPoint == iterPoint
    {
      hide LinkedRing.Valid;
      currPoint := iterPoint;
    }

    /** Step the iterator forward; stepping round to the head yields nothing. */
    method GotoNxtInterval() returns (node: ListNode?<IntrNode>)
      requires Table(intrList, intrs, currPoint)
      modifies this`currPoint
      ensures Table(intrList, intrs, currPoint)
      ensures old(currPoint) == null ==> node == currPoint == intrList.head
      ensures old(currPoint) != null && old(currPoint).pos + 1 < |intrs| ==>
        node == currPoint == intrList.nodes[old(currPoint).pos + 1]
      ensures old(currPoint) != null && old(currPoint).pos + 1 == |intrs| ==>
        node == null && currPoint == intrList.head
    {
      if currPoint == null {
        currPoint := intrList.GoNxt(null);
      } else {
        currPoint := intrList.GoNxt(currPoint);
        if currPoint == intrList.head {
          return null;
        }
      }
      return currPoint;
    }

    /** Step the iterator back; at the head it stays put and yields nothing. */
    method GotoPrevInterval() returns (node: ListNode?<IntrNode>)
      requires Table(intrList, intrs, currPoint) && currPoint != null
      modifies this`currPoint
      ensures Table(intrList, intrs, currPoint) && currPoint != null
      ensures old(currPoint).pos == 0 ==> node == null && currPoint == old(currPoint)
      ensures old(currPoint).pos > 0 ==> node == currPoint == intrList.nodes[old(currPoint).pos - 1]
    {
      if currPoint == intrList.head {
        return null;
      }
      currPoint := intrList.GoPrev(currPoint);
      return currPoint;
    }

    // ---- moving to the next interval ------------------------------------------------------

    /** Deliver to interval i what the walk carries, and pick up what the interval owes. */
    method SettleOne(ith: IntrNode, ghost i: nat, updateVal: int, recVal: int) returns (updateVal': int, recVal': int)
      requires i < |intrs| && ith == intrs[i] && Stored(intrs, sc, upd) && Table(intrList, intrs, currPoint)
      modifies this`sc, this`upd, ith`sc, ith`updateVal
      ensures Stored(intrs, sc, upd)
      ensures |old(sc)| == |old(upd)| == |intrs|
      ensures sc == old(sc)[i := old(sc[i]) + (updateVal - recVal)] && upd == old(upd)[i := 0]
      ensures updateVal' == updateVal + old(upd[i])
      ensures recVal' == if old(sc[i]) < 0 then recVal + Max0(sc[i]) else updateVal
    {
      hide LinkedRing.Valid;
      var prevSc := ith.sc;
      ith.sc := ith.sc + (updateVal - recVal);
      // The second half of the original test compares an interval with a list node and always holds.
      if prevSc < 0 {
        recVal' := recVal + Max0(ith.sc);
      } else {
        recVal' := updateVal;
      }
      updateVal' := updateVal + ith.updateVal;
      ith.updateVal := 0;
      sc, upd := sc[i := ith.sc], upd[i := 0];
    }

    /** One step of the walk that started at interval t on the table (sc0, upd0). */
    method SettleNext(ith: IntrNode, ghost i: nat, ghost t: nat, ghost sc0: seq<int>, ghost upd0: seq<int>,
                      updateVal: int, recVal: int)
        returns (updateVal': int, recVal': int)
      requires i <= t < |intrs| == |sc0| == |upd0| && ith == intrs[i]
      requires Table(intrList, intrs, currPoint) && Stored(intrs, sc, upd) && |sc| == |upd| == |intrs|
      requires Outflow(sc0, upd0, i + 1) >= 0 && updateVal == Sum(upd0, i + 1, t + 1)
      requires updateVal - recVal == Outflow(sc0, upd0, i + 1) && Settled(sc0, upd0, sc, upd, i + 1, t + 1)
      modifies this`sc, this`upd, ith`sc, ith`updateVal
      ensures Stored(intrs, sc, upd) && |sc| == |upd| == |intrs|
      ensures updateVal' == Sum(upd0, i, t + 1) && updateVal' - recVal' == Outflow(sc0, upd0, i)
      ensures Settled(sc0, upd0, sc, upd, i, t + 1)
    {
      hide Outflow, Sum, Settled, Stored, Table;
      SettleStep(sc0, upd0, sc, upd, i, t + 1);
      SettleFlow(sc0, upd0, i, t, updateVal, recVal);
      updateVal', recVal' := SettleOne(ith, i, updateVal, recVal);
    }

    /** Walk from interval i to the one before it. */
    method StepBack(ghost i: nat) returns (ith: IntrNode)
      requires Table(intrList, intrs, currPoint) && 0 < i < |intrs| && currPoint == intrList.nodes[i]
      modifies this`currPoint
      ensures Table(intrList, intrs, currPoint) && currPoint == intrList.nodes[i - 1] && ith == intrs[i - 1]
    {
      NodeAt(i);
      NodeAt(i - 1);
      var prev := GotoPrevInterval();
      ith := prev.data;
    }

    /** The backward walk over intervals t, t-1, ..., c. */
    method SettleWindow(curr: IntrNode, ghost c: nat, ghost t: nat) returns (recVal: int)
      requires Table(intrList, intrs, currPoint) && Stored(intrs, sc, upd) && |sc| == |upd| == |intrs|
      requires c <= t < |intrs| == |intrList.nodes| && curr == intrs[c] && currPoint == intrList.nodes[t]
      requires currPoint.data == intrs[t]
      requires forall i :: c < i <= t + 1 ==> Outflow(sc, upd, i) >= 0
      requires Outflow(sc, upd, t + 1) == 0
      modifies this`currPoint, this`sc, this`upd, intrs`sc, intrs`updateVal
      ensures Table(intrList, intrs, currPoint) && Stored(intrs, sc, upd)
      ensures c < |intrList.nodes| && currPoint == intrList.nodes[c]
      ensures |sc| == |upd| == |intrs| && Settled(old(sc), old(upd), sc, upd, c, t + 1)
      ensures recVal == Sum(old(upd), c, t + 1) - Outflow(old(sc), old(upd), c)
    {
      hide *;
      ghost var sc0, upd0, i := sc, upd, t;
      var updateVal := 0;
      recVal := 0;
      var ith := currPoint.data;
      SettleStart(sc0, upd0, t + 1);
      while true
        invariant c <= i <= t < |intrs| == |intrList.nodes| && ith == intrs[i] && currPoint == intrList.nodes[i]
        invariant Table(intrList, intrs, currPoint) && Stored(intrs, sc, upd)
        invariant |sc| == |upd| == |intrs| && updateVal == Sum(upd0, i + 1, t + 1)
        invariant updateVal - recVal == Outflow(sc0, upd0, i + 1)
        invariant Settled(sc0, upd0, sc, upd, i + 1, t + 1)
        decreases i
      {
        updateVal, recVal := SettleNext(ith, i, t, sc0, upd0, updateVal, recVal);
        SameIntr(i, c);
        if ith == curr {
          break;
        }
        ith := StepBack(i);
        i := i - 1;
      }
    }

    /** Settle the window of `curr` in one backward walk; the result is the flow that was kept back. */
    method DeferredUpdate(curr: IntrNode, ghost c: nat) returns (recVal: int)
      requires Table(intrList, intrs, currPoint) && LinksStored(intrs, intrList.nodes, win) && Stored(intrs, sc, upd)
      requires 0 < c < |intrs| && curr == intrs[c] && Confined(sc, upd, win, c - 1)
      requires currPoint == intrList.nodes[c]
      modifies this`currPoint, this`sc, this`upd, intrs`sc, intrs`updateVal
      ensures Table(intrList, intrs, currPoint) && Stored(intrs, sc, upd) && currPoint == intrList.nodes[c]
      ensures SettleEnd(win, c) <= |intrs| && |sc| == |upd| == |intrs|
      ensures Settled(old(sc), old(upd), sc, upd, c, SettleEnd(win, c))
      ensures win[c].Link? ==> recVal == Sum(old(upd), c, win[c].till + 1) - Outflow(old(sc), old(upd), c)
      ensures win[c].NoLink? ==> recVal == 0
    {
      hide Outflow, Sum, Settled, Confined, LinkedRing.Valid;
      if curr.lentTill == null {
        SettleStart(sc, upd, c);
        return 0;
      }
      if curr.lender == null {
        return -1;
      }
      ghost var t := win[c].till;
      NodeAt(t);
      SetIterator(curr.lentTill);
      forall i | c < i <= t + 1 ensures Outflow(sc, upd, i) >= 0 {
        OutflowBounds(sc, upd, win, c - 1, i);
      }
      NoInflowAtTill(sc, upd, win, c - 1, t);
      recVal := SettleWindow(curr, c, t);
    }

    /** Once the current interval is over, make the next one current and settle its window. */
    method CheckSetCurrInterval(time: int) returns (ret: Option<int>)
      requires OnTrack()
      modifies this`currPoint, this`currInterval, this`cur, this`sc, this`upd, intrs`sc, intrs`updateVal
      ensures OnTrack()
      ensures ret == if currInterval == null then None else Some(0)
      ensures old(currInterval) == null ==> currInterval == null && sc == old(sc) && upd == old(upd)
      ensures old(currInterval) != null && time < old(currInterval).end ==>
        currInterval == old(currInterval) && cur == old(cur) && sc == old(sc) && upd == old(upd)
      ensures old(currInterval) != null && time >= old(currInterval).end ==>
        if old(cur) + 1 == |intrs| then currInterval == null && sc == old(sc) && upd == old(upd)
        else
          && cur == old(cur) + 1 && currInterval == intrs[cur] && SettledExactly(sc, raw, win, cur)
          && cur < |win| && HandedOver(old(sc), old(upd), sc, upd, old(cur), SettleEnd(win, cur))
    {
      hide Tracks, LinksStored, Stored, LinkedRing.Valid, SettledExactly;
      var curr := currInterval;
      if curr == null {
        return None;
      }
      if time >= curr.end {
        NodeAt(cur);
        ghost var c := cur;
        var nxt := GotoNxtInterval();
        if nxt == null {
          currInterval := null;
          return None;
        }
        Move(curr, nxt.data);
      }
      return Some(0);
    }

    lemma EndBehind(i: nat)
      requires LinksStored(intrs, intrList.nodes, win) && i < |intrs|
      ensures |win| == |intrs| && i <= SettleEnd(win, i) <= |win|
    {
    }

    method TakeBack(curr: IntrNode, ghost c: nat, rec: int)
      requires Table(intrList, intrs, currPoint) && Stored(intrs, sc, upd)
      requires c < |intrs| && curr == intrs[c]
      modifies this`sc, curr`sc
      ensures Stored(intrs, sc, upd) && c < |old(sc)| && sc == old(sc)[c := old(sc[c]) - rec]
    {
      hide LinkedRing.Valid;
      curr.sc := curr.sc - rec;
      sc := sc[c := sc[c] - rec];
    }

    /** Make `nxt`, the interval behind `curr`, the current one. */
    method Move(curr: IntrNode, nxt: IntrNode)
      requires Table(intrList, intrs, currPoint) && LinksStored(intrs, intrList.nodes, win) && Stored(intrs, sc, upd)
      requires cur + 1 < |intrs| == |raw| && curr == intrs[cur] && nxt == intrs[cur + 1]
      requires currPoint == intrList.nodes[cur + 1] && intrCount == |intrs|
      requires Tracks(sc, upd, raw, win, cur)
      modifies this`currPoint, this`currInterval, this`cur, this`sc, this`upd, intrs`sc, intrs`updateVal
      ensures OnTrack() && cur == old(cur) + 1 && currInterval == nxt
      ensures SettledExactly(sc, raw, win, cur)
      ensures cur < |win| && HandedOver(old(sc), old(upd), sc, upd, old(cur), SettleEnd(win, cur))
    {
      hide LinksStored, Stored, Table, Tracks, Confined, Settled, Outflow, Sum, SettledExactly, IsWindow, Partition, Sc,
        LinkedRing.Valid, LinkedRing.Ring, HandedOver;
      TracksParts(sc, upd, raw, win, cur);
      ghost var c, sc0, upd0 := cur, sc, upd;
      currInterval, cur := nxt, c + 1;
      var rec := DeferredUpdate(nxt, c + 1);
      MoveKeeps(sc0, upd0, raw, win, c, sc, upd, rec);
      EndBehind(c + 1);
      SettledIsHandedOver(sc0, upd0, sc, upd, c, SettleEnd(win, c + 1), sc[c] - rec);
      SameTill(c, c + 1);
      if curr.lentTill == nxt.lentTill {
        TakeBack(curr, c, rec);
      }
    }

    /** A scheduling decision at `time`: charge what ran since the last one, then move on if due. */
    method UpdateIntr(time: int, running: Running) returns (ret: Option<int>)
      requires OnTrack() && Belongs(running) && 0 <= time && schedTime <= time
      modifies this`schedTime, this`timeDiff, this`raw, this`sc, this`upd
      modifies this`currPoint, this`currInterval, this`cur, intrs`sc, intrs`updateVal
      ensures OnTrack()
      ensures running == Job(null) ==>
        && ret == None && raw == old(raw) && sc == old(sc) && upd == old(upd)
        && cur == old(cur) && currInterval == old(currInterval) && schedTime == old(schedTime)
      ensures running != Job(null) ==>
        && ret == (if currInterval == null then None else Some(1))
        && schedTime == (if old(currInterval) == null then old(schedTime) else time)
        && |old(sc)| == |win| == |old(raw)| == |intrs|
        && raw == (if old(currInterval) == null || old(schedTime) < 0 then old(raw)
                   else Charged(old(raw), old(sc), win, old(cur), old(Serving(running)), time - old(schedTime)))
      ensures old(currInterval) == null ==> currInterval == null
      ensures running != Job(null) && old(currInterval) != null && time < old(currInterval).end ==>
        currInterval == old(currInterval) && cur == old(cur)
      ensures running != Job(null) && old(currInterval) != null && time >= old(currInterval).end ==>
        if old(cur) + 1 == |intrs| then currInterval == null
        else cur == old(cur) + 1 && currInterval == intrs[cur] && SettledExactly(sc, raw, win, cur)
      ensures running != Job(null) && old(currInterval) == null ==> sc == old(sc) && upd == old(upd)
      ensures running != Job(null) && old(currInterval) != null ==>
        if currInterval == null || time < old(currInterval.end) then
          StoredTo(old(sc), old(upd), win, old(cur), old(Serving(running)), old(schedTime), time, sc, upd)
        else
          StoredMoved(old(sc), old(upd), win, old(cur), old(Serving(running)), old(schedTime), time, sc, upd)
    {
      hide OnTrack, Table, SettledExactly, HandedOver, ChargedSc, ChargedUpd, Charged;
      ServingInTable(running);
      if running.Job? && running.intr == null {
        return None;
      }
      var r := UpdateSc(time, running);
      if r < 0 {
        return None;
      }
      var moved := CheckSetCurrInterval(time);
      if moved != Some(0) {
        return None;
      }
      return Some(1);
    }

    /** Time from the previous decision to the next one; 0 when there is none. */
    method NxtDecn() returns (timeout: int)
      requires OnTrack()
      modifies this`timeMovt
      ensures OnTrack()
      ensures currInterval == null ==> timeout == 0 && timeMovt == old(timeMovt)
      ensures currInterval != null && cur == 0 && old(timeMovt) ==> timeout == currInterval.end && !timeMovt
      ensures currInterval != null && !(cur == 0 && old(timeMovt)) ==>
        && timeMovt == old(timeMovt)
        && timeout == if cur + 1 == |intrs| then 0 else intrs[cur + 1].end - currInterval.end
    {
      hide Tracks, LinksStored, Stored;
      if currInterval == null {
        return 0;
      }
      NodeAt(cur);
      NodeAt(0);
      SameIntr(cur, 0);
      if currInterval == intrList.head.data && timeMovt {
        timeMovt := false;
        return currInterval.end;
      }
      var intr := intrList.GoNxt(currPoint);
      if intr == intrList.head {
        return 0;
      }
      NodeAt(cur + 1);
      return intr.data.end - currPoint.data.end;
    }

    // ---- building the table -----------------------------------------------------------------

    /** The table while it is being built: intervals in order, nothing said about windows. */
    ghost predicate Built()
      reads this, intrList, intrList.nodes, intrs, currPoint
    {
      Table(intrList, intrs, currPoint) && Stored(intrs, sc, upd) && intrCount == |intrs|
    }

    static lemma StoredSnoc(intrs: seq<IntrNode>, sc: seq<int>, upd: seq<int>, x: IntrNode)
      requires Stored(intrs, sc, upd)
      ensures Stored(intrs + [x], sc + [x.sc], upd + [x.updateVal])
    {
    }

    method AppendNode(x: IntrNode)
      requires Table(intrList, intrs, currPoint) && x.pos == |intrs|
      modifies this`intrs, intrList, intrList.nodes`nxt, intrList.nodes`prev
      ensures Table(intrList, intrs, currPoint) && intrs == old(intrs) + [x]
      ensures |intrList.nodes| == |intrs| && intrList.nodes[..|old(intrs)|] == old(intrList.nodes)
      ensures fresh(intrList.nodes[|old(intrs)|])
    {
      hide LinkedRing.Valid;
      var listNode := intrList.Append(x);
      intrs := intrs + [x];
    }

    method NewIntrAppend(id: int, start: int, end: int, cap: int) returns (ghost x: IntrNode)
      requires Built()
      modifies this`intrCount, this`intrs, this`sc, this`upd
      modifies intrList, intrList.nodes`nxt, intrList.nodes`prev
      ensures Built() && intrs == old(intrs) + [x] && fresh(x)
      ensures |intrList.nodes| == |intrs| && intrList.nodes[..|old(intrs)|] == old(intrList.nodes)
      ensures fresh(intrList.nodes[|old(intrs)|])
      ensures x.id == id && x.start == start && x.end == end
      ensures sc == old(sc) + [cap] && upd == old(upd) + [0]
    {
      hide Table, Stored;
      var node := new IntrNode(id, start, end, cap);
      node.pos := |intrs|;
      StoredSnoc(intrs, sc, upd, node);
      AppendNode(node);
      sc, upd := sc + [cap], upd + [0];
      intrCount := intrCount + 1;
      x := node;
    }

    /** Step the iterator onto interval i, from the one before it or, for the first, from nowhere. */
    method StepForward(ghost i: nat) returns (node: ListNode<IntrNode>)
      requires Table(intrList, intrs, currPoint) && i < |intrs|
      requires if i == 0 then currPoint == null else currPoint == intrList.nodes[i - 1]
      modifies this`currPoint
      ensures Table(intrList, intrs, currPoint)
      ensures node == currPoint == intrList.nodes[i] && node.data == intrs[i]
    {
      NodeAt(i);
      if i > 0 {
        NodeAt(i - 1);
      }
      var n := GotoNxtInterval();
      node := n;
    }

    /** An empty deferred-update record for interval i. */
    method ResetRecord(x: IntrNode, ghost i: nat)
      requires Built() && i < |intrs| && x == intrs[i]
      modifies this`upd, x`updateVal, x`lentTill, x`lender
      ensures Built() && upd == old(upd)[i := 0] && x.lentTill == null && x.lender == null
    {
      hide LinkedRing.Valid;
      x.updateVal, x.lentTill, x.lender := 0, null, null;
      upd := upd[i := 0];
    }

    /** Give every interval an empty deferred-update record. */
    method CreateDeferredIntrList()
      requires Built()
      modifies this`currPoint, this`upd, this`win, intrs`updateVal, intrs`lentTill, intrs`lender
      ensures Built() && LinksAre(intrs, intrList.nodes, win)
      ensures upd == seq(|intrs|, _ => 0) && win == seq(|intrs|, _ => NoLink)
    {
      hide LinkedRing.Valid, Stored;
      StoredSizes();
      var i := 0;
      currPoint := null;
      while i < intrCount
        invariant 0 <= i <= intrCount && Built() && |upd| == |intrs|
        invariant if i == 0 then currPoint == null else currPoint == intrList.nodes[i - 1]
        invariant forall j :: 0 <= j < i ==> upd[j] == 0
        invariant forall j :: 0 <= j < i ==> intrs[j].lentTill == null && intrs[j].lender == null
      {
        var listNode := StepForward(i);
        ResetRecord(listNode.data, i);
        i := i + 1;
      }
      StoredSizes();
      win := seq(|intrs|, _ => NoLink);
    }

    /** Walk back from interval t to its lender, pointing each interval at both ends of the window. */
    method MarkWindow(lentTill: ListNode<IntrNode>, lentNode: ListNode<IntrNode>, ghost l: nat, ghost t: nat)
      requires Built() && LinksAre(intrs, intrList.nodes, win) && IsWindow(sc, l, t) && t < |intrs|
      requires lentTill == intrList.nodes[t] && lentNode == intrList.nodes[l] && currPoint == lentTill
      modifies this`currPoint, this`win, intrs`lentTill, intrs`lender
      ensures Built() && LinksAre(intrs, intrList.nodes, win)
      ensures win == Painted(old(win), l, l, t)
    {
      hide LinkedRing.Valid, Stored, Painted, LinksAre, Table;
      ghost var i := t;
      NodeAt(t);
      PaintNone(win, t, l);
      var data := currPoint.data;
      while true
        invariant l <= i <= t && data == intrs[i] && currPoint == intrList.nodes[i]
        invariant Built() && LinksAre(intrs, intrList.nodes, win)
        invariant win == Painted(old(win), i + 1, l, t)
        decreases i
      {
        StoredAt(i);
        WindowsOfAll();
        PaintOne(old(win), i, l, t);
        MarkOne(data, lentTill, lentNode, i, l, t);
        if data.sc >= 0 {
          break;
        }
        data := StepBack(i);
        i := i - 1;
      }
    }

    method MarkOne(x: IntrNode, lentTill: ListNode<IntrNode>, lentNode: ListNode<IntrNode>,
                   ghost i: nat, ghost l: nat, ghost t: nat)
      requires Built() && LinksAre(intrs, intrList.nodes, win) && l <= i <= t < |intrs| && x == intrs[i]
      requires lentTill == intrList.nodes[t] && lentNode == intrList.nodes[l]
      modifies this`win, x`lentTill, x`lender
      ensures LinksAre(intrs, intrList.nodes, win) && i < |old(win)| && win == old(win)[i := Link(l, t)]
    {
      hide LinkedRing.Valid, Stored;
      x.lentTill := lentTill;
      x.lender := lentNode;
      win := win[i := Link(l, t)];
    }

    /** Find the end of the negative run behind the lender; i counts its intervals. */
    method FindLentTill(intrSeen: nat, lentNode: ListNode<IntrNode>) returns (i: nat, lentTill: ListNode<IntrNode>)
      requires Built() && 0 < intrSeen < |intrs| == |sc|
      requires currPoint == lentNode == intrList.nodes[intrSeen - 1]
      requires sc[intrSeen - 1] >= 0 && sc[intrSeen] < 0
      modifies this`currPoint
      ensures Built() && i > 0 && IsWindow(sc, intrSeen - 1, intrSeen + i - 1)
      ensures intrSeen + i <= |intrList.nodes| && lentTill == currPoint == intrList.nodes[intrSeen + i - 1]
    {
      hide LinkedRing.Valid, Stored, Table;
      StoredSizes();
      NodeAt(intrSeen - 1);
      i := 0;
      lentTill := lentNode;
      while i + intrSeen < intrCount
        invariant i + intrSeen <= |intrs| == |sc|
        invariant forall j :: intrSeen <= j < intrSeen + i ==> sc[j] < 0
        invariant lentTill == currPoint == intrList.nodes[intrSeen + i - 1] && Built()
      {
        StoredAt(intrSeen + i);
        var node := StepForward(intrSeen + i);
        var data := node.data;
        if data.sc >= 0 {
          break;
        }
        lentTill := node;
        i := i + 1;
      }
      if i + intrSeen < intrCount {
        var data := StepBack(intrSeen + i);
      }
    }

    /** Find the window of the lender and mark it; the result is the number of its borrowers. */
    method CreateRelation(intrSeen: nat, lentNode: ListNode<IntrNode>) returns (i: nat)
      requires Built() && LinksAre(intrs, intrList.nodes, win) && 0 < intrSeen < |intrs| == |sc|
      requires currPoint == lentNode == intrList.nodes[intrSeen - 1]
      requires sc[intrSeen - 1] >= 0 && sc[intrSeen] < 0
      modifies this`currPoint, this`win, intrs`lentTill, intrs`lender
      ensures Built() && LinksAre(intrs, intrList.nodes, win)
      ensures i > 0 && IsWindow(sc, intrSeen - 1, intrSeen + i - 1)
      ensures win == Painted(old(win), intrSeen - 1, intrSeen - 1, intrSeen + i - 1)
      ensures intrSeen + i <= |intrList.nodes| && currPoint == intrList.nodes[intrSeen + i - 1]
    {
      hide LinkedRing.Valid, Painted, Stored, LinksAre, Table, IsWindow;
      var lentTill;
      i, lentTill := FindLentTill(intrSeen, lentNode);
      WindowInTable(intrSeen - 1, intrSeen + i - 1);
      MarkWindow(lentTill, lentNode, intrSeen - 1, intrSeen + i - 1);
      NodeAt(intrSeen + i - 1);
      SetIterator(lentTill);
    }

    lemma WindowInTable(l: nat, t: nat)
      requires Stored(intrs, sc, upd) && IsWindow(sc, l, t)
      ensures t < |intrs|
    {
    }

    /** Find and mark all relation windows; fails when the first interval is already in debt. */
    method CreateIntervalRelation() returns (ret: int)
      requires Built() && LinksAre(intrs, intrList.nodes, win) && |intrs| > 0
      requires WindowsUpTo(sc, win, 0)
      modifies this`currPoint, this`win, intrs`lentTill, intrs`lender
      ensures Built() && LinksAre(intrs, intrList.nodes, win) && |sc| == |intrs|
      ensures ret == if sc[0] < 0 then -1 else 0
      ensures ret == 0 ==> WindowsUpTo(sc, win, |intrs|)
    {
      hide LinkedRing.Valid, Painted, LinksAre, Stored, WindowsUpTo, IsWindow, Table;
      StoredSizes();
      NodeAt(0);
      ResetIterator();
      var i := 0;
      while i < intrCount
        invariant 0 <= i <= |intrs| == |sc| == |intrList.nodes| && Built() && LinksAre(intrs, intrList.nodes, win)
        invariant WindowsUpTo(sc, win, i)
        invariant if i == 0 then currPoint == null else currPoint == intrList.nodes[i - 1]
        invariant i > 0 ==> sc[0] >= 0 && (i < |intrs| ==> sc[i] >= 0)
      {
        StoredAt(i);
        var node := StepForward(i);
        var data := node.data;
        i := i + 1;
        if data.sc < 0 {
          return -1;
        }
        var last;
        i, last := LookAhead(i, node);
        if last {
          return 0;
        }
      }
      return 0;
    }

    /** Look at the interval behind the non-negative `node`: none, out of debt, or the start of a run. */
    method LookAhead(seen: nat, node: ListNode<IntrNode>) returns (seen': nat, last: bool)
      requires Built() && LinksAre(intrs, intrList.nodes, win) && 0 < seen <= |intrs| == |sc|
      requires WindowsUpTo(sc, win, seen - 1) && sc[seen - 1] >= 0
      requires |intrList.nodes| == |intrs| && node == currPoint == intrList.nodes[seen - 1]
      modifies this`currPoint, this`win, intrs`lentTill, intrs`lender
      ensures Built() && LinksAre(intrs, intrList.nodes, win)
      ensures seen <= seen' <= |intrs| == |intrList.nodes| && WindowsUpTo(sc, win, seen')
      ensures last ==> seen' == |intrs|
      ensures !last ==> currPoint == intrList.nodes[seen' - 1] && (seen' < |intrs| ==> sc[seen'] >= 0)
    {
      hide LinkedRing.Valid, Painted, LinksAre, Stored, WindowsUpTo, IsWindow, Table;
      seen', last := seen, false;
      NodeAt(seen - 1);
      if seen < |intrs| {
        NodeAt(seen);
        StoredAt(seen);
      }
      var node1 := GotoNxtInterval();
      if node1 == null {
        WindowSkipped(sc, win, seen - 1);
        last := true;
      } else if node1.data.sc < 0 {
        seen' := MarkBehind(seen, node);
      } else {
        node1 := GotoPrevInterval();
        WindowSkipped(sc, win, seen - 1);
      }
    }

    /** The interval behind `node` is in debt: step back and mark the window `node` lends in. */
    method MarkBehind(seen: nat, node: ListNode<IntrNode>) returns (seen': nat)
      requires Built() && LinksAre(intrs, intrList.nodes, win) && 0 < seen < |intrs| == |sc|
      requires WindowsUpTo(sc, win, seen - 1) && sc[seen - 1] >= 0 && sc[seen] < 0
      requires node == intrList.nodes[seen - 1] && currPoint == intrList.nodes[seen]
      modifies this`currPoint, this`win, intrs`lentTill, intrs`lender
      ensures Built() && LinksAre(intrs, intrList.nodes, win)
      ensures seen < seen' <= |intrs| == |intrList.nodes| && WindowsUpTo(sc, win, seen')
      ensures currPoint == intrList.nodes[seen' - 1]
      ensures seen' < |intrs| ==> sc[seen'] >= 0
    {
      hide LinkedRing.Valid, Painted, LinksAre, Stored, WindowsUpTo;
      ghost var was := win;
      NodeAt(seen);
      NodeAt(seen - 1);
      var node1 := GotoPrevInterval();
      var borrowers := CreateRelation(seen, node);
      seen' := seen + borrowers;
      WindowAdded(sc, was, seen - 1, seen' - 1);
    }

    /** From a finished list of intervals to a table ready to run, with the first interval current. */
    method CreateRelationWindow() returns (ok: bool)
      requires Built() && |intrs| > 0
      modifies this`currPoint, this`currInterval, this`cur, this`win, this`upd, this`raw
      modifies intrs`updateVal, intrs`lentTill, intrs`lender
      ensures |sc| == |intrs| && (ok <==> sc[0] >= 0)
      ensures ok ==>
        && OnTrack() && cur == 0 && currInterval == intrs[0]
        && ExactWindows(sc, win) && raw == RawOf(sc)
        && upd == seq(|intrs|, _ => 0)
    {
      hide LinkedRing.Valid, LinksAre, Tracks, ExactWindows, Stored, Partition, OnTrack, Table;
      CreateDeferredIntrList();
      StoredSizes();
      EmptyWindows(sc, win);
      var r := CreateIntervalRelation();
      if r < 0 {
        return false;
      }
      AllWindows(sc, win);
      SetFirst();
      return true;
    }

    /** Make the first interval the current one. */
    method SetFirst()
      requires Built() && |intrs| > 0 && LinksAre(intrs, intrList.nodes, win)
      requires ExactWindows(sc, win) && upd == seq(|intrs|, _ => 0)
      modifies this`currPoint, this`currInterval, this`cur, this`raw
      ensures OnTrack() && cur == 0 && currInterval == intrs[0] && raw == RawOf(sc)
    {
      hide LinkedRing.Valid, LinksAre, Tracks, ExactWindows, Stored, Partition;
      StoredSizes();
      InitiallyOnTrack(sc, upd, win);
      ExactWindowsPartition(sc, win);
      NodeAt(0);
      ResetIterator();
      var currIntr := StepForward(0);
      currInterval := currIntr.data;
      currPoint := currIntr;
      cur, raw := 0, RawOf(sc);
    }

    // ---- the original per-slot update -------------------------------------------------------

    /** The state the per-slot update works on; no windows, no deferred amounts. */
    ghost predicate PerSlot()
      reads this, intrList, intrList.nodes, intrs, currPoint
    {
      && Built() && |raw| == |intrs|
      && cur < |intrs| && currInterval == intrs[cur]
      && (forall i, j {:trigger intrs[i].id, intrs[j].id} :: 0 <= i < j < |intrs| ==> intrs[i].id != intrs[j].id)
    }

    /** One slot passes. A guaranteed job's interval and those before it are raised one by one. For a
        job whose interval is over the walk may run off the head, which ends the update with an error. */
    method UpdateScPerSlot(running: Running, soft: bool) returns (ok: bool)
      requires PerSlot() && Belongs(running) && running != Job(null)
      modifies this`sc, this`raw, intrs`sc
      ensures PerSlot() && |sc| == |old(sc)| == |intrs|
      ensures var sc0 := old(sc)[cur := old(sc[cur]) - 1];
        if running.Idle? || soft then sc == sc0 && ok
        else
          && (ok <==> WalkEnd(sc0, cur, running.intr.pos) >= 0)
          && sc == Raised(sc0, Max0(WalkEnd(sc0, cur, running.intr.pos)), running.intr.pos)
      ensures |old(raw)| == |intrs|
      ensures raw == Advanced(old(raw), cur, if soft then None else Serving(running), 1)
      ensures Conservative(old(sc), old(raw), cur) ==> Conservative(sc, raw, cur)
    {
      hide LinkedRing.Valid, Conservative, Raised, WalkEnd, Stored, Table;
      ghost var before, truth := sc, raw;
      StoredAt(cur);
      LowerCurrent();
      if Conservative(before, truth, cur) {
        EagerIdleKeeps(before, truth, cur);
      }
      ok := true;
      if running.Job? && !soft {
        ok := RaiseBack(running.intr, running.intr.pos);
        if Conservative(before, truth, cur) {
          EagerKeeps(before, truth, cur, running.intr.pos);
        }
      }
      Progress(if soft then None else Serving(running));
    }

    /** The base class's decision. Its update of the capacities returns no value, and no value counts as
        less than 0, so the decision always ends before the move to the next interval. */
    method UpdateIntrPerSlot(running: Running, soft: bool) returns (ok: bool, ret: Option<int>)
      requires PerSlot() && Belongs(running)
      modifies this`sc, this`raw, intrs`sc
      ensures PerSlot() && ret == None
      ensures running == Job(null) ==> ok && sc == old(sc) && raw == old(raw)
      ensures ok || (running.Job? && running.intr != null && !soft && running.intr.pos < cur)
      ensures |old(raw)| == |old(sc)| == |sc| == |intrs|
      ensures running != Job(null) ==> raw == Advanced(old(raw), cur, if soft then None else Serving(running), 1)
      ensures running != Job(null) ==> var sc0 := old(sc)[cur := old(sc[cur]) - 1];
        if running.Idle? || soft then sc == sc0
        else sc == Raised(sc0, Max0(WalkEnd(sc0, cur, running.intr.pos)), running.intr.pos)
      ensures Conservative(old(sc), old(raw), cur) ==> Conservative(sc, raw, cur)
    {
      hide PerSlot, Conservative, Advanced, Raised, WalkEnd;
      PerSlotSizes();
      if running.Job? && running.intr == null {
        return true, None;
      }
      ok := UpdateScPerSlot(running, soft);
      return ok, None;
    }

    lemma PerSlotSizes()
      requires PerSlot()
      ensures cur < |raw| == |sc| == |intrs|
    {
    }

    /** The truth moves on by one slot. */
    ghost method Progress(k: Option<nat>)
      requires PerSlot() && (k.Some? ==> k.value < |raw|)
      modifies this`raw
      ensures PerSlot() && |old(raw)| == |intrs| && raw == Advanced(old(raw), cur, k, 1)
    {
      hide Table, Stored, Advanced;
      raw := Advanced(raw, cur, k, 1);
    }

    /** Past its end, an interval hands over to the next one. */
    method CheckSetPerSlot(time: int) returns (ret: Option<int>)
      requires PerSlot() && currPoint == intrList.nodes[cur]
      modifies this`currPoint, this`currInterval, this`cur
      ensures ret == if currInterval == null then None else Some(0)
      ensures time <= old(currInterval.end) ==>
        currInterval == old(currInterval) && cur == old(cur) && currPoint == old(currPoint) && PerSlot()
      ensures time > old(currInterval.end) ==>
        if old(cur) + 1 == |intrs| then currInterval == null
        else cur == old(cur) + 1 && PerSlot() && currPoint == intrList.nodes[cur]
      ensures currInterval != null && Conservative(sc, raw, old(cur)) ==> Conservative(sc, raw, cur)
    {
      hide LinkedRing.Valid, Stored;
      if time > currInterval.end {
        NodeAt(cur);
        var nxt := GotoNxtInterval();
        if nxt == null {
          currInterval := null;
          return None;
        }
        NodeAt(cur + 1);
        currInterval, cur := nxt.data, cur + 1;
      }
      return Some(0);
    }

    method LowerCurrent()
      requires PerSlot()
      modifies this`sc, currInterval`sc
      ensures PerSlot() && |old(sc)| == |intrs| && sc == old(sc)[cur := old(sc[cur]) - 1]
    {
      hide LinkedRing.Valid;
      currInterval.sc := currInterval.sc - 1;
      sc := sc[cur := sc[cur] - 1];
    }

    /** The backward walk from the job's interval k; fails when it runs off the head. */
    method RaiseBack(tskIntr: ListNode<IntrNode>, ghost k: nat) returns (ok: bool)
      requires PerSlot() && intrList.Has(tskIntr) && tskIntr.pos == k
      modifies this`sc, intrs`sc
      ensures PerSlot() && cur < |old(sc)| && k < |old(sc)|
      ensures ok <==> WalkEnd(old(sc), cur, k) >= 0
      ensures sc == Raised(old(sc), Max0(WalkEnd(old(sc), cur, k)), k)
    {
      hide PerSlot, Built, Table, Stored, Raised, WalkEnd, LinkedRing.Valid, LinkedRing.Ring;
      PerSlotParts();
      NodeInTable(tskIntr);
      var tmp := tskIntr;
      ghost var i := k;
      RaisedNone(sc, k);
      while true
        invariant 0 <= i <= k < |intrs| == |intrList.nodes| && PerSlot() && |sc| == |intrs| && tmp == intrList.nodes[i]
        invariant cur < |old(sc)| && |old(sc)| == |intrs|
        invariant sc == Raised(old(sc), i + 1, k)
        invariant WalkEnd(old(sc), cur, k) == WalkEnd(old(sc), cur, i)
        decreases i
      {
        PerSlotParts();
        NodeAt(i);
        RaisedOne(old(sc), i, k);
        WalkOne(old(sc), cur, i);
        var intr := tmp.data;
        RaiseOne(intr, i);
        IdTellsCurrent(i);
        if intr.id == currInterval.id {
          return true;
        }
        if intr.sc >= 0 {
          return true;
        }
        var prev := Before(tmp, i);
        if prev == null {
          return false;
        }
        tmp := prev;
        i := i - 1;
      }
    }

    method Before(node: ListNode<IntrNode>, ghost i: nat) returns (prev: ListNode?<IntrNode>)
      requires PerSlot() && i < |intrs| == |intrList.nodes| && node == intrList.nodes[i]
      ensures prev == if i == 0 then null else intrList.nodes[i - 1]
    {
      hide LinkedRing.Valid, Stored;
      NodeAt(i);
      prev := intrList.GoPrev(node);
    }

    lemma PerSlotParts()
      requires PerSlot()
      ensures Table(intrList, intrs, currPoint) && cur < |intrs| == |intrList.nodes| == |sc|
    {
    }

    lemma NodeInTable(node: ListNode<IntrNode>)
      requires Table(intrList, intrs, currPoint) && intrList.Has(node)
      ensures |intrs| == |intrList.nodes| && node == intrList.nodes[node.pos]
    {
    }

    lemma IdTellsCurrent(i: nat)
      requires PerSlot() && i < |intrs|
      ensures currInterval != null && (intrs[i].id == currInterval.id <==> i == cur)
    {
      hide LinkedRing.Valid, Stored;
    }

    method RaiseOne(x: IntrNode, ghost i: nat)
      requires PerSlot() && i < |intrs| && x == intrs[i]
      modifies this`sc, x`sc
      ensures PerSlot() && |old(sc)| == |intrs| && sc == old(sc)[i := old(sc[i]) + 1] && x.sc == sc[i]
    {
      hide LinkedRing.Valid;
      x.sc := x.sc + 1;
      sc := sc[i := sc[i] + 1];
    }

    // ---- reserving capacity for an admitted task --------------------------------------------

    /** Take wcet units from the interval under the iterator and, as far as needed, from those
        before it. Fails when the walk runs off the head with work left to place. */
    method ReserveCapacity(wcet: nat) returns (ok: bool)
      requires Built() && currPoint != null
      modifies this`currPoint, this`sc, intrs`sc
      ensures Built() && old(currPoint).pos < |old(sc)|
      ensures sc == Reserved(old(sc), old(currPoint).pos, wcet)
      ensures ok <==> Rest(old(sc), 0, old(currPoint).pos, wcet) == 0
    {
      hide LinkedRing.Valid, Stored, Reserved, Rest, Table, ReservedFrom;
      ghost var k, i, sc0 := currPoint.pos, currPoint.pos as int, sc;
      PointInRange();
      StoredSizes();
      var delta := wcet;
      var intrIterator: IntrNode? := currPoint.data;
      ReservedNone(sc, k, wcet);
      while delta != 0
        invariant -1 <= i <= k < |intrs| == |intrList.nodes| == |sc| == |sc0|
        invariant Built() && currPoint != null
        invariant if i >= 0 then currPoint == intrList.nodes[i] && intrIterator == intrs[i] else intrIterator == null
        invariant delta == Rest(sc0, i + 1, k, wcet) && sc == ReservedFrom(sc0, i + 1, k, wcet)
        decreases i
      {
        if intrIterator == null {
          NothingUnreserved(sc0, k, wcet);
          return false;
        }
        delta, intrIterator := ReserveStep(intrIterator, delta, sc0, i, k, wcet);
        i := i - 1;
      }
      ReservedRest(sc0, k, wcet, i + 1);
      return true;
    }

    /** One step of the walk: interval i pays, and the iterator goes to the one before it. */
    method ReserveStep(intrIterator: IntrNode, delta: nat, ghost sc0: seq<int>, ghost i: nat, ghost k: nat, ghost wcet: nat)
        returns (rest: nat, next: IntrNode?)
      requires Built() && i <= k < |intrs| == |intrList.nodes| == |sc0|
      requires currPoint == intrList.nodes[i] && intrIterator == intrs[i]
      requires delta == Rest(sc0, i + 1, k, wcet) && sc == ReservedFrom(sc0, i + 1, k, wcet)
      modifies this`currPoint, this`sc, intrIterator`sc
      ensures Built() && currPoint != null && |sc| == |sc0|
      ensures if i > 0 then currPoint == intrList.nodes[i - 1] && next == intrs[i - 1] else next == null
      ensures rest == Rest(sc0, i, k, wcet) && sc == ReservedFrom(sc0, i, k, wcet)
    {
      hide LinkedRing.Valid, Stored, Reserved, Rest, Table, ReservedFrom;
      StoredAt(i);
      ReservedOne(sc0, k, wcet, i);
      rest := TakeFrom(intrIterator, i, delta);
      NodeAt(i);
      if i > 0 {
        NodeAt(i - 1);
      }
      var prev := GotoPrevInterval();
      next := if prev == null then null else prev.data;
    }

    lemma PointInRange()
      requires Table(intrList, intrs, currPoint) && currPoint != null
      ensures currPoint.pos < |intrs| == |intrList.nodes| && currPoint == intrList.nodes[currPoint.pos]
      ensures currPoint.data == intrs[currPoint.pos]
    {
    }

    /** One interval pays what it has; below zero it only hands the demand on. */
    method TakeFrom(x: IntrNode, ghost i: nat, delta: nat) returns (rest: nat)
      requires Table(intrList, intrs, currPoint) && Stored(intrs, sc, upd) && i < |intrs| && x == intrs[i]
      modifies this`sc, x`sc
      ensures Stored(intrs, sc, upd) && i < |old(sc)| && sc == old(sc)[i := old(sc[i]) - delta]
      ensures rest == Max0(delta - Max0(old(sc[i])))
    {
      hide LinkedRing.Valid;
      rest := delta;
      if x.sc > 0 {
        if x.sc >= delta {
          x.sc := x.sc - delta;
          rest := 0;
        } else {
          rest := delta - x.sc;
          x.sc := 0 - rest;
        }
      } else {
        x.sc := x.sc - delta;
      }
      sc := sc[i := x.sc];
    }
  }
}
