// The decision timer: it is armed relative to its own last expiry, yet fires at interval ends.

module Chronos {
  import opened Wrappers
  import opened Deferral
  import opened IntervalTable

  class Timer {
    const table: Interval
    var delay: int                 // how long the timer was last armed for; 0 when it was not
    ghost var expiry: Option<int>  // the instant the armed timer fires
    ghost var fired: seq<int>      // the instants it fired at so far

    /** The intervals do not end at the same instant, nor at time 0. */
    static ghost predicate EndsIncrease(intrs: seq<IntrNode>)
      reads intrs`end
    {
      && (|intrs| > 0 ==> intrs[0].end > 0)
      && forall i, j {:trigger intrs[i].end, intrs[j].end} :: 0 <= i < j < |intrs| ==> intrs[i].end < intrs[j].end
    }

    /** The timer fired exactly at the first m interval ends, in order. */
    static ghost predicate FiredAtEnds(intrs: seq<IntrNode>, fired: seq<int>, m: nat)
      reads intrs`end
    {
      m == |fired| <= |intrs| && forall i :: 0 <= i < m ==> fired[i] == intrs[i].end
    }

    /** While interval cur is current the timer is set to fire at its end. */
    ghost predicate Synced()
      reads this, table, table.intrList, table.intrList.nodes, table.intrs, table.currPoint
    {
      && table.OnTrack() && table.currInterval != null && !table.timeMovt
      && table.cur < |table.intrs|
      && FiredAtEnds(table.intrs, fired, table.cur)
      && expiry == Some(table.intrs[table.cur].end)
    }

    /** Created at the first activation, at time 0, the timer arms itself. */
    constructor (table: Interval)
      requires table.OnTrack() && table.currInterval != null && table.cur == 0 && table.timeMovt
      requires EndsIncrease(table.intrs)
      modifies table`timeMovt
      ensures this.table == table && Synced() && fired == [] && delay == expiry.value
    {
      this.table := table;
      fired, expiry := [], None;
      new;
      Start();
    }

    /** The first decision. */
    method Start()
      requires table.OnTrack() && table.currInterval != null && table.cur == 0 && table.timeMovt
      requires EndsIncrease(table.intrs) && fired == []
      modifies this`delay, this`expiry, table`timeMovt
      ensures Synced() && delay == expiry.value
    {
      hide Interval.OnTrack;
      StartsFirst();
      delay := table.NxtDecn();
      if delay != 0 {
        expiry := Some(delay);
      }
    }

    lemma StartsFirst()
      requires table.OnTrack() && table.currInterval != null && table.cur == 0 && EndsIncrease(table.intrs)
      ensures |table.intrs| > 0 && table.currInterval == table.intrs[0] && table.currInterval.end > 0
    {
    }

    /** The timer fires at `now`: it re-arms for the next decision, then the table is brought up to
        date. Without a next decision it stops and nothing more is scheduled by it. When the task of the
        running job has no interval left, the update is refused: the table stays where it is, and from
        then on the timer runs ahead of it. */
    method Expire(now: int, running: Running)
      requires Synced() && EndsIncrease(table.intrs) && expiry == Some(now)
      requires table.Belongs(running) && table.schedTime <= now
      modifies this`delay, this`expiry, this`fired, table`timeMovt
      modifies table`schedTime, table`timeDiff, table`raw, table`sc, table`upd
      modifies table`currPoint, table`currInterval, table`cur, table.intrs`sc, table.intrs`updateVal
      ensures fired == old(fired) + [now]
      ensures delay == if expiry.None? then 0 else expiry.value - now
      ensures FiredAtEnds(table.intrs, fired, old(table.cur) + 1)
      ensures old(table.cur) + 1 < |table.intrs| ==>
        expiry == Some(table.intrs[old(table.cur) + 1].end) && (Synced() <==> running != Job(null))
      ensures old(table.cur) + 1 < |table.intrs| && running != Job(null) ==>
        && table.cur == old(table.cur) + 1 && table.schedTime == now
        && ChargedTo(old(table.raw), old(table.sc), table.win, old(table.cur),
                     old(table.Serving(running)), old(table.schedTime), now, table.raw)
        && StoredMoved(old(table.sc), old(table.upd), table.win, old(table.cur),
                       old(table.Serving(running)), old(table.schedTime), now, table.sc, table.upd)
        && SettledExactly(table.sc, table.raw, table.win, table.cur)
      ensures old(table.cur) + 1 == |table.intrs| || running == Job(null) ==>
        && table.OnTrack() && table.cur == old(table.cur) && table.currInterval != null
        && table.raw == old(table.raw) && table.sc == old(table.sc) && table.upd == old(table.upd)
        && table.schedTime == old(table.schedTime)
      ensures old(table.cur) + 1 == |table.intrs| ==> expiry == None
    {
      hide Interval.OnTrack, FiredAtEnds, EndsIncrease, Interval.Serving, Interval.Belongs, ChargedTo, StoredMoved,
        SettledExactly;
      CurrentEnd();
      FiredNext(table.intrs, fired, table.cur);
      EndsApart(table.intrs, table.cur);
      delay := table.NxtDecn();
      fired, expiry := fired + [now], None;
      FiredCount(table.intrs, fired, table.cur + 1);
      if delay != 0 {
        expiry := Some(now + delay);
        assert table.Serving(running) == old(table.Serving(running));
        Reschedule(now, running);
      }
    }

    static lemma FiredCount(intrs: seq<IntrNode>, fired: seq<int>, m: nat)
      requires FiredAtEnds(intrs, fired, m)
      ensures |fired| == m && forall c :: FiredAtEnds(intrs, fired, c) ==> c == m
    {
    }

    /** The scheduler's update at the end of the current interval. */
    method Reschedule(now: int, running: Running)
      requires table.OnTrack() && table.currInterval != null && table.cur + 1 < |table.intrs|
      requires now == table.currInterval.end && 0 <= now && table.schedTime <= now
      requires table.Belongs(running)
      modifies table`schedTime, table`timeDiff, table`raw, table`sc, table`upd
      modifies table`currPoint, table`currInterval, table`cur, table.intrs`sc, table.intrs`updateVal
      ensures table.OnTrack() && table.currInterval != null
      ensures running == Job(null) ==>
        && table.cur == old(table.cur) && table.currInterval == old(table.currInterval)
        && table.raw == old(table.raw) && table.sc == old(table.sc) && table.upd == old(table.upd)
        && table.schedTime == old(table.schedTime)
      ensures running != Job(null) ==>
        && StoredMoved(old(table.sc), old(table.upd), table.win, old(table.cur),
                       old(table.Serving(running)), old(table.schedTime), now, table.sc, table.upd)
        && table.cur == old(table.cur) + 1 < |table.intrs| && table.currInterval == table.intrs[table.cur]
        && table.schedTime == now && SettledExactly(table.sc, table.raw, table.win, table.cur)
        && ChargedTo(old(table.raw), old(table.sc), table.win, old(table.cur),
                     old(table.Serving(running)), old(table.schedTime), now, table.raw)
    {
      hide Interval.OnTrack, SettledExactly, Charged, StoredMoved;
      table.ServingInTable(running);
      var r := table.UpdateIntr(now, running);
    }

    /** Any decision before the armed instant leaves the timer and the current interval alone. */
    method Between(now: int, running: Running)
      requires Synced() && EndsIncrease(table.intrs) && 0 <= now < expiry.value
      requires table.Belongs(running) && table.schedTime <= now
      modifies table`schedTime, table`timeDiff, table`raw, table`sc, table`upd
      modifies table`currPoint, table`currInterval, table`cur, table.intrs`sc, table.intrs`updateVal
      ensures Synced() && table.cur == old(table.cur) && fired == old(fired) && expiry == old(expiry)
      ensures running == Job(null) ==>
        && table.raw == old(table.raw) && table.sc == old(table.sc) && table.upd == old(table.upd)
        && table.schedTime == old(table.schedTime)
      ensures running != Job(null) ==>
        && table.schedTime == now && ChargedTo(old(table.raw), old(table.sc), table.win, old(table.cur),
                                               old(table.Serving(running)), old(table.schedTime), now, table.raw)
        && StoredTo(old(table.sc), old(table.upd), table.win, old(table.cur),
                    old(table.Serving(running)), old(table.schedTime), now, table.sc, table.upd)
    {
      hide Interval.Table, Interval.LinksStored, Interval.Stored, Interval.OnTrack, Charged, StoredTo;
      CurrentEnd();
      table.ServingInTable(running);
      var r := table.UpdateIntr(now, running);
    }

    static lemma FiredNext(intrs: seq<IntrNode>, fired: seq<int>, m: nat)
      requires FiredAtEnds(intrs, fired, m) && m < |intrs|
      ensures FiredAtEnds(intrs, fired + [intrs[m].end], m + 1)
    {
    }

    static lemma EndsApart(intrs: seq<IntrNode>, i: nat)
      requires EndsIncrease(intrs)
      ensures i + 1 < |intrs| ==> intrs[i].end < intrs[i + 1].end
    {
    }

    lemma CurrentEnd()
      requires Synced() && EndsIncrease(table.intrs)
      ensures table.currInterval == table.intrs[table.cur] && 0 < table.currInterval.end
    {
      assert table.cur > 0 ==> table.intrs[0].end < table.intrs[table.cur].end;
    }
  }
}
