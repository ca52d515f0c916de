// The plain bookkeeping that the interval tables are held against: no capacity is stored in it.

module PlainState {

  /** Current interval, whether the table is used up, last decision, raw capacities. */
  datatype Truth = Truth(cur: nat, over: bool, sched: int, raw: seq<int>)

  predicate Fits(ends: seq<int>, t: Truth) {
    t.cur < |ends| == |t.raw|
  }

  /** The current interval hands over to the next one, or the table is used up. */
  function Moved(ends: seq<int>, t: Truth): (r: Truth)
    requires Fits(ends, t)
    ensures Fits(ends, r)
  {
    if t.cur + 1 == |ends| then t.(over := true) else t.(cur := t.cur + 1)
  }
}
