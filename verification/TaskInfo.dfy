// What the scheduler keeps per task: its type and state, and the cursor over its intervals.

module TaskInfo {
  import opened LocalList
  import opened IntervalTable

  datatype TskType = Periodic | FirmAperiodic | SoftAperiodic | FirmAperiodicG

  /** The interval of one job of a task. */
  datatype TaskIntrNode = TaskIntrNode(jNo: nat, interval: ListNode<IntrNode>, intrId: int)

  class TaskData {
    const tskType: TskType
    var state: int                    // -1 while no job of the task is live
    var currIndex: nat
    const intrList: seq<TaskIntrNode>
    const intrCount: nat
    ghost var activated: nat          // job activations so far

    constructor (intrList: seq<TaskIntrNode>, length: nat, tskType: TskType)
      ensures this.intrList == intrList && intrCount == length && this.tskType == tskType
      ensures state == -1 && currIndex == 0 && activated == 0
    {
      this.intrList, this.intrCount, this.tskType := intrList, length, tskType;
      state, currIndex, activated := -1, 0, 0;
    }

    /** The list names the intervals of jobs 1, 2, ... in this order. */
    ghost predicate InOrder() {
      intrCount == |intrList| && forall i :: 0 <= i < |intrList| ==> intrList[i].jNo == i + 1
    }

    /** The cursor stands at the last activated job, or behind the list once that ran out. */
    ghost predicate AtLastJob()
      reads this
    {
      InOrder() && currIndex == if activated == 0 then 0
                                else if activated <= intrCount then activated - 1 else intrCount
    }

    /** The interval of the current job, if there still is one. */
    function CurrIntr(): (r: ListNode?<IntrNode>)
      requires intrCount <= |intrList|
      reads this
      ensures r == null <==> currIndex >= intrCount
    {
      if currIndex >= intrCount then null else intrList[currIndex].interval
    }

    /** Called at each activation with the number of the job. */
    method SetCurrentJob(jNo: nat) returns (ret: int)
      requires intrCount <= |intrList|
      modifies this`currIndex, this`activated
      ensures currIndex == old(currIndex)
        + if old(currIndex) < intrCount && intrList[old(currIndex)].jNo < jNo then 1 else 0
      ensures ret < 0 <==> old(currIndex) < intrCount && intrList[old(currIndex)].jNo > jNo
      ensures ret == 1 ==> currIndex < intrCount && CurrIntr() != null
      ensures ret >= 0 ==> (ret == 0 <==> CurrIntr() == null) && (ret == 0 || ret == 1)
      ensures activated == jNo
      ensures old(AtLastJob()) && jNo == old(activated) + 1 ==>
        AtLastJob() && ret == if jNo <= intrCount then 1 else 0
      ensures old(AtLastJob()) && jNo == old(activated) + 1 <= intrCount ==>
        CurrIntr() == intrList[jNo - 1].interval
    {
      activated := jNo;
      if currIndex >= intrCount {
        return 0;
      }
      var l := intrList[currIndex];
      if l.jNo > jNo {
        return -1;
      } else if l.jNo == jNo {
        return 1;
      } else {
        currIndex := currIndex + 1;
        if currIndex >= intrCount {
          return 0;
        }
      }
      return 1;
    }
  }

  ghost predicate KnowsId(table: Interval, intrId: int)
    reads table, table.intrs
  {
    exists k :: 0 <= k < |table.intrs| && table.intrs[k].id == intrId
  }

  /** The list node of the first interval with the given id, searched from the head. */
  method GetIntrFrmId(table: Interval, intrId: int) returns (node: ListNode?<IntrNode>)
    requires table.Built()
    ensures node != null <==> KnowsId(table, intrId)
    ensures node != null ==> table.intrList.Has(node) && node.data.id == intrId
    ensures node != null ==> node.pos < |table.intrs| && forall k :: 0 <= k < node.pos ==> table.intrs[k].id != intrId
  {
    hide Interval.Stored, LinkedRing.Valid;
    if table.intrCount > 0 {
      table.HeadFirst();
    }
    var i := table.intrList.GoNxt(null);
    var currCnt := 0;
    while currCnt < table.intrCount
      invariant 0 <= currCnt <= table.intrCount
      invariant currCnt < table.intrCount ==> i == table.intrList.nodes[currCnt]
      invariant forall k :: 0 <= k < currCnt ==> table.intrs[k].id != intrId
    {
      table.NodeAt(currCnt);
      var data := i.data;
      if data.id == intrId {
        return i;
      }
      i := table.intrList.GoNxt(i);
      currCnt := currCnt + 1;
    }
    return null;
  }

  /** The nodes number the jobs of a task from 1 and name the interval with the id given for each. */
  ghost predicate Resolved(table: Interval, nodes: seq<TaskIntrNode>, intrIds: seq<int>)
    reads table, table.intrList, table.intrList.nodes
    reads set n | n in nodes :: n.interval, set n | n in nodes :: n.interval.data
  {
    |nodes| == |intrIds| && forall j :: 0 <= j < |nodes| ==>
      && nodes[j].jNo == j + 1 && nodes[j].intrId == intrIds[j]
      && table.intrList.Has(nodes[j].interval) && nodes[j].interval.data.id == intrIds[j]
  }

  /** Resolve the interval ids of a task, numbering its jobs from 1; fails on an unknown id. */
  method TaskIntrAsco(table: Interval, intrIds: seq<int>) returns (ok: bool, nodes: seq<TaskIntrNode>)
    requires table.Built()
    ensures ok <==> forall j :: 0 <= j < |intrIds| ==> KnowsId(table, intrIds[j])
    ensures ok ==> Resolved(table, nodes, intrIds)
  {
    hide Interval.Built, KnowsId;
    nodes := [];
    for j := 0 to |intrIds|
      invariant |nodes| == j
      invariant forall m :: 0 <= m < j ==> KnowsId(table, intrIds[m])
      invariant forall m :: 0 <= m < j ==>
        && nodes[m].jNo == m + 1 && nodes[m].intrId == intrIds[m]
        && table.intrList.Has(nodes[m].interval) && nodes[m].interval.data.id == intrIds[m]
    {
      var node := GetIntrFrmId(table, intrIds[j]);
      if node == null {
        return false, nodes;
      }
      nodes := nodes + [TaskIntrNode(j + 1, node, intrIds[j])];
    }
    return true, nodes;
  }
}
