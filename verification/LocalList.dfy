// The circular doubly linked list that carries the intervals.

module LocalList {

  function Reversed<X>(s: seq<X>): (r: seq<X>)
    ensures |r| == |s|
    ensures forall i :: 0 <= i < |s| ==> r[i] == s[|s| - 1 - i]
  {
    if s == [] then [] else Reversed(s[1..]) + [s[0]]
  }

  lemma ReversedTwice<X>(s: seq<X>)
    ensures Reversed(Reversed(s)) == s
  {
    assert forall i :: 0 <= i < |s| ==> Reversed(Reversed(s))[i] == s[i];
  }

  class ListNode<T> {
    var data: T
    var nxt: ListNode?<T>
    var prev: ListNode?<T>
    ghost var pos: nat  // position in the ring, counted from the head

    constructor (data: T, nxt: ListNode?<T>, prev: ListNode?<T>)
      ensures this.data == data && this.nxt == nxt && this.prev == prev
    {
      this.data, this.nxt, this.prev := data, nxt, prev;
    }
  }

  class LinkedRing<T> {
    var head: ListNode?<T>
    ghost var nodes: seq<ListNode<T>>  // the ring in order, starting at the head

    /** One ring through `ns`: each node knows its place, and nxt and prev are inverse. */
    static ghost predicate Ring(ns: seq<ListNode<T>>)
      reads ns
    {
      && (forall i {:trigger ns[i].pos} {:trigger ns[i].nxt} {:trigger ns[i].prev} :: 0 <= i < |ns| ==> ns[i].pos == i)
      && (forall i {:trigger ns[i].nxt} :: 0 <= i < |ns| - 1 ==> ns[i].nxt == ns[i + 1])
      && (forall i {:trigger ns[i].prev} :: 0 < i < |ns| ==> ns[i].prev == ns[i - 1])
      && (ns != [] ==> ns[|ns| - 1].nxt == ns[0] && ns[0].prev == ns[|ns| - 1])
    }

    ghost predicate Valid()
      reads this, nodes
    {
      && (nodes == [] <==> head == null)
      && (nodes != [] ==> head == nodes[0])
      && Ring(nodes)
    }

    ghost predicate Has(node: ListNode<T>)
      reads this, node
    {
      node.pos < |nodes| && nodes[node.pos] == node
    }

    constructor ()
      ensures Valid() && nodes == []
    {
      head := null;
      nodes := [];
    }

    method Append(data: T) returns (node: ListNode<T>)
      requires Valid()
      modifies this, nodes`nxt, nodes`prev
      ensures Valid() && fresh(node) && node.pos == |old(nodes)| && nodes == old(nodes) + [node] && node.data == data
    {
      node := new ListNode(data, null, null);
      if head == null {
        head := node;
        node.nxt := node;
        node.prev := node;
      } else {
        node.nxt := head;
        var headPrev := head.prev;
        head.prev := node;
        node.prev := headPrev;
        headPrev.nxt := node;
      }
      node.pos := |nodes|;
      nodes := nodes + [node];
    }

    /** Put a new node behind `node`; nothing else moves. */
    method Insert(node: ListNode<T>, data: T) returns (added: ListNode<T>)
      requires Valid() && Has(node)
      modifies this`nodes, nodes`nxt, nodes`prev, nodes`pos
      ensures Valid() && fresh(added) && added.data == data
      ensures nodes == old(nodes)[..old(node.pos) + 1] + [added] + old(nodes)[old(node.pos) + 1..]
    {
      hide Hooked, Ring;
      Positions();
      added := Splice(node, data);
      Renumber(node.pos, added);
      RingSpliced(nodes, node.pos, added);
      nodes := nodes[..node.pos + 1] + [added] + nodes[node.pos + 1..];
    }

    /** The pointers around a new node behind node p of `ns`, for the other nodes as in a ring. */
    static ghost predicate Hooked(ns: seq<ListNode<T>>, p: nat, x: ListNode<T>)
      requires p < |ns|
      reads ns, x
    {
      && (forall i {:trigger ns[i].nxt} :: 0 <= i < |ns| ==>
            ns[i].nxt == if i == p then x else if i + 1 < |ns| then ns[i + 1] else ns[0])
      && (forall i {:trigger ns[i].prev} :: 0 <= i < |ns| ==>
            ns[i].prev == if i == p + 1 || (i == 0 && p == |ns| - 1) then x else if i > 0 then ns[i - 1] else ns[|ns| - 1])
      && x.nxt == (if p + 1 < |ns| then ns[p + 1] else ns[0]) && x.prev == ns[p]
    }

    lemma Positions()
      requires Valid()
      ensures forall i {:trigger nodes[i].pos} :: 0 <= i < |nodes| ==> nodes[i].pos == i
    {
    }

    method Splice(node: ListNode<T>, data: T) returns (added: ListNode<T>)
      requires Valid() && Has(node)
      modifies nodes`nxt, nodes`prev
      ensures fresh(added) && added.data == data && Hooked(nodes, node.pos, added)
    {
      added := new ListNode(data, node.nxt, node);
      var nodeNxt := node.nxt;
      nodeNxt.prev := added;
      node.nxt := added;
    }

    /** Count the places anew: the nodes behind p move up by one. */
    ghost method Renumber(p: nat, x: ListNode<T>)
      requires p < |nodes| && x !in nodes && forall i {:trigger nodes[i].pos} :: 0 <= i < |nodes| ==> nodes[i].pos == i
      modifies nodes`pos, x`pos
      ensures x.pos == p + 1
      ensures forall i {:trigger nodes[i].pos} :: 0 <= i < |nodes| ==> nodes[i].pos == if i <= p then i else i + 1
    {
      x.pos := p + 1;
      forall m | m in nodes && m.pos > p {
        m.pos := m.pos + 1;
      }
    }

    static lemma RingSpliced(ns: seq<ListNode<T>>, p: nat, x: ListNode<T>)
      requires p < |ns| && Hooked(ns, p, x) && x.pos == p + 1
      requires forall i {:trigger ns[i].pos} :: 0 <= i < |ns| ==> ns[i].pos == if i <= p then i else i + 1
      ensures Ring(ns[..p + 1] + [x] + ns[p + 1..])
    {
    }

    /** Swap the two pointers of every node. */
    method SwapPointers()
      requires Valid() && head != null
      modifies nodes`nxt, nodes`prev
      ensures forall i {:trigger nodes[i].nxt} {:trigger nodes[i].prev} :: 0 <= i < |nodes| ==>
        nodes[i].nxt == old(nodes[i].prev) && nodes[i].prev == old(nodes[i].nxt)
    {
      ghost var n := |nodes|;
      ghost var p := 0;
      var cur := head;
      var fut: ListNode?<T> := null;
      while fut != head
        invariant 0 <= p <= n
        invariant fut == null <==> p == 0
        invariant p > 0 ==> fut == cur
        invariant cur == if p == n then nodes[0] else nodes[p]
        invariant forall i {:trigger nodes[i].nxt} {:trigger nodes[i].prev} :: 0 <= i < p ==>
          nodes[i].nxt == old(nodes[i].prev) && nodes[i].prev == old(nodes[i].nxt)
        invariant forall i {:trigger nodes[i].nxt} {:trigger nodes[i].prev} :: p <= i < n ==>
          nodes[i].nxt == old(nodes[i].nxt) && nodes[i].prev == old(nodes[i].prev)
        decreases n - p
      {
        assert cur == nodes[p];
        fut := cur.nxt;
        assert fut == if p + 1 < n then nodes[p + 1] else nodes[0];
        var nxt := cur.nxt;
        var prv := cur.prev;
        cur.nxt := prv;
        cur.prev := nxt;
        cur := fut;
        p := p + 1;
      }
    }

    /** In-place reversal: the pointers are swapped and the old tail becomes the head. */
    method Reverse()
      requires Valid()
      modifies this, nodes`nxt, nodes`prev, nodes`pos
      ensures Valid() && nodes == Reversed(old(nodes))
    {
      if head == null {
        return;
      }
      SwapPointers();
      head := head.nxt;
      ghost var was := nodes;
      nodes := Reversed(was);
      forall m | m in was {
        m.pos := |was| - 1 - m.pos;
      }
      assert forall i :: 0 <= i < |was| ==> nodes[i] == was[|was| - 1 - i];
    }

    /** Step forward; from nowhere the step lands on the head. */
    method GoNxt(node: ListNode?<T>) returns (res: ListNode?<T>)
      requires Valid() && (node != null ==> Has(node))
      ensures node == null ==> res == head
      ensures node != null ==> res == if node.pos + 1 == |nodes| then nodes[0] else nodes[node.pos + 1]
    {
      if node == null {
        return head;
      }
      return node.nxt;
    }

    /** Step back; there is nothing before the head. */
    method GoPrev(node: ListNode<T>) returns (res: ListNode?<T>)
      requires Valid() && Has(node)
      ensures res == if node.pos == 0 then null else nodes[node.pos - 1]
    {
      if node == head {
        return null;
      }
      return node.prev;
    }
  }
}
