/** `Queue`: a singly linked queue with a head and a tail pointer. */
module TaskQueues {
  class QueueNode<T> {
    var value: T
    var next: QueueNode?<T>
    ghost var freed: bool

    constructor (val: T)
      ensures value == val && next == null && !freed
    {
      value, next, freed := val, null, false;
    }

    /** `delete` on a node: allowed once. */
    method Delete()
      requires !freed
      modifies this`freed
      ensures freed
    {
      freed := true;
    }
  }

  class Queue<T> {
    var head: QueueNode?<T>
    var tail: QueueNode?<T>
    ghost var nodes: seq<QueueNode<T>>

    ghost predicate Valid()
      reads this, nodes
    {
      && (if nodes == [] then head == null && tail == null else head == nodes[0] && tail == nodes[|nodes| - 1])
      && (forall i, j :: 0 <= i < j < |nodes| ==> nodes[i] != nodes[j])
      && (forall i {:trigger nodes[i].next} :: 0 <= i < |nodes| ==>
            nodes[i].next == if i + 1 < |nodes| then nodes[i + 1] else null)
      && (forall i :: 0 <= i < |nodes| ==> !nodes[i].freed)
    }

    ghost function Contents(): (c: seq<T>)
      reads this, nodes
      ensures |c| == |nodes|
    {
      var ns := nodes;
      seq(|ns|, i requires 0 <= i < |ns| reads ns => ns[i].value)
    }

    constructor ()
      ensures Valid() && nodes == [] && Contents() == []
    {
      head, tail, nodes := null, null, [];
    }

    method Enqueue(value: T)
      requires Valid()
      modifies this, nodes
      ensures Valid() && Contents() == old(Contents()) + [value]
      ensures |nodes| == old(|nodes|) + 1 && nodes[..old(|nodes|)] == old(nodes) && fresh(nodes[old(|nodes|)])
    {
      var newNode := new QueueNode(value);
      if tail != null {
        tail.next := newNode;
      }
      tail := newNode;
      if head == null {
        head := newNode;
      }
      nodes := nodes + [newNode];
    }

    /** Takes the oldest value and frees its node; an empty queue yields the default value. */
    method Dequeue(default: T) returns (value: T)
      requires Valid()
      modifies this, nodes
      ensures Valid()
      ensures old(nodes) == [] ==> value == default && nodes == []
      ensures old(nodes) != [] ==>
                && [value] + Contents() == old(Contents())
                && nodes == old(nodes)[1..] && old(nodes)[0].freed
    {
      if head == null {
        return default;
      }
      var temp := head;
      value := head.value;
      head := head.next;
      if head == null {
        tail := null;
      }
      temp.Delete();
      nodes := nodes[1..];
    }

    predicate IsEmpty()
      requires Valid()
      reads this, nodes
      ensures IsEmpty() <==> Contents() == []
    {
      head == null
    }

    /** The destructor dequeues until nothing is left: every node is freed. */
    method Destroy(default: T)
      requires Valid()
      modifies this, nodes
      ensures Valid() && Contents() == []
      ensures forall n :: n in old(nodes) ==> n.freed
    {
      ghost var k := 0;
      while !IsEmpty()
        invariant 0 <= k <= |old(nodes)| && Valid() && nodes == old(nodes)[k..]
        invariant forall i :: 0 <= i < k ==> old(nodes)[i].freed
        decreases |nodes|
      {
        var value := Dequeue(default);
        k := k + 1;
      }
    }
  }
}
