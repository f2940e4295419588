/** The linked first-in first-out queue of queue.h. */
module LinkedQueue {
  datatype Option<+T> = None | Some(value: T)

  class QueueNode<T> {
    var next: QueueNode?<T>
    const obj: T

    constructor (obj: T)
      ensures this.obj == obj && next == null
    {
      this.obj := obj;
      next := null;
    }
  }

  class Queue<T> {
    var num_elem: nat
    var head: QueueNode?<T>
    var tail: QueueNode?<T>
    ghost var contents: seq<T>            // the objects waiting, the next one to leave first
    ghost var nodes: seq<QueueNode<T>>    // the nodes from head to tail
    ghost var Repr: set<object>

    ghost predicate Valid()
      reads this, Repr
      ensures Valid() ==> this in Repr
    {
      && this in Repr && (forall i :: 0 <= i < |nodes| ==> nodes[i] in Repr)
      && num_elem == |nodes| == |contents|
      && (num_elem == 0 ==> head == null && tail == null)
      && (num_elem > 0 ==> head == nodes[0] && tail == nodes[num_elem - 1] && nodes[num_elem - 1].next == null)
      && (forall i {:trigger nodes[i].next} :: 0 <= i < |nodes| - 1 ==> nodes[i].next == nodes[i + 1])
      && (forall i :: 0 <= i < |nodes| ==> nodes[i].obj == contents[i])
      && (forall i, j :: 0 <= i < j < |nodes| ==> nodes[i] != nodes[j])
    }

    constructor ()
      ensures Valid() && fresh(Repr) && contents == []
    {
      num_elem, head, tail, nodes, contents, Repr := 0, null, null, [], [], {this};
    }

    method Enqueue(obj: T)
      requires Valid()
      modifies Repr
      ensures Valid() && fresh(Repr - old(Repr)) && contents == old(contents) + [obj]
    {
      var qn := new QueueNode(obj);
      if num_elem == 0 {
        head, tail := qn, qn;
      } else {
        tail.next := qn;
        tail := qn;
      }
      nodes, contents, Repr := nodes + [qn], contents + [obj], Repr + {qn};
      num_elem := num_elem + 1;
    }

    /** Takes out the oldest object; an empty queue answers None and stays as it is. */
    method Dequeue() returns (obj: Option<T>)
      requires Valid()
      modifies Repr
      ensures Valid() && Repr == old(Repr)
      ensures old(contents) == [] ==> obj == None && contents == []
      ensures old(contents) != [] ==> obj == Some(old(contents)[0]) && contents == old(contents)[1..]
    {
      var qn := head;
      if num_elem == 0 {
        return None;
      }
      ghost var was := nodes;
      obj := Some(qn.obj);
      head := qn.next;
      nodes, contents := nodes[1..], contents[1..];
      assert forall i :: 0 <= i < |nodes| ==> nodes[i] == was[i + 1];
      num_elem := num_elem - 1;
      if num_elem == 0 {
        tail := null;
      }
    }

    predicate IsEmpty()
      requires Valid()
      reads this, Repr
      ensures IsEmpty() <==> contents == []
    {
      num_elem == 0
    }
  }
}
