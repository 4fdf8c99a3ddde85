/**
 * The FIFO queue of src/core/queue.c, a singly linked chain with head, tail
 * and length of its own (the file repeats the list's code for its own node
 * type). The ghost sequence `Nodes` lists the nodes from head (the oldest
 * item) to tail and `Contents` their data.
 */
module Queue {
  import opened Common

  class QueueNode<T> {
    var data: T
    var next: QueueNode?<T>

    constructor (data: T)
      ensures this.data == data && next == null
    {
      this.data := data;
      next := null;
    }
  }

  class Queue<T> {
    var head: QueueNode?<T>
    var tail: QueueNode?<T>
    var length: nat
    ghost var Nodes: seq<QueueNode<T>>
    ghost var Contents: seq<T>
    ghost var Repr: set<QueueNode<T>>

    /**
     * The nodes form one chain from head to tail, each node at most once,
     * `length` counts them, and head, tail and length are null/zero together.
     */
    ghost predicate Valid()
      reads this, Repr
    {
      && |Nodes| == length == |Contents|
      && (forall i :: 0 <= i < |Nodes| ==> Nodes[i] in Repr && Nodes[i].data == Contents[i])
      && (forall i :: 0 <= i < |Nodes| - 1 ==> Nodes[i].next == Nodes[i + 1])
      && (forall i, j :: 0 <= i < j < |Nodes| ==> Nodes[i] != Nodes[j])
      && (head == null <==> length == 0)
      && (tail == null <==> length == 0)
      && (length > 0 ==> head == Nodes[0] && tail == Nodes[length - 1] && tail.next == null)
    }

    /** queue_init: no nodes. */
    constructor Init()
      ensures Valid() && Contents == [] && Repr == {}
    {
      head := null;
      tail := null;
      length := 0;
      Nodes := [];
      Contents := [];
      Repr := {};
    }

    /**
     * queue_enqueue: a new last node, linked from the old tail or, on an
     * empty queue, made the head. Allocation never fails in the model.
     */
    method Enqueue(data: T) returns (rc: int)
      requires Valid()
      modifies this, Repr
      ensures Valid() && rc == 0
      ensures Contents == old(Contents) + [data] && length == old(length) + 1
      ensures fresh(Repr - old(Repr)) && tail.data == data
      ensures old(length) > 0 ==> head == old(head)
    {
      var node := new QueueNode(data);
      if tail != null {
        tail.next := node;
      } else {
        head := node;
      }
      tail := node;
      length := length + 1;
      Nodes := Nodes + [node];
      Contents := Contents + [data];
      Repr := Repr + {node};
      return 0;
    }

    /**
     * queue_dequeue: `None` (NULL) and no change on an empty queue, else the
     * oldest item, unlinked; removing the last one resets the tail.
     */
    method Dequeue() returns (r: Option<T>)
      requires Valid()
      modifies this
      ensures Valid()
      ensures old(length) == 0 ==> r == None && unchanged(this)
      ensures old(length) > 0 ==>
        r == Some(old(Contents)[0]) && Contents == old(Contents)[1..] && length == old(length) - 1
      ensures old(length) == 1 ==> head == null && tail == null
    {
      if head == null {
        return None;
      }
      var node := head;
      var data := node.data;
      assert length > 1 ==> node.next == Nodes[1];
      head := node.next;
      if head == null {
        tail := null;
      }
      length := length - 1;
      Nodes := Nodes[1..];
      Contents := Contents[1..];
      return Some(data);
    }

    /** queue_empty: the head is NULL, which is exactly an empty queue. */
    method Empty() returns (b: bool)
      requires Valid()
      ensures b <==> length == 0
      ensures b <==> Contents == []
    {
      return head == null;
    }

    /**
     * queue_clear: walk the chain once, handing each item to `free_fn` if
     * one is given, then reset the queue. The calls are returned, in order,
     * as `freed`.
     */
    method Clear(hasFreeFn: bool) returns (freed: seq<T>)
      requires Valid()
      modifies this
      ensures Valid() && Contents == [] && length == 0 && head == null && tail == null
      ensures freed == if hasFreeFn then old(Contents) else []
    {
      var cur := head;
      freed := [];
      ghost var i := 0;
      while cur != null
        invariant 0 <= i <= |Nodes|
        invariant cur == if i < |Nodes| then Nodes[i] else null
        invariant freed == if hasFreeFn then Contents[..i] else []
        decreases |Nodes| - i
      {
        var next := cur.next;
        if hasFreeFn {
          freed := freed + [cur.data];
        }
        cur := next;
        i := i + 1;
      }
      assert Contents[..|Nodes|] == Contents;
      head := null;
      tail := null;
      length := 0;
      Nodes := [];
      Contents := [];
      Repr := {};
    }
  }

  /**
   * Two items enqueued on an empty queue come out in the order they went in,
   * and the queue is empty again: FIFO.
   */
  method FifoOrder<T>(q: Queue<T>, a: T, b: T) returns (first: Option<T>, second: Option<T>, empty: bool)
    requires q.Valid() && q.length == 0
    modifies q, q.Repr
    ensures q.Valid() && q.Contents == [] && q.head == null && q.tail == null
    ensures first == Some(a) && second == Some(b) && empty
  {
    var rc := q.Enqueue(a);
    rc := q.Enqueue(b);
    first := q.Dequeue();
    second := q.Dequeue();
    empty := q.Empty();
  }
}
