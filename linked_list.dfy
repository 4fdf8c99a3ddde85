/**
 * The singly linked list of src/core/linked_list.c: nodes rewired in place,
 * with `head`, `tail` and `length` kept by the list. The ghost sequence
 * `Nodes` lists the nodes from head to tail and `Contents` their data.
 */
module LinkedList {
  import opened Common

  class ListNode<T> {
    var data: T
    var next: ListNode?<T>

    constructor (data: T)
      ensures this.data == data && next == null
    {
      this.data := data;
      next := null;
    }
  }

  class LinkedList<T> {
    var head: ListNode?<T>
    var tail: ListNode?<T>
    var length: nat
    ghost var Nodes: seq<ListNode<T>>
    ghost var Contents: seq<T>
    ghost var Repr: set<ListNode<T>>

    /**
     * The nodes form one chain from head to tail, each node at most once,
     * `length` counts them, and head, tail and length are null/zero together.
     */
    ghost predicate Valid()
      reads this, Repr
    {
      && |Nodes| == length == |Contents|
      && (forall i :: 0 <= i < |Nodes| ==> Nodes[i] in Repr && Nodes[i].data == Contents[i])
      && (forall i :: 0 <= i < |Nodes| - 1 ==> Nodes[i].next == Nodes[i + 1])
      && (forall i, j :: 0 <= i < j < |Nodes| ==> Nodes[i] != Nodes[j])
      && (head == null <==> length == 0)
      && (tail == null <==> length == 0)
      && (length > 0 ==> head == Nodes[0] && tail == Nodes[length - 1] && tail.next == null)
    }

    /** list_init: no nodes. */
    constructor Init()
      ensures Valid() && Contents == [] && Repr == {}
    {
      head := null;
      tail := null;
      length := 0;
      Nodes := [];
      Contents := [];
      Repr := {};
    }

    /**
     * list_push_back: a new last node, linked from the old tail or, on an
     * empty list, made the head. Allocation never fails in the model.
     */
    method PushBack(data: T) returns (rc: int)
      requires Valid()
      modifies this, Repr
      ensures Valid() && rc == 0
      ensures Contents == old(Contents) + [data] && length == old(length) + 1
      ensures fresh(Repr - old(Repr)) && tail.data == data
      ensures old(length) > 0 ==> head == old(head)
    {
      var node := new ListNode(data);
      if tail != null {
        tail.next := node;
      } else {
        head := node;
      }
      tail := node;
      length := length + 1;
      Nodes := Nodes + [node];
      Contents := Contents + [data];
      Repr := Repr + {node};
      return 0;
    }

    /** list_push_front: a new first node; on an empty list it is the tail too. */
    method PushFront(data: T) returns (rc: int)
      requires Valid()
      modifies this
      ensures Valid() && rc == 0
      ensures Contents == [data] + old(Contents) && length == old(length) + 1
      ensures fresh(Repr - old(Repr)) && head.data == data
      ensures old(length) == 0 ==> head == tail
      ensures old(length) > 0 ==> tail == old(tail)
    {
      var node := new ListNode(data);
      node.next := head;
      head := node;
      if tail == null {
        tail := node;
      }
      length := length + 1;
      Nodes := [node] + Nodes;
      Contents := [data] + Contents;
      Repr := Repr + {node};
      return 0;
    }

    /**
     * list_pop_front: `None` (NULL) and no change on an empty list, else the
     * first element, unlinked; popping the last one resets the tail.
     */
    method PopFront() returns (r: Option<T>)
      requires Valid()
      modifies this
      ensures Valid()
      ensures old(length) == 0 ==> r == None && unchanged(this)
      ensures old(length) > 0 ==>
        r == Some(old(Contents)[0]) && Contents == old(Contents)[1..] && length == old(length) - 1
      ensures old(length) == 1 ==> head == null && tail == null
    {
      if head == null {
        return None;
      }
      var node := head;
      var data := node.data;
      assert length > 1 ==> node.next == Nodes[1];
      head := node.next;
      if head == null {
        tail := null;
      }
      length := length - 1;
      Nodes := Nodes[1..];
      Contents := Contents[1..];
      return Some(data);
    }

    /**
     * list_clear: walk the chain once, handing each element to `free_fn` if
     * one is given, then reset the list. The calls are returned, in order,
     * as `freed`.
     */
    method Clear(hasFreeFn: bool) returns (freed: seq<T>)
      requires Valid()
      modifies this
      ensures Valid() && Contents == [] && length == 0 && head == null && tail == null
      ensures freed == if hasFreeFn then old(Contents) else []
    {
      var cur := head;
      freed := [];
      ghost var i := 0;
      while cur != null
        invariant 0 <= i <= |Nodes|
        invariant cur == if i < |Nodes| then Nodes[i] else null
        invariant freed == if hasFreeFn then Contents[..i] else []
        decreases |Nodes| - i
      {
        var next := cur.next;
        if hasFreeFn {
          freed := freed + [cur.data];
        }
        cur := next;
        i := i + 1;
      }
      assert Contents[..|Nodes|] == Contents;
      head := null;
      tail := null;
      length := 0;
      Nodes := [];
      Contents := [];
      Repr := {};
    }
  }
}
