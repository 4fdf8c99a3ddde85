/**
 * The growable array stack of src/core/stack.c: the items live in
 * `data[0 .. size)`, the top at `size - 1`, and a full stack doubles its
 * buffer before a push.
 */
module Stack {
  import opened Common

  class Stack<T(0)> {
    var data: array<T>
    var size: nat
    var capacity: nat

    /** `size <= capacity` and the buffer holds `capacity` slots. */
    ghost predicate Valid()
      reads this
    {
      data.Length == capacity && 0 < capacity && size <= capacity
    }

    /** The items, bottom first. */
    ghost function Contents(): seq<T>
      reads this, data
      requires Valid()
    {
      data[..size]
    }

    /** stack_init: empty, with `initialCapacity` slots, or 4 when that is 0. */
    constructor Init(initialCapacity: nat)
      ensures Valid() && fresh(data) && Contents() == []
      ensures capacity == if initialCapacity == 0 then 4 else initialCapacity
    {
      size := 0;
      capacity := if initialCapacity == 0 then 4 else initialCapacity;
      data := new T[if initialCapacity == 0 then 4 else initialCapacity];
    }

    /**
     * stack_grow: `realloc` to twice the capacity, keeping the items; the
     * allocation failure path is not modelled.
     */
    method Grow() returns (rc: int)
      requires Valid()
      modifies this
      ensures Valid() && rc == 0 && fresh(data)
      ensures capacity == 2 * old(capacity) && size == old(size)
      ensures Contents() == old(Contents())
    {
      var newData := new T[2 * capacity];
      forall i | 0 <= i < size {
        newData[i] := data[i];
      }
      data := newData;
      capacity := 2 * capacity;
      return 0;
    }

    /** stack_push: grow when full, then store the item on top. */
    method Push(item: T) returns (rc: int)
      requires Valid()
      modifies this, data
      ensures Valid() && rc == 0
      ensures Contents() == old(Contents()) + [item] && size == old(size) + 1
      ensures capacity == if old(size) == old(capacity) then 2 * old(capacity) else old(capacity)
    {
      if size == capacity {
        rc := Grow();
      }
      data[size] := item;
      size := size + 1;
      return 0;
    }

    /** stack_pop: `None` (NULL) and no change when empty, else the top item, removed. */
    method Pop() returns (r: Option<T>)
      requires Valid()
      modifies this
      ensures Valid() && capacity == old(capacity) && data == old(data)
      ensures old(size) == 0 ==> r == None && size == 0
      ensures old(size) > 0 ==>
        r == Some(old(Contents())[old(size) - 1]) && Contents() == old(Contents())[..old(size) - 1]
    {
      if size == 0 {
        return None;
      }
      size := size - 1;
      return Some(data[size]);
    }

    /** stack_peek: `None` when empty, else the top item; nothing changes. */
    method Peek() returns (r: Option<T>)
      requires Valid()
      ensures size == 0 ==> r == None
      ensures size > 0 ==> r == Some(Contents()[size - 1])
    {
      if size == 0 {
        return None;
      }
      return Some(data[size - 1]);
    }

    /** stack_empty. */
    method Empty() returns (b: bool)
      requires Valid()
      ensures b <==> Contents() == []
    {
      return size == 0;
    }
  }

  /** Push then pop gives the pushed item back and the stack as it was: LIFO. */
  method PushThenPop<T(0)>(st: Stack<T>, item: T) returns (r: Option<T>)
    requires st.Valid()
    modifies st, st.data
    ensures st.Valid() && r == Some(item)
    ensures st.Contents() == old(st.Contents()) && st.size == old(st.size)
  {
    var rc := st.Push(item);
    r := st.Pop();
  }
}
