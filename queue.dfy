/**
 * The FIFO queue of queue.c, a second singly linked list whose data are usually
 * boxed integers. A `Queue` is the head pointer; `elements` are the node data in
 * order. Boxing an int (queue_push_int, queue_copy_int) is modelled by storing
 * the int itself.
 */
module Queues {
  import opened Wrappers

  class Queue<T> {
    var elements: seq<T>

    /** queue_create: an empty queue. */
    constructor ()
      ensures elements == []
    {
      elements := [];
    }

    /** queue_push: append at the tail. */
    method Push(x: T)
      modifies this
      ensures elements == old(elements) + [x]
    {
      elements := elements + [x];
    }

    /** queue_pop: remove and return the head, or NULL on an empty queue. */
    method Pop() returns (r: Option<T>)
      modifies this
      ensures old(elements) == [] ==> r == None && elements == []
      ensures old(elements) != [] ==> r == Some(old(elements)[0]) && elements == old(elements)[1..]
    {
      if elements == [] {
        return None;
      }
      r := Some(elements[0]);
      elements := elements[1..];
    }

    /** queue_is_empty. */
    method IsEmpty() returns (empty: bool)
      ensures empty <==> |elements| == 0
    {
      empty := elements == [];
    }

    /** queue_size: the number of nodes, counted by walking them. */
    method Size() returns (size: nat)
      ensures size == |elements|
    {
      var node := 0;
      size := 0;
      while node < |elements|
        invariant node <= |elements|
        invariant size == node
      {
        size := size + 1;
        node := node + 1;
      }
    }

    /** queue_clear: pop until empty. */
    method Clear()
      modifies this
      ensures elements == []
    {
      while elements != []
        decreases |elements|
      {
        var _ := Pop();
      }
    }

    /** queue_copy: a new queue with the same data in the same order. */
    method Copy() returns (copy: Queue<T>)
      ensures fresh(copy)
      ensures copy.elements == elements
    {
      copy := new Queue();
      var node := 0;
      while node < |elements|
        invariant 0 <= node <= |elements|
        invariant copy.elements == elements[..node]
      {
        copy.Push(elements[node]);
        node := node + 1;
      }
      assert elements[..node] == elements;
    }
  }

  /** queue_push_int: box the integer and push it. */
  method PushInt(q: Queue<int>, data: int)
    modifies q
    ensures q.elements == old(q.elements) + [data]
  {
    q.Push(data);
  }

  /** queue_pop_int: the head integer, or -1 when the queue is empty. */
  method PopInt(q: Queue<int>) returns (i: int)
    modifies q
    ensures old(q.elements) == [] ==> i == -1 && q.elements == []
    ensures old(q.elements) != [] ==> i == old(q.elements)[0] && q.elements == old(q.elements)[1..]
  {
    var data := q.Pop();
    if data.Some? {
      return data.value;
    }
    return -1;
  }

  /** queue_contains_int: 1 iff some element equals the searched integer. */
  method ContainsInt(q: Queue<int>, searched: int) returns (found: bool)
    ensures found <==> searched in q.elements
  {
    var node := 0;
    while node < |q.elements|
      invariant 0 <= node <= |q.elements|
      invariant searched !in q.elements[..node]
    {
      if searched == q.elements[node] {
        return true;
      }
      assert q.elements[..node + 1] == q.elements[..node] + [q.elements[node]];
      node := node + 1;
    }
    assert q.elements[..node] == q.elements;
    return false;
  }

  /** queue_get_last_int: the last integer, or 0 on an empty queue. */
  method GetLastInt(q: Queue<int>) returns (last: int)
    ensures q.elements == [] ==> last == 0
    ensures q.elements != [] ==> last == q.elements[|q.elements| - 1]
  {
    if q.elements == [] {
      return 0;
    }
    var node := 0;
    while node + 1 < |q.elements|
      invariant 0 <= node < |q.elements|
    {
      node := node + 1;
    }
    return q.elements[node];
  }

  /** queue_clear_int: pop (and free) every integer. */
  method ClearInt(q: Queue<int>)
    modifies q
    ensures q.elements == []
  {
    while q.elements != []
      decreases |q.elements|
    {
      var _ := PopInt(q);
    }
  }

  /** queue_copy_int: a new queue holding fresh boxes with the same integers, in order. */
  method CopyInt(q: Queue<int>) returns (copy: Queue<int>)
    ensures fresh(copy)
    ensures copy.elements == q.elements
  {
    copy := new Queue();
    var node := 0;
    while node < |q.elements|
      invariant 0 <= node <= |q.elements|
      invariant copy.elements == q.elements[..node]
    {
      var newInt := q.elements[node];
      copy.Push(newInt);
      node := node + 1;
    }
    assert q.elements[..node] == q.elements;
  }
}
