/**
 * The singly linked list of linkedlist.c. A `LinkedList` is the head pointer;
 * the chain of nodes it reaches is modelled by `elements`, the data pointers in
 * node order. Enqueue and push both append at the tail; dequeue removes at the
 * head (FIFO) and pop at the tail (LIFO).
 */
module LinkedLists {
  import opened Wrappers

  /** Whether some element e has cmp(d, e) == 0: the search of ll_contains_data. */
  predicate ContainsMatching<T>(s: seq<T>, d: T, cmp: (T, T) -> int)
  {
    exists i :: 0 <= i < |s| && cmp(d, s[i]) == 0
  }

  /** The element-wise image of s under f, in the same order. */
  function MapSeq<T, U>(s: seq<T>, f: T -> U): (r: seq<U>)
    ensures |r| == |s|
    ensures forall i :: 0 <= i < |s| ==> r[i] == f(s[i])
  {
    if s == [] then [] else MapSeq(s[..|s| - 1], f) + [f(s[|s| - 1])]
  }

  class LinkedList<T> {
    var elements: seq<T>

    /** ll_create: an empty list. */
    constructor ()
      ensures elements == []
    {
      elements := [];
    }

    /** ll_enqueue: append at the tail. */
    method Enqueue(x: T)
      modifies this
      ensures elements == old(elements) + [x]
    {
      elements := elements + [x];
    }

    /** ll_push: the same as ll_enqueue. */
    method Push(x: T)
      modifies this
      ensures elements == old(elements) + [x]
    {
      Enqueue(x);
    }

    /**
     * ll_enqueue_all: append every element of d, in order. With d == this the C
     * loop never reaches the end of the list it keeps extending, so d must differ.
     */
    method EnqueueAll(d: LinkedList<T>)
      requires d != this
      modifies this
      ensures elements == old(elements) + d.elements
    {
      var node := 0;
      while node < |d.elements|
        invariant 0 <= node <= |d.elements|
        invariant elements == old(elements) + d.elements[..node]
      {
        Enqueue(d.elements[node]);
        node := node + 1;
      }
      assert d.elements[..node] == d.elements;
    }

    /**
     * ll_dequeue: remove the head. The data is returned unless a destroy
     * callback was given (then it is destroyed and NULL is returned).
     */
    method Dequeue(destroy: bool) returns (r: Option<T>)
      modifies this
      ensures old(elements) == [] ==> elements == [] && r == None
      ensures old(elements) != [] ==>
        elements == old(elements)[1..] && r == (if destroy then None else Some(old(elements)[0]))
    {
      r := None;
      if elements != [] {
        var data := elements[0];
        elements := elements[1..];
        if !destroy {
          r := Some(data);
        }
      }
    }

    /** ll_pop: remove the last element; returns like ll_dequeue. */
    method Pop(destroy: bool) returns (r: Option<T>)
      modifies this
      ensures old(elements) == [] ==> elements == [] && r == None
      ensures old(elements) != [] ==>
        elements == old(elements)[..|old(elements)| - 1] &&
        r == (if destroy then None else Some(old(elements)[|old(elements)| - 1]))
    {
      r := None;
      if elements != [] {
        var prev := -1;
        var node := 0;
        while node + 1 < |elements|
          invariant 0 <= node < |elements| && prev == node - 1
        {
          prev := node;
          node := node + 1;
        }
        var data := elements[node];
        if prev == -1 {
          elements := [];
        } else {
          elements := elements[..prev + 1];
        }
        if !destroy {
          r := Some(data);
        }
      }
    }

    /** ll_contains_data: 1 iff some element e has cmp(data, e) == 0. */
    method ContainsData(data: T, cmp: (T, T) -> int) returns (found: bool)
      ensures found == ContainsMatching(elements, data, cmp)
    {
      var node := 0;
      while node < |elements|
        invariant 0 <= node <= |elements|
        invariant forall i :: 0 <= i < node ==> cmp(data, elements[i]) != 0
      {
        if cmp(data, elements[node]) == 0 {
          return true;
        }
        node := node + 1;
      }
      return false;
    }

    /** ll_iterate: the callback calls (index, data), in list order. */
    method Iterate() returns (calls: seq<(int, T)>)
      ensures |calls| == |elements|
      ensures forall i :: 0 <= i < |elements| ==> calls[i] == (i, elements[i])
    {
      calls := [];
      var idx := 0;
      while idx < |elements|
        invariant 0 <= idx <= |elements|
        invariant |calls| == idx
        invariant forall i :: 0 <= i < idx ==> calls[i] == (i, elements[i])
      {
        calls := calls + [(idx, elements[idx])];
        idx := idx + 1;
      }
    }

    /** ll_get_last: the last element, or NULL when empty. */
    method GetLast() returns (r: Option<T>)
      ensures elements == [] ==> r == None
      ensures elements != [] ==> r == Some(elements[|elements| - 1])
    {
      if elements == [] {
        return None;
      }
      var node := 0;
      while node + 1 < |elements|
        invariant 0 <= node < |elements|
      {
        node := node + 1;
      }
      return Some(elements[node]);
    }

    /** ll_get_first: the first element, or NULL when empty. */
    method GetFirst() returns (r: Option<T>)
      ensures elements == [] ==> r == None
      ensures elements != [] ==> r == Some(elements[0])
    {
      if elements == [] {
        return None;
      }
      return Some(elements[0]);
    }

    /** ll_is_empty. */
    method IsEmpty() returns (empty: bool)
      ensures empty <==> |elements| == 0
    {
      empty := elements == [];
    }

    /** ll_size: the number of nodes, counted by walking them. */
    method Size() returns (size: nat)
      ensures size == |elements|
    {
      var node := 0;
      size := 0;
      while node < |elements|
        invariant node <= |elements|
        invariant size == node
      {
        size := size + 1;
        node := node + 1;
      }
    }

    /** ll_copy: a new list holding the same data, in the same order. */
    method Copy() returns (copy: LinkedList<T>)
      ensures fresh(copy)
      ensures copy.elements == elements
    {
      copy := new LinkedList();
      var node := 0;
      while node < |elements|
        invariant 0 <= node <= |elements|
        invariant copy.elements == elements[..node]
      {
        copy.Enqueue(elements[node]);
        node := node + 1;
      }
      assert elements[..node] == elements;
    }

    /** ll_copy_data: a new list of copy_data(e) for every element e, in order. */
    method CopyData(copyData: T -> T) returns (copy: LinkedList<T>)
      ensures fresh(copy)
      ensures copy.elements == MapSeq(elements, copyData)
    {
      copy := new LinkedList();
      var node := 0;
      while node < |elements|
        invariant 0 <= node <= |elements|
        invariant copy.elements == MapSeq(elements[..node], copyData)
      {
        assert elements[..node + 1][..node] == elements[..node];
        copy.Push(copyData(elements[node]));
        node := node + 1;
      }
      assert elements[..node] == elements;
    }

    /** ll_clear: dequeue until empty. */
    method Clear(destroy: bool)
      modifies this
      ensures elements == []
    {
      while elements != []
        decreases |elements|
      {
        var _ := Dequeue(destroy);
      }
    }
  }

  /** ll_contains: pointer comparison, modelled as equality of the stored data. */
  method Contains<T(==)>(q: LinkedList<T>, pointer: T) returns (found: bool)
    ensures found <==> pointer in q.elements
  {
    var node := 0;
    while node < |q.elements|
      invariant 0 <= node <= |q.elements|
      invariant pointer !in q.elements[..node]
    {
      if pointer == q.elements[node] {
        return true;
      }
      assert q.elements[..node + 1] == q.elements[..node] + [q.elements[node]];
      node := node + 1;
    }
    assert q.elements[..node] == q.elements;
    return false;
  }

  /** ll_to_array: a fresh array of ll_size entries holding the data in list order. */
  method ToArray<T(0)>(ll: LinkedList<T>) returns (arr: array<T>)
    ensures fresh(arr)
    ensures arr[..] == ll.elements
  {
    var size := ll.Size();
    arr := new T[size];
    var node := 0;
    for i := 0 to size
      invariant node == i
      invariant forall k :: 0 <= k < i ==> arr[k] == ll.elements[k]
    {
      arr[i] := ll.elements[node];
      node := node + 1;
    }
  }
}
