/**
 * s21::queue from containers/s21_queue.h: an adapter holding a list,
 * pushing at its back and popping at its front.
 */
module Queues {
  import opened Lists

  class Queue<T(==)> {
    /** list_: the held list; its front is the front of the queue. */
    var list: List<T>

    ghost predicate Valid()
      reads this, list
    {
      list.Valid()
    }

    /** The queue's elements, front first. */
    ghost function Contents(): seq<T>
      reads this, list
    {
      list.Contents
    }

    /** queue(): an empty list. */
    constructor ()
      ensures Valid() && Contents() == [] && fresh(list)
    {
      list := new List();
    }

    /** queue(const queue &): a copy of the held list. */
    constructor Copy(q: Queue<T>)
      requires q.Valid()
      ensures Valid() && Contents() == q.Contents() && fresh(list)
    {
      list := new List.Copy(q.list);
    }

    /** queue(queue &&): an empty list, swapped with `q`'s, which leaves `q` empty. */
    constructor Move(q: Queue<T>)
      requires q.Valid()
      modifies q.list
      ensures Valid() && Contents() == old(q.Contents()) && fresh(list)
      ensures q.Valid() && q.Contents() == []
    {
      list := new List();
      new;
      list.Swap(q.list);
    }

    /** queue(initializer_list): a list of the items, the first of them at the front. */
    constructor FromSeq(items: seq<T>)
      ensures Valid() && Contents() == items && fresh(list)
    {
      list := new List.FromSeq(items);
    }

    /** operator=(queue &&): swap the two held lists. */
    method MoveAssign(q: Queue<T>)
      requires Valid() && q.Valid()
      modifies list, q.list
      ensures Valid() && q.Valid()
      ensures Contents() == old(q.Contents()) && q.Contents() == old(Contents())
    {
      list.Swap(q.list);
    }

    /** front(): the front of the held list. */
    function Front(): (v: T)
      reads this, list
      requires Valid() && Contents() != []
      ensures v == Contents()[0]
    {
      list.Front()
    }

    /** back(): the back of the held list. */
    function Back(): (v: T)
      reads this, list
      requires Valid() && Contents() != []
      ensures v == Contents()[|Contents()| - 1]
    {
      list.Back()
    }

    /** empty() */
    function Empty(): (r: bool)
      reads this, list
      requires Valid()
      ensures r <==> Contents() == []
    {
      list.Empty()
    }

    /** size() */
    function Size(): (n: nat)
      reads this, list
      requires Valid()
      ensures n == |Contents()|
    {
      list.Size()
    }

    /** push(value): push_back on the held list, so `value` joins at the back. */
    method Push(v: T)
      requires Valid()
      modifies list
      ensures Valid() && Contents() == old(Contents()) + [v] && Back() == v
    {
      list.PushBack(v);
    }

    /** pop(): pop_front on the held list, removing the front. */
    method Pop()
      requires Valid() && Contents() != []
      modifies list
      ensures Valid() && Contents() == old(Contents()[1..])
    {
      list.PopFront();
    }

    /** swap(other): swap the held lists. */
    method Swap(other: Queue<T>)
      requires Valid() && other.Valid()
      modifies list, other.list
      ensures Valid() && other.Valid()
      ensures Contents() == old(other.Contents()) && other.Contents() == old(Contents())
    {
      list.Swap(other.list);
    }

    /** insert_many_back(args...): insert_many_back on the held list, the items joining at the back in order. */
    method InsertManyBack(items: seq<T>)
      requires Valid()
      modifies list
      ensures Valid() && Contents() == old(Contents()) + items
    {
      list.InsertManyBack(items);
    }
  }

  /**
   * First in, first out: a queue built from 1, 2, 3 shows 1, 2 and 3 at
   * the front as it is popped, and is then empty.
   */
  method PopOrder() returns (fronts: seq<int>, emptyAfter: bool)
    ensures fronts == [1, 2, 3] && emptyAfter
  {
    var q := new Queue.FromSeq([1, 2, 3]);
    fronts := [];
    while !q.Empty()
      invariant fresh(q.list) && q.Valid() && |q.Contents()| <= 3 && q.Contents() == [1, 2, 3][3 - |q.Contents()|..]
      invariant fronts == [1, 2, 3][..3 - |q.Contents()|]
      decreases |q.Contents()|
    {
      fronts := fronts + [q.Front()];
      q.Pop();
    }
    emptyAfter := q.Empty();
  }

  /** insert_many_back on an empty queue gives the items in argument order. */
  method InsertManyOrder() returns (front: int, back: int, size: nat)
    ensures front == 1 && back == 3 && size == 3
  {
    var q := new Queue();
    q.InsertManyBack([1, 2, 3]);
    front, back, size := q.Front(), q.Back(), q.Size();
  }

  /** A copy is independent of the original: popping the copy leaves the original's front in place. */
  method CopyIsIndependent() returns (originalSize: nat, originalFront: int, copySize: nat)
    ensures originalSize == 1 && originalFront == 1 && copySize == 0
  {
    var q1 := new Queue();
    q1.Push(1);
    var q2 := new Queue.Copy(q1);
    q2.Pop();
    originalSize, originalFront, copySize := q1.Size(), q1.Front(), q2.Size();
  }
}
