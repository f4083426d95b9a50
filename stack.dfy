/**
 * s21::stack from containers/s21_stack.h: an adapter holding a list and
 * pushing, popping and reading at its back end.
 */
module Stacks {
  import opened Lists

  class Stack<T(==)> {
    /** list_: the held list; its back is the top of the stack. */
    var list: List<T>

    ghost predicate Valid()
      reads this, list
    {
      list.Valid()
    }

    /** The stack's elements, bottom first. */
    ghost function Contents(): seq<T>
      reads this, list
    {
      list.Contents
    }

    /** stack(): an empty list. */
    constructor ()
      ensures Valid() && Contents() == [] && fresh(list)
    {
      list := new List();
    }

    /** stack(const stack &): a copy of the held list. */
    constructor Copy(q: Stack<T>)
      requires q.Valid()
      ensures Valid() && Contents() == q.Contents() && fresh(list)
    {
      list := new List.Copy(q.list);
    }

    /** stack(stack &&): an empty list, swapped with `q`'s, which leaves `q` empty. */
    constructor Move(q: Stack<T>)
      requires q.Valid()
      modifies q.list
      ensures Valid() && Contents() == old(q.Contents()) && fresh(list)
      ensures q.Valid() && q.Contents() == []
    {
      list := new List();
      new;
      list.Swap(q.list);
    }

    /** stack(initializer_list): a list of the items, the last of them on top. */
    constructor FromSeq(items: seq<T>)
      ensures Valid() && Contents() == items && fresh(list)
    {
      list := new List.FromSeq(items);
    }

    /** operator=(stack &&): swap the two held lists. */
    method MoveAssign(q: Stack<T>)
      requires Valid() && q.Valid()
      modifies list, q.list
      ensures Valid() && q.Valid()
      ensures Contents() == old(q.Contents()) && q.Contents() == old(Contents())
    {
      list.Swap(q.list);
    }

    /** top(): the back of the held list. */
    function Top(): (v: T)
      reads this, list
      requires Valid() && Contents() != []
      ensures v == Contents()[|Contents()| - 1]
    {
      list.Back()
    }

    /** empty() */
    function Empty(): (r: bool)
      reads this, list
      requires Valid()
      ensures r <==> Contents() == []
    {
      list.Empty()
    }

    /** size() */
    function Size(): (n: nat)
      reads this, list
      requires Valid()
      ensures n == |Contents()|
    {
      list.Size()
    }

    /** push(value): push_back on the held list, so `value` is the new top. */
    method Push(v: T)
      requires Valid()
      modifies list
      ensures Valid() && Contents() == old(Contents()) + [v] && Top() == v
    {
      list.PushBack(v);
    }

    /** pop(): pop_back on the held list, removing the top. */
    method Pop()
      requires Valid() && Contents() != []
      modifies list
      ensures Valid() && Contents() == old(Contents()[..|Contents()| - 1])
    {
      list.PopBack();
    }

    /** swap(other): swap the held lists. */
    method Swap(other: Stack<T>)
      requires Valid() && other.Valid()
      modifies list, other.list
      ensures Valid() && other.Valid()
      ensures Contents() == old(other.Contents()) && other.Contents() == old(Contents())
    {
      list.Swap(other.list);
    }

    /**
     * insert_many_front(args...): insert_many_back on the held list, so the
     * items go on top in order and the last of them is the new top.
     */
    method InsertManyFront(items: seq<T>)
      requires Valid()
      modifies list
      ensures Valid() && Contents() == old(Contents()) + items
      ensures items != [] ==> Top() == items[|items| - 1]
    {
      list.InsertManyBack(items);
    }
  }

  /**
   * Last in, first out: a stack built from 1, 2, 3 shows 3, 2 and 1 on top
   * as it is popped, and is then empty.
   */
  method PopOrder() returns (tops: seq<int>, emptyAfter: bool)
    ensures tops == [3, 2, 1] && emptyAfter
  {
    var s := new Stack.FromSeq([1, 2, 3]);
    tops := [];
    while !s.Empty()
      invariant fresh(s.list) && s.Valid() && |s.Contents()| <= 3 && s.Contents() == [1, 2, 3][..|s.Contents()|]
      invariant tops == [3, 2, 1][..3 - |s.Contents()|]
      decreases |s.Contents()|
    {
      tops := tops + [s.Top()];
      s.Pop();
    }
    emptyAfter := s.Empty();
  }

  /** A copy is independent of the original: popping the copy leaves the original's top in place. */
  method CopyIsIndependent() returns (originalSize: nat, originalTop: int, copySize: nat)
    ensures originalSize == 1 && originalTop == 1 && copySize == 0
  {
    var s1 := new Stack();
    s1.Push(1);
    var s2 := new Stack.Copy(s1);
    s2.Pop();
    originalSize, originalTop, copySize := s1.Size(), s1.Top(), s2.Size();
  }
}
