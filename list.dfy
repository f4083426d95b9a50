/**
 * s21::list from containers/s21_list.h: a doubly linked list with head, tail
 * and size fields, its node primitives and its iterator.
 *
 * The list's nodes live in its node store `cells` (see module ListNodes). The
 * ghost fields say which nodes form the list: `Addrs` lists their addresses
 * head first, `Contents` their values, and `Pos` maps an address to its index.
 */
module Lists {
  import opened ListNodes
  import ListSpec

  /**
   * list::ListIterator: a node pointer, null for past-the-end, together with
   * the list it belongs to.
   */
  datatype Iterator<T(==)> = Iterator(owner: List<T>, current: Ptr) {

    /** operator*: the value of the node under the iterator. */
    function Deref(): (v: T)
      reads owner
      requires owner.Valid() && owner.Holds(current)
      ensures v == owner.Contents[owner.Index(current)]
    {
      owner.cells[current.addr].data
    }

    /** operator++: follow the node's `next` link. */
    function Increment(): (it: Iterator<T>)
      reads owner
      requires owner.Valid() && owner.Holds(current)
      ensures it.owner == owner && owner.IsPosition(it.current)
      ensures owner.Index(it.current) == owner.Index(current) + 1
    {
      Iterator(owner, owner.cells[current.addr].next)
    }

    /**
     * operator--: follow the node's `prev` link; past-the-end steps back onto
     * the tail, and the head steps onto past-the-end.
     */
    function Decrement(): (it: Iterator<T>)
      reads owner
      requires owner.Valid() && owner.IsPosition(current)
      ensures it.owner == owner && owner.IsPosition(it.current)
      ensures owner.Index(it.current) ==
        if owner.Index(current) == 0 then |owner.Contents| else owner.Index(current) - 1
    {
      if current != Null then Iterator(owner, owner.cells[current.addr].prev)
      else Iterator(owner, owner.tail)
    }

    /**
     * operator==: the same node, or both past-the-end of lists with the same
     * tail. On one list this is equality of positions.
     */
    function Equals(other: Iterator<T>): (r: bool)
      reads owner, other.owner
      ensures owner == other.owner && owner.Valid() && owner.IsPosition(current) && owner.IsPosition(other.current)
        ==> (r <==> owner.Index(current) == owner.Index(other.current))
    {
      current == other.current && (current != Null || owner.tail == other.owner.tail)
    }

    /**
     * InsertBefore: link the node at address `a` in front of the iterator's
     * node, between it and its predecessor; past-the-end, after the tail.
     */
    method InsertBefore(a: nat)
      requires owner.Valid() && owner.IsPosition(current) && a < |owner.cells|
      modifies owner`cells
      ensures |owner.cells| == old(|owner.cells|)
      ensures var p := PtrAt(owner.Addrs, owner.Index(current) - 1);
        forall b :: 0 <= b < |owner.cells| ==> owner.cells[b] == Relinked(old(owner.cells[b]), b, a, p, current)
    {
      owner.IndexOfPosition(current);
      if current != Null {
        ghost var k := owner.Index(current);
        assert owner.cells[owner.Addrs[k]].prev == PtrAt(owner.Addrs, k - 1);
        owner.InsertBetween(a, owner.cells[current.addr].prev, current);
      } else {
        owner.InsertBetween(a, owner.tail, current);
      }
    }

    /** operator!=: written out on its own in the source; it is the negation of Equals. */
    function NotEquals(other: Iterator<T>): (r: bool)
      reads owner, other.owner
      ensures r == !Equals(other)
    {
      current != other.current || (current == Null && owner.tail != other.owner.tail)
    }
  }

  class List<T(==)> {
    var head: Ptr
    var tail: Ptr
    var size: nat
    /** The node store: every node this list has allocated, by address. */
    var cells: seq<Node<T>>
    ghost var Addrs: seq<nat>
    ghost var Contents: seq<T>
    ghost var Pos: map<nat, int>

    /**
     * `size` counts the nodes, `head` and `tail` point at the first and last of
     * them (both null when there are none), and the nodes form a chain holding
     * `Contents`.
     */
    ghost predicate Valid()
      reads this
    {
      Linked(head, tail, size, cells, Addrs, Contents, Pos)
    }

    /** `p` points at one of the list's nodes. */
    ghost predicate Holds(p: Ptr)
      reads this
    {
      p.Ref? && p.addr in Pos && 0 <= Pos[p.addr] < |Addrs| && Addrs[Pos[p.addr]] == p.addr
    }

    /** `p` is a position of the list: one of its nodes, or past-the-end. */
    ghost predicate IsPosition(p: Ptr)
      reads this
    {
      p == Null || Holds(p)
    }

    /** The index of a position; past-the-end is index `|Contents|`. */
    ghost function Index(p: Ptr): int
      reads this
    {
      if p.Ref? && p.addr in Pos then Pos[p.addr] else |Addrs|
    }

    /**
     * The shape `Valid` gives: the size is zero exactly when head and tail
     * are null, the head has no `prev` and the tail no `next`, and walking
     * `next` from the head meets `size` distinct nodes, the last of them the
     * tail, before it reaches null; walking `prev` from the tail meets them
     * in the opposite order.
     */
    lemma ValidShape()
      requires Valid()
      ensures size == 0 <==> head == Null
      ensures size == 0 <==> tail == Null
      ensures size > 0 ==> head.addr < |cells| && cells[head.addr].prev == Null
      ensures size > 0 ==> tail.addr < |cells| && cells[tail.addr].next == Null
      ensures forall i :: 0 <= i < size ==> FollowNext(cells, head, i) == Ref(Addrs[i]) == FollowPrev(cells, tail, size - 1 - i)
      ensures size > 0 ==> FollowNext(cells, head, size - 1) == tail
      ensures FollowNext(cells, head, size) == Null && FollowPrev(cells, tail, size) == Null
      ensures forall i, j :: 0 <= i < j < size ==> Addrs[i] != Addrs[j]
    {
      forall i | 0 <= i < size
        ensures FollowNext(cells, head, i) == Ref(Addrs[i]) == FollowPrev(cells, tail, size - 1 - i)
      {
        WalkNext(cells, Addrs, Contents, Pos, 0, i);
        WalkPrev(cells, Addrs, Contents, Pos, size - 1, size - 1 - i);
      }
      WalkNext(cells, Addrs, Contents, Pos, 0, size);
      WalkPrev(cells, Addrs, Contents, Pos, size - 1, size);
      if size > 0 {
        assert cells[Addrs[0]].prev == Null && cells[Addrs[size - 1]].next == Null;
      }
      forall i, j | 0 <= i < j < size ensures Addrs[i] != Addrs[j] {
        ChainDistinct(cells, Addrs, Contents, Pos, i, j);
      }
    }

    /** Every index from 0 to the length names exactly one position. */
    lemma PositionAt(i: int)
      requires Valid() && 0 <= i <= |Contents|
      ensures IsPosition(PtrAt(Addrs, i)) && Index(PtrAt(Addrs, i)) == i
    {
    }

    /** A position's index lies between 0 and the length, and names that position. */
    lemma IndexOfPosition(p: Ptr)
      requires Valid() && IsPosition(p)
      ensures 0 <= Index(p) <= |Contents| && PtrAt(Addrs, Index(p)) == p
    {
    }

    /** A position at or after an insertion point moves one index up. */
    lemma PositionAfterInsert(p: Ptr, m: int, A: seq<nat>, k: int, a: nat)
      requires Valid() && 0 <= k <= m <= |A| && p == PtrAt(A, m) && Addrs == A[..k] + [a] + A[k..]
      ensures IsPosition(p) && Index(p) == m + 1
    {
      if m < |A| {
        assert Addrs[m + 1] == A[m];
      }
    }

    /** A position after a removed index moves one index down. */
    lemma PositionAfterRemove(p: Ptr, m: int, A: seq<nat>, k: int)
      requires Valid() && 0 <= k < m <= |A| && p == PtrAt(A, m) && Addrs == A[..k] + A[k + 1..]
      ensures IsPosition(p) && Index(p) == m - 1
    {
      if m < |A| {
        assert Addrs[m - 1] == A[m];
      }
    }

    // ---- construction and assignment ----

    /** list(): no nodes. */
    constructor ()
      ensures Valid() && Contents == []
    {
      head, tail, size, cells := Null, Null, 0, [];
      Addrs, Contents, Pos := [], [], map[];
    }

    /** list(n): `n` push_backs of the default value `init` (T() in the source). */
    constructor OfSize(n: nat, init: T)
      ensures Valid() && Contents == seq(n, _ => init)
    {
      head, tail, size, cells := Null, Null, 0, [];
      Addrs, Contents, Pos := [], [], map[];
      new;
      for i := 0 to n
        invariant Valid() && Contents == seq(i, _ => init)
      {
        PushBack(init);
      }
      size := n;
    }

    /** list(initializer_list): push_back of every item in order. */
    constructor FromSeq(items: seq<T>)
      ensures Valid() && Contents == items
    {
      head, tail, size, cells := Null, Null, 0, [];
      Addrs, Contents, Pos := [], [], map[];
      new;
      for i := 0 to |items|
        invariant Valid() && Contents == items[..i]
      {
        PushBack(items[i]);
      }
    }

    /** list(const list &): push_back of every element of `l`, walking it with an iterator. */
    constructor Copy(l: List<T>)
      requires l.Valid()
      ensures Valid() && Contents == l.Contents
    {
      head, tail, size, cells := Null, Null, 0, [];
      Addrs, Contents, Pos := [], [], map[];
      new;
      AppendAll(l);
    }

    /** list(list &&): take over the nodes of `l`, which is left empty. */
    constructor Move(l: List<T>)
      requires l.Valid()
      modifies l
      ensures Valid() && Contents == old(l.Contents)
      ensures l.Valid() && l.Contents == []
    {
      head, tail, size, cells := l.head, l.tail, l.size, l.cells;
      Addrs, Contents, Pos := l.Addrs, l.Contents, l.Pos;
      new;
      l.head, l.tail, l.size := Null, Null, 0;
      l.Addrs, l.Contents, l.Pos := [], [], map[];
    }

    /**
     * second_part in Divide: an empty list whose fields are then set to a
     * chain cut off another list.
     */
    constructor Adopt(h: Ptr, t: Ptr, n: nat, c: seq<Node<T>>, ghost A: seq<nat>, ghost C: seq<T>, ghost P: map<nat, int>)
      requires Linked(h, t, n, c, A, C, P)
      ensures Valid() && head == h && tail == t && size == n && cells == c && Contents == C
    {
      head, tail, size, cells := h, t, n, c;
      Addrs, Contents, Pos := A, C, P;
    }

    /** The copy loop shared by the copy constructor and copy assignment. */
    method AppendAll(l: List<T>)
      requires Valid() && l.Valid() && l != this
      modifies this
      ensures Valid() && Contents == old(Contents) + l.Contents
    {
      var iter := l.Begin();
      while iter.NotEquals(l.End())
        invariant Valid() && iter.owner == l && l.IsPosition(iter.current)
        invariant 0 <= l.Index(iter.current) <= |l.Contents|
        invariant Contents == old(Contents) + l.Contents[..l.Index(iter.current)]
        decreases |l.Contents| - l.Index(iter.current)
      {
        assert l.Holds(iter.current);
        PushBack(iter.Deref());
        assert l.Contents[..l.Index(iter.current) + 1] == l.Contents[..l.Index(iter.current)] + [iter.Deref()];
        iter := iter.Increment();
      }
      assert l.Contents[..|l.Contents|] == l.Contents;
    }

    /** operator=(const list &): unless `l` is this list, clear and copy `l`'s elements. */
    method CopyAssign(l: List<T>)
      requires Valid() && l.Valid()
      modifies this
      ensures Valid() && Contents == old(l.Contents)
    {
      if this == l {
        return;
      }
      Clear();
      AppendAll(l);
    }

    /** operator=(list &&): unless `l` is this list, clear and take over `l`'s nodes. */
    method MoveAssign(l: List<T>)
      requires Valid() && l.Valid()
      modifies this, l
      ensures Valid() && l.Valid() && Contents == old(l.Contents)
      ensures l != this ==> l.Contents == []
    {
      if this == l {
        return;
      }
      Clear();
      head, tail, size, cells := l.head, l.tail, l.size, l.cells;
      Addrs, Contents, Pos := l.Addrs, l.Contents, l.Pos;
      l.head, l.tail, l.size := Null, Null, 0;
      l.Addrs, l.Contents, l.Pos := [], [], map[];
    }

    /** operator=(initializer_list): clear, then push_back every item. */
    method AssignSeq(items: seq<T>)
      requires Valid()
      modifies this
      ensures Valid() && Contents == items
    {
      Clear();
      for i := 0 to |items|
        invariant Valid() && Contents == items[..i]
      {
        PushBack(items[i]);
      }
    }

    /** swap: std::swap, a move construction and two move assignments. */
    method Swap(other: List<T>)
      requires Valid() && other.Valid()
      modifies this, other
      ensures Valid() && other.Valid()
      ensures Contents == old(other.Contents) && other.Contents == old(Contents)
    {
      var temp := new List.Move(this);
      MoveAssign(other);
      other.MoveAssign(temp);
    }

    // ---- observers ----

    /** front(): the head node's value. */
    function Front(): (v: T)
      reads this
      requires Valid() && size > 0
      ensures v == Contents[0]
    {
      cells[head.addr].data
    }

    /** back(): the tail node's value. */
    function Back(): (v: T)
      reads this
      requires Valid() && size > 0
      ensures v == Contents[|Contents| - 1]
    {
      cells[tail.addr].data
    }

    /** empty() */
    function Empty(): (r: bool)
      reads this
      requires Valid()
      ensures r <==> Contents == []
    {
      size == 0
    }

    /** size() */
    function Size(): (n: nat)
      reads this
      requires Valid()
      ensures n == |Contents|
    {
      size
    }

    /** begin(): an iterator to the head, index 0. */
    function Begin(): (it: Iterator<T>)
      reads this
      requires Valid()
      ensures it.owner == this && IsPosition(it.current) && Index(it.current) == 0
    {
      Iterator(this, head)
    }

    /** end(): the past-the-end iterator, index `|Contents|`. */
    function End(): (it: Iterator<T>)
      reads this
      requires Valid()
      ensures it.owner == this && IsPosition(it.current) && Index(it.current) == |Contents|
    {
      Iterator(this, Null)
    }

    // ---- node primitives ----

    /** The fields after a pointer surgery: head, tail and size of the chain now in the store. */
    method SetChain(h: Ptr, t: Ptr, n: nat, c: seq<Node<T>>, ghost A: seq<nat>, ghost C: seq<T>, ghost P: map<nat, int>)
      requires Linked(h, t, n, c, A, C, P)
      modifies this
      ensures Valid() && head == h && tail == t && size == n && cells == c
      ensures Addrs == A && Contents == C && Pos == P
    {
      head, tail, size, cells := h, t, n, c;
      Addrs, Contents, Pos := A, C, P;
    }

    /**
     * Node::InsertBetween: the node at `a` takes `p` and `n` as its links, and
     * `p` (when not null) points forward to it, `n` (when not null) back to it.
     */
    method InsertBetween(a: nat, p: Ptr, n: Ptr)
      requires a < |cells| && (p.Ref? ==> p.addr < |cells|) && (n.Ref? ==> n.addr < |cells|)
      modifies this`cells
      ensures |cells| == old(|cells|)
      ensures forall b :: 0 <= b < |cells| ==> cells[b] == Relinked(old(cells[b]), b, a, p, n)
    {
      cells := cells[a := cells[a].(prev := p, next := n)];
      if p != Null {
        cells := cells[p.addr := cells[p.addr].(next := Ref(a))];
      }
      if n != Null {
        cells := cells[n.addr := cells[n.addr].(prev := Ref(a))];
      }
    }

    /**
     * Extract(Node *): unlink the node `p` and return it detached. Its
     * neighbours are joined, and head or tail moves when it was at an end.
     */
    method Extract(p: Ptr) returns (node: Node<T>)
      requires Valid() && Holds(p)
      modifies this
      ensures Valid()
      ensures var k := old(Index(p));
        && Addrs == old(Addrs[..k] + Addrs[k + 1..]) && Contents == old(Contents[..k] + Contents[k + 1..])
        && node == Node(old(Contents[k]), Null, Null)
      ensures |cells| == old(|cells|)
    {
      ghost var k := Pos[p.addr];
      ghost var A, C, P := Addrs, Contents, Pos;
      var c, h, t := cells, head, tail;
      var n := c[p.addr];
      assert n == c[A[k]];
      if p == h {
        h := c[h.addr].next;
      }
      if p == t {
        t := c[t.addr].prev;
      }
      if n.prev != Null {
        assert P[A[k - 1]] == k - 1;
        c := c[n.prev.addr := c[n.prev.addr].(next := n.next)];
      }
      if n.next != Null {
        assert P[A[k + 1]] == k + 1;
        c := c[n.next.addr := c[n.next.addr].(prev := n.prev)];
      }
      node := n.(prev := Null, next := Null);
      c := c[p.addr := node];
      LinkedRemove(head, tail, size, cells, A, C, P, k, h, t, c);
      SetChain(h, t, size - 1, c, A[..k] + A[k + 1..], C[..k] + C[k + 1..], RemovePos(P, k));
    }

    /** Erase(Node *): extract the node and delete it. */
    method EraseNode(p: Ptr)
      requires Valid() && Holds(p)
      modifies this
      ensures Valid()
      ensures var k := old(Index(p));
        Addrs == old(Addrs[..k] + Addrs[k + 1..]) && Contents == old(Contents[..k] + Contents[k + 1..])
    {
      var erased := Extract(p);
    }

    /**
     * The part insert(pos, value) and Insert(pos, Node *) share for a
     * non-empty list: InsertBefore, then head or tail moves onto the node
     * when `pos` was the head or past-the-end, and the size grows. The node
     * handed over is placed at a fresh address of this list's store.
     */
    method LinkBefore(pos: Iterator<T>, node: Node<T>) returns (it: Iterator<T>)
      requires Valid() && size > 0 && pos.owner == this && IsPosition(pos.current)
      requires node.prev == Null && node.next == Null
      modifies this
      ensures Valid()
      ensures var k := old(Index(pos.current));
        && Contents == old(Contents[..k]) + [node.data] + old(Contents[k..])
        && Addrs == old(Addrs[..k]) + [old(|cells|)] + old(Addrs[k..])
        && it == Iterator(this, Ref(old(|cells|)))
        && IsPosition(pos.current) && Index(pos.current) == k + 1
    {
      IndexOfPosition(pos.current);
      ghost var k := Index(pos.current);
      ghost var A, C, P, cells0 := Addrs, Contents, Pos, cells;
      var inserted := Ref(|cells|);
      var h, t := head, tail;
      cells := cells + [node];
      ChainGrow(cells0, A, C, P, node);
      pos.InsertBefore(inserted.addr);
      if pos.Equals(Iterator(this, head)) {
        h := inserted;
      } else if pos.Equals(Iterator(this, Null)) {
        t := inserted;
      }
      LinkedInsert(head, tail, size, cells0, A, C, P, k, node.data, h, t, cells);
      ghost var A', C', P' := A[..k] + [|cells0|] + A[k..], C[..k] + [node.data] + C[k..], InsertPos(P, k, |cells0|);
      assert Linked(h, t, size + 1, cells, A', C', P');
      if pos.current != Null {
        assert A'[k + 1] == A[k] && P'[A[k]] == k + 1;
      }
      SetChain(h, t, size + 1, cells, A', C', P');
      it := Iterator(this, inserted);
    }

    /**
     * Insert(iterator, Node *): link a detached node in before `pos`; into an
     * empty list it becomes head and tail.
     */
    method InsertNode(pos: Iterator<T>, node: Node<T>) returns (it: Iterator<T>)
      requires Valid() && pos.owner == this && IsPosition(pos.current)
      requires node.prev == Null && node.next == Null
      modifies this
      ensures Valid()
      ensures var k := old(Index(pos.current));
        && Contents == old(Contents[..k]) + [node.data] + old(Contents[k..])
        && Addrs == old(Addrs[..k]) + [old(|cells|)] + old(Addrs[k..])
        && it == Iterator(this, Ref(old(|cells|)))
        && IsPosition(pos.current) && Index(pos.current) == k + 1
    {
      if size == 0 {
        ghost var A, C, P, cells0 := Addrs, Contents, Pos, cells;
        var p := Ref(|cells|);
        cells := cells + [node];
        LinkedInsert(head, tail, size, cells0, A, C, P, 0, node.data, p, p, cells);
        SetChain(p, p, 1, cells, [|cells0|], [node.data], InsertPos(P, 0, |cells0|));
        it := Begin();
        return;
      }
      it := LinkBefore(pos, node);
    }

    // ---- element operations ----

    /**
     * insert(pos, value): a new node holding `value` goes in before `pos`, and
     * the result points at it. An empty list takes the value by push_back.
     */
    method Insert(pos: Iterator<T>, v: T) returns (it: Iterator<T>)
      requires Valid() && pos.owner == this && IsPosition(pos.current)
      modifies this
      ensures Valid()
      ensures var k := old(Index(pos.current));
        && Contents == old(Contents[..k]) + [v] + old(Contents[k..])
        && Addrs == old(Addrs[..k]) + [old(|cells|)] + old(Addrs[k..])
        && it == Iterator(this, Ref(old(|cells|)))
        && IsPosition(pos.current) && Index(pos.current) == k + 1
    {
      if size == 0 {
        PushBack(v);
        it := Begin();
        return;
      }
      it := LinkBefore(pos, Node(v, Null, Null));
    }

    /** erase(pos): remove the node under `pos`. */
    method Erase(pos: Iterator<T>)
      requires Valid() && pos.owner == this && Holds(pos.current)
      modifies this
      ensures Valid()
      ensures var k := old(Index(pos.current)); Contents == old(Contents[..k] + Contents[k + 1..])
    {
      EraseNode(pos.current);
    }

    /**
     * clear() / DestroyAllNodes: walk the `next` links from the head, deleting
     * every node, then reset head, tail and size. The walk meets exactly
     * `size` nodes, in list order, before it reaches null.
     */
    method Clear()
      requires Valid()
      modifies this
      ensures Valid() && Contents == [] && cells == []
    {
      var current := head;
      ghost var visited: seq<nat> := [];
      while current != Null
        invariant |visited| <= |Addrs| && visited == Addrs[..|visited|]
        invariant current == PtrAt(Addrs, |visited|)
        decreases |Addrs| - |visited|
      {
        visited := visited + [current.addr];
        current := cells[current.addr].next;
      }
      assert visited == Addrs;
      head, tail, size := Null, Null, 0;
      cells := [];
      Addrs, Contents, Pos := [], [], map[];
    }

    // ---- algorithms ----

    /**
     * merge(other): walk this list with a cursor. While `other` has nodes,
     * move its head in before the cursor when the cursor is past-the-end or
     * its element is greater than that head, the cursor then standing on the
     * moved node; otherwise advance the cursor. Merging a list into itself
     * does nothing. `x > y` on elements is `key(x) > key(y)`.
     */
    method Merge(other: List<T>, key: T -> int)
      requires Valid() && other.Valid()
      modifies this, other
      ensures Valid() && other.Valid()
      ensures this == other ==> Contents == old(Contents)
      ensures this != other ==> Contents == ListSpec.MergeWalk(old(Contents), old(other.Contents), key) && other.Contents == []
      ensures this != other ==> multiset(Contents) == multiset(old(Contents)) + multiset(old(other.Contents))
      ensures this != other && ListSpec.Sorted(old(Contents), key) && ListSpec.Sorted(old(other.Contents), key) ==>
        Contents == ListSpec.Merge(old(Contents), old(other.Contents), key) && ListSpec.Sorted(Contents, key)
    {
      if this == other {
        return;
      }
      ghost var C0, O0 := Contents, other.Contents;
      var iter := Begin();
      ghost var W := ListSpec.MergeWalk(Contents, other.Contents, key);
      while other.Size() > 0
        invariant Valid() && other.Valid() && iter.owner == this && IsPosition(iter.current)
        invariant 0 <= Index(iter.current) <= |Contents|
        invariant Contents[..Index(iter.current)] + ListSpec.MergeWalk(Contents[Index(iter.current)..], other.Contents, key) == W
        decreases |other.Contents|, |Contents| - Index(iter.current)
      {
        iter := MergeStep(iter, other, key, W);
      }
      ghost var k := Index(iter.current);
      ListSpec.MergeWalkDone(Contents, k, other.Contents, key);
      ListSpec.MergeWalkPermutation(C0, O0, key);
      if ListSpec.Sorted(C0, key) && ListSpec.Sorted(O0, key) {
        ListSpec.MergeOfSortedLists(C0, O0, key);
      }
    }

    /**
     * One pass of merge's loop: the head of `other` moves in before the
     * cursor when the cursor is past-the-end or its element is greater than
     * that head, the cursor then standing on the moved node; otherwise the
     * cursor advances. What is left to do, as MergeWalk computes it, does
     * not change, and either `other` or the part after the cursor shrinks.
     */
    method MergeStep(iter: Iterator<T>, other: List<T>, key: T -> int, ghost W: seq<T>) returns (next: Iterator<T>)
      requires Valid() && other.Valid() && this != other && iter.owner == this && IsPosition(iter.current)
      requires other.size > 0
      requires Contents[..Index(iter.current)] + ListSpec.MergeWalk(Contents[Index(iter.current)..], other.Contents, key) == W
      modifies this, other
      ensures Valid() && other.Valid() && next.owner == this && IsPosition(next.current)
      ensures 0 <= Index(next.current) <= |Contents|
      ensures Contents[..Index(next.current)] + ListSpec.MergeWalk(Contents[Index(next.current)..], other.Contents, key) == W
      ensures |other.Contents| < old(|other.Contents|)
        || (|other.Contents| == old(|other.Contents|) && |Contents| - Index(next.current) < old(|Contents| - Index(iter.current)))
    {
      ghost var k, C, O := Index(iter.current), Contents, other.Contents;
      IndexOfPosition(iter.current);
      if iter.Equals(End()) || key(iter.Deref()) > key(other.Front()) {
        ListSpec.MergeWalkMoveStep(C, O, k, key);
        next := TakeFront(iter, other);
      } else {
        ListSpec.MergeWalkSkipStep(C, O, k, key);
        next := iter.Increment();
      }
    }

    /**
     * Insert(pos, other.Extract(other.begin())), the step shared by merge and
     * splice: the head node of `other` moves in before `pos`. The result
     * points at the moved node, and `pos` now stands one index further on.
     */
    method TakeFront(pos: Iterator<T>, other: List<T>) returns (it: Iterator<T>)
      requires Valid() && other.Valid() && this != other && pos.owner == this && IsPosition(pos.current)
      requires other.size > 0
      modifies this, other
      ensures Valid() && other.Valid()
      ensures var k := old(Index(pos.current));
        && Contents == old(Contents[..k]) + [old(other.Contents[0])] + old(Contents[k..])
        && other.Contents == old(other.Contents[1..])
        && it.owner == this && IsPosition(it.current) && Index(it.current) == k
        && IsPosition(pos.current) && Index(pos.current) == k + 1
    {
      ghost var k, A, a := Index(pos.current), Addrs, |cells|;
      IndexOfPosition(pos.current);
      var node := other.Extract(other.head);
      it := InsertNode(pos, node);
      assert Addrs[k] == a;
      PositionAt(k);
    }

    /**
     * splice(pos, other): move the nodes of `other`, front first, in before
     * `pos`. The iterator is not advanced, so they keep their order.
     */
    method Splice(pos: Iterator<T>, other: List<T>)
      requires Valid() && other.Valid() && this != other && pos.owner == this && IsPosition(pos.current)
      modifies this, other
      ensures Valid() && other.Valid() && other.Contents == []
      ensures var k := old(Index(pos.current)); Contents == old(Contents[..k]) + old(other.Contents) + old(Contents[k..])
    {
      var iter := Iterator(this, pos.current);
      ghost var k, C0, O0 := Index(pos.current), Contents, other.Contents;
      IndexOfPosition(pos.current);
      ghost var t := 0;
      assert C0[..k] + O0[..0] + C0[k..] == C0;
      while other.Size() > 0
        invariant Valid() && other.Valid() && iter.owner == this && IsPosition(iter.current)
        invariant 0 <= t <= |O0| && other.Contents == O0[t..]
        invariant Contents == C0[..k] + O0[..t] + C0[k..]
        invariant Index(iter.current) == k + t
        decreases |O0| - t
      {
        ListSpec.SpliceStep(C0, O0, k, t);
        var moved := TakeFront(iter, other);
        t := t + 1;
      }
      assert O0[..t] == O0;
    }

    /**
     * reverse: walk from the head exchanging every node's two links (the
     * walk goes on through the old `next`, now `prev`), then exchange head
     * and tail.
     */
    method Reverse()
      requires Valid()
      modifies this
      ensures Valid() && Contents == ListSpec.Reversed(old(Contents))
    {
      ghost var A, C, P := Addrs, Contents, Pos;
      var c := cells;
      var current := head;
      ghost var i := 0;
      while current != Null
        invariant 0 <= i <= |A| && current == PtrAt(A, i) && |c| == |cells|
        invariant forall j {:trigger c[A[j]]} :: 0 <= j < |A| ==> c[A[j]] == if j < i then Flipped(cells[A[j]]) else cells[A[j]]
        decreases |A| - i
      {
        assert cells[A[i]] == Node(C[i], PrevOf(A, i), NextOf(A, i));
        var n := c[current.addr];
        c := c[current.addr := n.(prev := n.next, next := n.prev)];
        current := c[current.addr].prev;
        forall j | 0 <= j < |A| && j != i ensures A[j] != A[i] {
          assert P[A[j]] == j && P[A[i]] == i;
        }
        i := i + 1;
      }
      LinkedReverse(head, tail, size, cells, A, C, P, c);
      cells := c;
      head, tail := tail, head;
      Addrs, Contents, Pos := ListSpec.Reversed(A), ListSpec.Reversed(C), ReversePos(P, |A|);
    }

    /**
     * unique: from the second node on, compare each node with the one before
     * it and erase the one before when they are equal, so each run of equal
     * neighbours keeps its last node. Lists shorter than two are left alone.
     */
    method Unique()
      requires Valid()
      modifies this
      ensures Valid() && Contents == ListSpec.Dedup(old(Contents))
    {
      if size < 2 {
        return;
      }
      ghost var S := Contents;
      var iter := Begin();
      PositionAt(0);
      iter := iter.Increment();
      ghost var j := 1;
      assert S[..1] == [S[0]];
      while iter.NotEquals(End())
        invariant Valid() && iter.owner == this && IsPosition(iter.current)
        invariant 1 <= j <= |S| && Contents == ListSpec.Dedup(S[..j]) + S[j..]
        invariant Index(iter.current) == |ListSpec.Dedup(S[..j])|
        decreases |S| - j
      {
        iter := UniqueStep(iter, S, j);
        j := j + 1;
      }
      assert S[..|S|] == S;
    }

    /**
     * One pass of unique's loop: erase the node before the cursor when it
     * holds the same value as the node under it, then advance the cursor.
     * With the first `j` elements of `S` deduplicated before, the first
     * `j + 1` are after.
     */
    method UniqueStep(iter: Iterator<T>, ghost S: seq<T>, ghost j: int) returns (next: Iterator<T>)
      requires Valid() && iter.owner == this && Holds(iter.current)
      requires 1 <= j < |S| && Contents == ListSpec.Dedup(S[..j]) + S[j..] && Index(iter.current) == |ListSpec.Dedup(S[..j])|
      modifies this
      ensures Valid() && next.owner == this && IsPosition(next.current)
      ensures Contents == ListSpec.Dedup(S[..j + 1]) + S[j + 1..] && Index(next.current) == |ListSpec.Dedup(S[..j + 1])|
    {
      ListSpec.UniqueWalkStep(S, j, Contents);
      EraseEqualPrevious(iter);
      next := iter.Increment();
    }

    /**
     * The body of unique's loop: erase the node before `pos` when it holds
     * the same value as the node under `pos`.
     */
    method EraseEqualPrevious(pos: Iterator<T>)
      requires Valid() && pos.owner == this && Holds(pos.current) && Index(pos.current) > 0
      modifies this
      ensures Valid() && Holds(pos.current)
      ensures var m := old(Index(pos.current));
        if old(Contents[m] == Contents[m - 1])
        then Contents == old(Contents[..m - 1] + Contents[m..]) && Index(pos.current) == m - 1
        else Contents == old(Contents) && Index(pos.current) == m
    {
      ghost var m, A := Index(pos.current), Addrs;
      IndexOfPosition(pos.current);
      var prev := pos.Decrement();
      if pos.Deref() == prev.Deref() {
        EraseNode(prev.current);
        PositionAfterRemove(pos.current, m, A, m - 1);
      }
    }

    /**
     * sort: a merge sort. Divide off the second half, sort both halves
     * recursively, and merge the second into the first.
     */
    method Sort(key: T -> int)
      requires Valid()
      modifies this
      ensures Valid() && Contents == ListSpec.MergeSort(old(Contents), key)
      ensures ListSpec.Sorted(Contents, key) && multiset(Contents) == multiset(old(Contents))
      ensures forall k :: ListSpec.KeyFilter(Contents, key, k) == ListSpec.KeyFilter(old(Contents), key, k)
      decreases |Contents|
    {
      ghost var S := Contents;
      ListSpec.MergeSortSorted(S, key);
      ListSpec.MergeSortPermutation(S, key);
      forall k ensures ListSpec.KeyFilter(ListSpec.MergeSort(S, key), key, k) == ListSpec.KeyFilter(S, key, k) {
        ListSpec.MergeSortStable(S, key, k);
      }
      if size < 2 {
        return;
      }
      var secondHalf := Divide();
      Sort(key);
      secondHalf.Sort(key);
      Merge(secondHalf, key);
    }

    /**
     * Divide: walk `slow` one node and `fast` two nodes at a time from the
     * head until `fast` has fewer than two successors, then cut the chain
     * after `slow`. This list keeps the first ceil(n/2) nodes, and the
     * returned list takes the rest; lists shorter than two give nothing
     * away. (The returned list shares the node memory; here it receives a
     * copy of the store, in which its nodes keep their addresses.)
     */
    method Divide() returns (second: List<T>)
      requires Valid()
      modifies this
      ensures fresh(second) && Valid() && second.Valid()
      ensures var n := |old(Contents)|; var h := ListSpec.FirstHalfLength(n);
        if n > 1 then Contents == old(Contents[..h]) && second.Contents == old(Contents[h..])
        else Contents == old(Contents) && second.Contents == []
    {
      if size > 1 {
        ghost var A, C, P := Addrs, Contents, Pos;
        var slow, newSize := Middle();
        var c := cells;
        var secondHead := c[slow.addr].next;
        assert secondHead == Ref(A[newSize]);
        c := c[secondHead.addr := c[secondHead.addr].(prev := Null)];
        c := c[slow.addr := c[slow.addr].(next := Null)];
        var t, n := tail, size;
        LinkedSplit(head, t, n, cells, A, C, P, newSize, c);
        tail, size, cells := slow, newSize, c;
        Addrs, Contents := A[..newSize], C[..newSize];
        assert Valid();
        second := new List.Adopt(secondHead, t, n - newSize, c, A[newSize..], C[newSize..], ShiftPos(P, newSize));
      } else {
        second := new List();
      }
    }

    /**
     * The walk in Divide: `slow` steps one node and `fast` two from the head
     * while `fast` has two successors; `slow` ends on node ceil(n/2) - 1,
     * and `newSize` counts the nodes up to it.
     */
    method Middle() returns (slow: Ptr, newSize: nat)
      requires Valid() && size > 1
      ensures 0 < newSize < |Addrs| && newSize == ListSpec.FirstHalfLength(|Contents|)
      ensures slow == Ref(Addrs[newSize - 1])
    {
      ghost var A := Addrs;
      var fast := head;
      slow := head;
      newSize := 1;
      while cells[fast.addr].next != Null && cells[cells[fast.addr].next.addr].next != Null
        invariant 1 <= newSize && 2 * (newSize - 1) < |A|
        invariant slow == Ref(A[newSize - 1]) && fast == Ref(A[2 * (newSize - 1)])
        decreases |A| - 2 * newSize
      {
        assert cells[A[2 * newSize - 1]].next == NextOf(A, 2 * newSize - 1);
        fast := cells[cells[fast.addr].next.addr].next;
        slow := cells[slow.addr].next;
        newSize := newSize + 1;
      }
      if 2 * newSize - 1 < |A| {
        assert cells[A[2 * newSize - 1]].next == NextOf(A, 2 * newSize - 1);
      }
    }

    /**
     * insert_many(pos, args...): insert each item in turn before `pos`,
     * then step back once per item, onto the first inserted node.
     */
    method InsertMany(pos: Iterator<T>, items: seq<T>) returns (it: Iterator<T>)
      requires Valid() && pos.owner == this && IsPosition(pos.current)
      modifies this
      ensures Valid()
      ensures var k := old(Index(pos.current));
        && Contents == old(Contents[..k]) + items + old(Contents[k..])
        && it.owner == this && IsPosition(it.current) && Index(it.current) == k
    {
      var iter := Iterator(this, pos.current);
      ghost var k, C0 := Index(pos.current), Contents;
      for i := 0 to |items|
        invariant Valid() && iter.owner == this && IsPosition(iter.current)
        invariant Contents == C0[..k] + items[..i] + C0[k..]
        invariant Index(iter.current) == k + i
      {
        ListSpec.SpliceStep(C0, items, k, i);
        var inserted := Insert(iter, items[i]);
      }
      for i := 0 to |items|
        invariant Valid() && iter.owner == this && IsPosition(iter.current)
        invariant Index(iter.current) == k + |items| - i
      {
        iter := iter.Decrement();
      }
      it := iter;
    }

    /** insert_many_back(args...): push_back of each item in turn. */
    method InsertManyBack(items: seq<T>)
      requires Valid()
      modifies this
      ensures Valid() && Contents == old(Contents) + items
    {
      ghost var C0 := Contents;
      for i := 0 to |items|
        invariant Valid() && Contents == C0 + items[..i]
      {
        PushBack(items[i]);
        assert items[..i + 1] == items[..i] + [items[i]];
      }
      assert items[..|items|] == items;
    }

    /** insert_many_front(args...): insert_many before the head. */
    method InsertManyFront(items: seq<T>)
      requires Valid()
      modifies this
      ensures Valid() && Contents == items + old(Contents)
    {
      var first := InsertMany(Begin(), items);
    }

    // ---- ends ----

    /** push_back: a node linked after the tail becomes the tail. */
    method PushBack(v: T)
      requires Valid()
      modifies this
      ensures Valid() && Contents == old(Contents) + [v]
      ensures Addrs == old(Addrs) + [old(|cells|)]
    {
      ghost var A, C, P, cells0 := Addrs, Contents, Pos, cells;
      var node := Ref(|cells|);
      cells := cells + [Node(v, tail, Null)];
      InsertBetween(node.addr, tail, Null);
      var h := if size == 0 then node else head;
      LinkedInsert(head, tail, size, cells0, A, C, P, |A|, v, h, node, cells);
      assert A[..|A|] == A && C[..|C|] == C;
      SetChain(h, node, size + 1, cells, A + [|cells0|], C + [v], InsertPos(P, |A|, |cells0|));
    }

    /** push_front: a node linked before the head becomes the head. */
    method PushFront(v: T)
      requires Valid()
      modifies this
      ensures Valid() && Contents == [v] + old(Contents)
      ensures Addrs == [old(|cells|)] + old(Addrs)
    {
      ghost var A, C, P, cells0 := Addrs, Contents, Pos, cells;
      var node := Ref(|cells|);
      cells := cells + [Node(v, Null, head)];
      InsertBetween(node.addr, Null, head);
      var t := if size == 0 then node else tail;
      LinkedInsert(head, tail, size, cells0, A, C, P, 0, v, node, t, cells);
      assert A[..0] == [] && A[0..] == A && C[..0] == [] && C[0..] == C;
      SetChain(node, t, size + 1, cells, [|cells0|] + A, [v] + C, InsertPos(P, 0, |cells0|));
    }

    /** pop_back: erase the tail. */
    method PopBack()
      requires Valid() && size > 0
      modifies this
      ensures Valid() && Contents == old(Contents[..|Contents| - 1])
    {
      EraseNode(tail);
    }

    /** pop_front: erase the head. */
    method PopFront()
      requires Valid() && size > 0
      modifies this
      ensures Valid() && Contents == old(Contents[1..])
    {
      EraseNode(head);
    }
  }
}
