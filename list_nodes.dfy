/**
 * The nodes of one list of containers/s21_list.h, as values.
 *
 * A list's nodes live in its node store, a sequence of cells indexed by
 * address; a `Node *` is `Null` or `Ref(addr)`. `Chain` says when a sequence of
 * addresses, read head first, is a well-formed doubly linked chain through the
 * store, and the lemmas here say how each pointer surgery of the list maps one
 * chain onto the next.
 */
module ListNodes {
  import ListSpec

  /** A `Node *`: null, or the address of a cell of a node store. */
  datatype Ptr = Null | Ref(addr: nat)

  /** list::Node: the stored value and the links to its neighbours. */
  datatype Node<T> = Node(data: T, prev: Ptr, next: Ptr)

  /** The `prev` link the node at index `i` of a chain must hold. */
  function PrevOf(addrs: seq<nat>, i: int): Ptr
    requires 0 <= i < |addrs|
  {
    if i == 0 then Null else Ref(addrs[i - 1])
  }

  /** The `next` link the node at index `i` of a chain must hold. */
  function NextOf(addrs: seq<nat>, i: int): Ptr
    requires 0 <= i < |addrs|
  {
    if i == |addrs| - 1 then Null else Ref(addrs[i + 1])
  }

  /** The pointer to index `i` of a chain: null outside it, which is past-the-end or before the head. */
  function PtrAt(addrs: seq<nat>, i: int): Ptr {
    if 0 <= i < |addrs| then Ref(addrs[i]) else Null
  }

  /**
   * `addrs` are addresses of `cells`, head first. The node at `addrs[i]` holds
   * `contents[i]`, its `prev` is the node before it and its `next` the node
   * after it, with null links at both ends. `pos` maps every address of the
   * chain back to its index, so no address occurs twice.
   */
  ghost predicate Chain<T>(cells: seq<Node<T>>, addrs: seq<nat>, contents: seq<T>, pos: map<nat, int>) {
    && |addrs| == |contents|
    && (forall i :: 0 <= i < |addrs| ==> addrs[i] < |cells| && addrs[i] in pos && pos[addrs[i]] == i)
    && (forall i {:trigger cells[addrs[i]]} :: 0 <= i < |addrs| ==>
          cells[addrs[i]] == Node(contents[i], PrevOf(addrs, i), NextOf(addrs, i)))
  }

  /**
   * The list fields around a chain: `size` counts its nodes and `head` and
   * `tail` point at its first and last node, both null when it is empty.
   */
  ghost predicate Linked<T>(head: Ptr, tail: Ptr, size: int, cells: seq<Node<T>>, addrs: seq<nat>, contents: seq<T>, pos: map<nat, int>) {
    && size == |addrs|
    && head == PtrAt(addrs, 0)
    && tail == PtrAt(addrs, |addrs| - 1)
    && Chain(cells, addrs, contents, pos)
  }

  /** Index bookkeeping after the node at index `k` leaves the chain. */
  ghost function RemovePos(pos: map<nat, int>, k: int): map<nat, int> {
    map a | a in pos :: if pos[a] > k then pos[a] - 1 else pos[a]
  }

  /** Index bookkeeping after the node at address `a` joins the chain at index `k`. */
  ghost function InsertPos(pos: map<nat, int>, k: int, a: nat): map<nat, int> {
    (map b | b in pos :: if pos[b] >= k then pos[b] + 1 else pos[b])[a := k]
  }

  /** Index bookkeeping for the chain that starts at index `h` of the old one. */
  ghost function ShiftPos(pos: map<nat, int>, h: int): map<nat, int> {
    map a | a in pos :: pos[a] - h
  }

  /** Index bookkeeping for a chain of length `n` read from the other end. */
  ghost function ReversePos(pos: map<nat, int>, n: int): map<nat, int> {
    map a | a in pos :: n - 1 - pos[a]
  }

  /** The nodes of a chain are distinct. */
  lemma ChainDistinct<T>(cells: seq<Node<T>>, addrs: seq<nat>, contents: seq<T>, pos: map<nat, int>, i: int, j: int)
    requires Chain(cells, addrs, contents, pos)
    requires 0 <= i < |addrs| && 0 <= j < |addrs|
    ensures addrs[i] == addrs[j] <==> i == j
  {
    assert pos[addrs[i]] == i && pos[addrs[j]] == j;
  }

  /** The pointer reached from `p` by following `next` links `n` times (a null link stops the walk). */
  ghost function FollowNext<T>(cells: seq<Node<T>>, p: Ptr, n: nat): Ptr
    decreases n
  {
    if n == 0 || p == Null || p.addr >= |cells| then p
    else FollowNext(cells, cells[p.addr].next, n - 1)
  }

  /** The pointer reached from `p` by following `prev` links `n` times. */
  ghost function FollowPrev<T>(cells: seq<Node<T>>, p: Ptr, n: nat): Ptr
    decreases n
  {
    if n == 0 || p == Null || p.addr >= |cells| then p
    else FollowPrev(cells, cells[p.addr].prev, n - 1)
  }

  /**
   * Walking forward along a chain: `n` steps of `next` from index `i` reach
   * index `i + n`, and null once the walk runs past the end.
   */
  lemma {:induction false} WalkNext<T>(cells: seq<Node<T>>, addrs: seq<nat>, contents: seq<T>, pos: map<nat, int>, i: int, n: nat)
    requires Chain(cells, addrs, contents, pos) && 0 <= i <= |addrs|
    ensures FollowNext(cells, PtrAt(addrs, i), n) == PtrAt(addrs, if i + n <= |addrs| then i + n else |addrs|)
    decreases n
  {
    if n > 0 && i < |addrs| {
      assert cells[addrs[i]].next == PtrAt(addrs, i + 1);
      WalkNext(cells, addrs, contents, pos, i + 1, n - 1);
    }
  }

  /**
   * Walking backward along a chain: `n` steps of `prev` from index `i` reach
   * index `i - n`, and null once the walk runs past the head.
   */
  lemma {:induction false} WalkPrev<T>(cells: seq<Node<T>>, addrs: seq<nat>, contents: seq<T>, pos: map<nat, int>, i: int, n: nat)
    requires Chain(cells, addrs, contents, pos) && -1 <= i < |addrs|
    ensures FollowPrev(cells, PtrAt(addrs, i), n) == PtrAt(addrs, if i - n >= -1 then i - n else -1)
    decreases n
  {
    if n > 0 && 0 <= i {
      assert cells[addrs[i]].prev == PtrAt(addrs, i - 1);
      WalkPrev(cells, addrs, contents, pos, i - 1, n - 1);
    }
  }

  /** Allocating a cell at the end of the store keeps every chain in it. */
  lemma ChainGrow<T>(cells: seq<Node<T>>, addrs: seq<nat>, contents: seq<T>, pos: map<nat, int>, x: Node<T>)
    requires Chain(cells, addrs, contents, pos)
    ensures Chain(cells + [x], addrs, contents, pos)
  {
    forall i | 0 <= i < |addrs|
      ensures (cells + [x])[addrs[i]] == Node(contents[i], PrevOf(addrs, i), NextOf(addrs, i))
    {
      assert cells[addrs[i]] == Node(contents[i], PrevOf(addrs, i), NextOf(addrs, i));
    }
  }

  /**
   * Extract: when the node at index `k` is cut out, its neighbours joined to
   * each other and every other cell kept, the rest is again a chain.
   */
  lemma ChainRemove<T>(cells: seq<Node<T>>, addrs: seq<nat>, contents: seq<T>, pos: map<nat, int>, k: nat, c: seq<Node<T>>)
    requires Chain(cells, addrs, contents, pos) && k < |addrs| && |c| == |cells|
    requires k > 0 ==> c[addrs[k - 1]] == cells[addrs[k - 1]].(next := NextOf(addrs, k))
    requires k < |addrs| - 1 ==> c[addrs[k + 1]] == cells[addrs[k + 1]].(prev := PrevOf(addrs, k))
    requires forall a ::
      (0 <= a < |cells| && a != addrs[k] && (k > 0 ==> a != addrs[k - 1]) && (k < |addrs| - 1 ==> a != addrs[k + 1]))
      ==> c[a] == cells[a]
    ensures Chain(c, addrs[..k] + addrs[k + 1..], contents[..k] + contents[k + 1..], RemovePos(pos, k))
  {
    var addrs', contents' := addrs[..k] + addrs[k + 1..], contents[..k] + contents[k + 1..];
    var pos' := RemovePos(pos, k);
    forall i | 0 <= i < |addrs'|
      ensures addrs'[i] < |c| && addrs'[i] in pos' && pos'[addrs'[i]] == i
    {
      var j := if i < k then i else i + 1;
      assert addrs'[i] == addrs[j];
    }
    forall i | 0 <= i < |addrs'|
      ensures c[addrs'[i]] == Node(contents'[i], PrevOf(addrs', i), NextOf(addrs', i))
    {
      var j := if i < k then i else i + 1;
      assert addrs'[i] == addrs[j] && contents'[i] == contents[j];
      assert cells[addrs[j]] == Node(contents[j], PrevOf(addrs, j), NextOf(addrs, j));
      if i + 1 == k || i == k {
        assert cells[addrs[k]] == Node(contents[k], PrevOf(addrs, k), NextOf(addrs, k));
      } else {
        assert pos[addrs[j]] == j && pos[addrs[k]] == k;
        assert k > 0 ==> pos[addrs[k - 1]] == k - 1;
        assert k < |addrs| - 1 ==> pos[addrs[k + 1]] == k + 1;
      }
    }
  }

  /**
   * Cell `x`, at address `b`, after Node::InsertBetween has linked the node at
   * `a` between `p` and `n`: the node at `a` takes both links, `p` points
   * forward to it and `n` back to it, the later write winning where they meet.
   */
  function Relinked<T>(x: Node<T>, b: nat, a: nat, p: Ptr, n: Ptr): Node<T> {
    Node(x.data,
         if n == Ref(b) then Ref(a) else if b == a then p else x.prev,
         if p == Ref(b) then Ref(a) else if b == a then n else x.next)
  }

  /**
   * Insert: when a fresh cell holding `v` is appended to the store and linked
   * in between index `k - 1` and index `k`, the result is a chain with the new
   * address at index `k`.
   */
  lemma ChainInsert<T>(cells: seq<Node<T>>, addrs: seq<nat>, contents: seq<T>, pos: map<nat, int>,
                       k: nat, v: T, c: seq<Node<T>>)
    requires Chain(cells, addrs, contents, pos) && k <= |addrs| && |c| == |cells| + 1
    requires c[|cells|] == Node(v, PtrAt(addrs, k - 1), PtrAt(addrs, k))
    requires forall b :: 0 <= b < |cells| ==> c[b] == Relinked(cells[b], b, |cells|, PtrAt(addrs, k - 1), PtrAt(addrs, k))
    ensures Chain(c, addrs[..k] + [|cells|] + addrs[k..], contents[..k] + [v] + contents[k..], InsertPos(pos, k, |cells|))
  {
    var a := |cells|;
    var addrs', contents' := addrs[..k] + [a] + addrs[k..], contents[..k] + [v] + contents[k..];
    var pos' := InsertPos(pos, k, a);
    forall i | 0 <= i < |addrs'|
      ensures addrs'[i] < |c| && addrs'[i] in pos' && pos'[addrs'[i]] == i
    {
      if i < k {
        assert addrs'[i] == addrs[i];
      } else if i > k {
        assert addrs'[i] == addrs[i - 1];
      }
    }
    forall i | 0 <= i < |addrs'|
      ensures c[addrs'[i]] == Node(contents'[i], PrevOf(addrs', i), NextOf(addrs', i))
    {
      if i != k {
        var j := if i < k then i else i - 1;
        assert addrs'[i] == addrs[j] && contents'[i] == contents[j];
        assert cells[addrs[j]] == Node(contents[j], PrevOf(addrs, j), NextOf(addrs, j));
        assert pos[addrs[j]] == j;
        assert k > 0 ==> pos[addrs[k - 1]] == k - 1;
        assert k < |addrs| ==> pos[addrs[k]] == k;
      }
    }
  }

  /** A node with its two links exchanged. */
  function Flipped<T>(x: Node<T>): Node<T> {
    x.(prev := x.next, next := x.prev)
  }

  /**
   * reverse: when every node of the chain has its two links exchanged, the
   * same nodes read from the other end form a chain of the reversed contents.
   */
  lemma ChainReverse<T>(cells: seq<Node<T>>, addrs: seq<nat>, contents: seq<T>, pos: map<nat, int>, c: seq<Node<T>>)
    requires Chain(cells, addrs, contents, pos) && |c| == |cells|
    requires forall i {:trigger c[addrs[i]]} :: 0 <= i < |addrs| ==> c[addrs[i]] == Flipped(cells[addrs[i]])
    ensures Chain(c, ListSpec.Reversed(addrs), ListSpec.Reversed(contents), ReversePos(pos, |addrs|))
  {
    var n := |addrs|;
    var addrs', contents' := ListSpec.Reversed(addrs), ListSpec.Reversed(contents);
    var pos' := ReversePos(pos, n);
    forall i | 0 <= i < n
      ensures addrs'[i] < |c| && addrs'[i] in pos' && pos'[addrs'[i]] == i
    {
      assert addrs'[i] == addrs[n - 1 - i];
    }
    forall i | 0 <= i < n
      ensures c[addrs'[i]] == Node(contents'[i], PrevOf(addrs', i), NextOf(addrs', i))
    {
      var j := n - 1 - i;
      assert addrs'[i] == addrs[j] && contents'[i] == contents[j];
      assert cells[addrs[j]] == Node(contents[j], PrevOf(addrs, j), NextOf(addrs, j));
      assert i > 0 ==> addrs'[i - 1] == addrs[j + 1];
      assert i < n - 1 ==> addrs'[i + 1] == addrs[j - 1];
    }
  }

  /**
   * Divide: cutting the link between index `h - 1` and index `h` leaves two
   * chains in the same store, the first `h` nodes and the rest.
   */
  lemma ChainSplit<T>(cells: seq<Node<T>>, addrs: seq<nat>, contents: seq<T>, pos: map<nat, int>, h: nat, c: seq<Node<T>>)
    requires Chain(cells, addrs, contents, pos) && 0 < h < |addrs| && |c| == |cells|
    requires c[addrs[h - 1]] == cells[addrs[h - 1]].(next := Null)
    requires c[addrs[h]] == cells[addrs[h]].(prev := Null)
    requires forall a :: 0 <= a < |cells| && a != addrs[h - 1] && a != addrs[h] ==> c[a] == cells[a]
    ensures Chain(c, addrs[..h], contents[..h], pos)
    ensures Chain(c, addrs[h..], contents[h..], ShiftPos(pos, h))
  {
    var front, back := addrs[..h], addrs[h..];
    forall i | 0 <= i < h
      ensures c[front[i]] == Node(contents[..h][i], PrevOf(front, i), NextOf(front, i))
    {
      assert cells[addrs[i]] == Node(contents[i], PrevOf(addrs, i), NextOf(addrs, i));
      if i < h - 1 {
        assert pos[addrs[i]] == i && pos[addrs[h - 1]] == h - 1 && pos[addrs[h]] == h;
      }
    }
    var pos' := ShiftPos(pos, h);
    forall i | 0 <= i < |back|
      ensures back[i] < |c| && back[i] in pos' && pos'[back[i]] == i
    {
      assert back[i] == addrs[h + i];
    }
    forall i | 0 <= i < |back|
      ensures c[back[i]] == Node(contents[h..][i], PrevOf(back, i), NextOf(back, i))
    {
      assert back[i] == addrs[h + i];
      assert cells[addrs[h + i]] == Node(contents[h + i], PrevOf(addrs, h + i), NextOf(addrs, h + i));
      if i > 0 {
        assert pos[addrs[h + i]] == h + i && pos[addrs[h - 1]] == h - 1 && pos[addrs[h]] == h;
      }
    }
  }

  /** ChainRemove for the list fields: head and tail follow the removed node's neighbours. */
  lemma LinkedRemove<T>(head: Ptr, tail: Ptr, size: int, cells: seq<Node<T>>, addrs: seq<nat>, contents: seq<T>, pos: map<nat, int>,
                        k: nat, head': Ptr, tail': Ptr, c: seq<Node<T>>)
    requires Linked(head, tail, size, cells, addrs, contents, pos) && k < |addrs| && |c| == |cells|
    requires head' == (if k == 0 then NextOf(addrs, k) else head)
    requires tail' == (if k == |addrs| - 1 then PrevOf(addrs, k) else tail)
    requires k > 0 ==> c[addrs[k - 1]] == cells[addrs[k - 1]].(next := NextOf(addrs, k))
    requires k < |addrs| - 1 ==> c[addrs[k + 1]] == cells[addrs[k + 1]].(prev := PrevOf(addrs, k))
    requires forall a ::
      (0 <= a < |cells| && a != addrs[k] && (k > 0 ==> a != addrs[k - 1]) && (k < |addrs| - 1 ==> a != addrs[k + 1]))
      ==> c[a] == cells[a]
    ensures Linked(head', tail', size - 1, c, addrs[..k] + addrs[k + 1..], contents[..k] + contents[k + 1..], RemovePos(pos, k))
  {
    ChainRemove(cells, addrs, contents, pos, k, c);
  }

  /** ChainInsert for the list fields: the new node becomes head at index 0 and tail at the end. */
  lemma LinkedInsert<T>(head: Ptr, tail: Ptr, size: int, cells: seq<Node<T>>, addrs: seq<nat>, contents: seq<T>, pos: map<nat, int>,
                        k: nat, v: T, head': Ptr, tail': Ptr, c: seq<Node<T>>)
    requires Linked(head, tail, size, cells, addrs, contents, pos) && k <= |addrs| && |c| == |cells| + 1
    requires head' == (if k == 0 then Ref(|cells|) else head)
    requires tail' == (if k == |addrs| then Ref(|cells|) else tail)
    requires c[|cells|] == Node(v, PtrAt(addrs, k - 1), PtrAt(addrs, k))
    requires forall b :: 0 <= b < |cells| ==> c[b] == Relinked(cells[b], b, |cells|, PtrAt(addrs, k - 1), PtrAt(addrs, k))
    ensures Linked(head', tail', size + 1, c, addrs[..k] + [|cells|] + addrs[k..], contents[..k] + [v] + contents[k..], InsertPos(pos, k, |cells|))
  {
    ChainInsert(cells, addrs, contents, pos, k, v, c);
  }

  /** ChainReverse for the list fields: head and tail change places. */
  lemma LinkedReverse<T>(head: Ptr, tail: Ptr, size: int, cells: seq<Node<T>>, addrs: seq<nat>, contents: seq<T>, pos: map<nat, int>,
                         c: seq<Node<T>>)
    requires Linked(head, tail, size, cells, addrs, contents, pos) && |c| == |cells|
    requires forall i {:trigger c[addrs[i]]} :: 0 <= i < |addrs| ==> c[addrs[i]] == Flipped(cells[addrs[i]])
    ensures Linked(tail, head, size, c, ListSpec.Reversed(addrs), ListSpec.Reversed(contents), ReversePos(pos, |addrs|))
  {
    ChainReverse(cells, addrs, contents, pos, c);
  }

  /** ChainSplit for the list fields: the first part ends at index `h - 1`, the second starts at `h`. */
  lemma LinkedSplit<T>(head: Ptr, tail: Ptr, size: int, cells: seq<Node<T>>, addrs: seq<nat>, contents: seq<T>, pos: map<nat, int>,
                       h: nat, c: seq<Node<T>>)
    requires Linked(head, tail, size, cells, addrs, contents, pos) && 0 < h < |addrs| && |c| == |cells|
    requires c[addrs[h - 1]] == cells[addrs[h - 1]].(next := Null)
    requires c[addrs[h]] == cells[addrs[h]].(prev := Null)
    requires forall a :: 0 <= a < |cells| && a != addrs[h - 1] && a != addrs[h] ==> c[a] == cells[a]
    ensures Linked(head, Ref(addrs[h - 1]), h, c, addrs[..h], contents[..h], pos)
    ensures Linked(Ref(addrs[h]), tail, size - h, c, addrs[h..], contents[h..], ShiftPos(pos, h))
  {
    ChainSplit(cells, addrs, contents, pos, h, c);
  }
}
