/**
 * s21::vector from containers/s21_vector.h: a buffer `arr_` of `capacity_`
 * elements whose first `size_` are the vector's elements. An iterator is a
 * position in the buffer; here it is the index of that position.
 */
module Vectors {

  /** The outcome of `at`: the element, or the out_of_range exception. */
  datatype Result<T> = Success(value: T) | OutOfRange

  /**
   * increaseCapacity: the source computes 1 + (size_t)(1.618 * (double)c).
   * Here the product is taken in exact decimal arithmetic, and the capacity
   * clauses below are exact through it; the two agree for every realistic
   * capacity and can differ by one from about 10^13 on.
   */
  function NextCapacity(c: nat): (r: nat)
    ensures r > c
  {
    1 + c * 1618 / 1000
  }

  /** The capacity that repeated increaseCapacity steps reach from `c`, stopping at the first one of at least `need`. */
  function GrowTo(c: nat, need: nat): (r: nat)
    decreases need - c
    ensures r >= c && r >= need
    ensures c >= need ==> r == c
  {
    if c >= need then c else GrowTo(NextCapacity(c), need)
  }

  /**
   * The capacity after expandArray(k) on a vector of `size` elements in a
   * buffer of `capacity`: unchanged when there is strictly more room than `k`
   * more elements need, otherwise grown, from a baseline of 8 when the buffer
   * is empty, until `size + k` fit.
   */
  function ExpandedCapacity(capacity: nat, size: nat, k: nat): nat {
    if capacity > size + k then capacity
    else GrowTo(if capacity == 0 then 8 else capacity, size + k)
  }

  /** expandArray(k) makes room for `k` more elements and never shrinks the buffer. */
  lemma ExpandedCapacityBounds(capacity: nat, size: nat, k: nat)
    ensures ExpandedCapacity(capacity, size, k) >= size + k
    ensures ExpandedCapacity(capacity, size, k) >= capacity
    ensures capacity == 0 ==> ExpandedCapacity(capacity, size, k) >= 8
    ensures capacity == 0 && size + k <= 8 ==> ExpandedCapacity(capacity, size, k) == 8
    ensures 0 < capacity && capacity == size + k ==> ExpandedCapacity(capacity, size, k) == capacity
  {
  }

  /** `r` is `s` with `v` placed at index `pos`, element by element. */
  lemma InsertedAt<T>(r: seq<T>, s: seq<T>, pos: nat, v: T)
    requires pos <= |s| && |r| == |s| + 1
    requires forall i {:trigger r[i]} :: 0 <= i < |r| ==> r[i] == if i < pos then s[i] else if i == pos then v else s[i - 1]
    ensures r == s[..pos] + [v] + s[pos..]
  {
    var t := s[..pos] + [v] + s[pos..];
    forall i | 0 <= i < |r|
      ensures r[i] == t[i]
    {
      if i > pos {
        assert t[i] == s[pos..][i - pos - 1];
      }
    }
  }

  /** `r` is `s` without the element at index `pos`, element by element. */
  lemma RemovedAt<T>(r: seq<T>, s: seq<T>, pos: nat)
    requires pos < |s| && |r| + 1 == |s|
    requires forall i {:trigger r[i]} :: 0 <= i < |r| ==> r[i] == if i < pos then s[i] else s[i + 1]
    ensures r == s[..pos] + s[pos + 1..]
  {
    var t := s[..pos] + s[pos + 1..];
    forall i | 0 <= i < |r|
      ensures r[i] == t[i]
    {
      if i >= pos {
        assert t[i] == s[pos + 1..][i - pos];
      }
    }
  }

  /** Inserting item `i` at index `pos + i` extends the run of items already inserted at `pos`. */
  lemma InsertManyStep<T>(s: seq<T>, pos: nat, items: seq<T>, i: nat)
    requires pos <= |s| && i < |items|
    ensures var c := s[..pos] + items[..i] + s[pos..];
      c[..pos + i] + [items[i]] + c[pos + i..] == s[..pos] + items[..i + 1] + s[pos..]
  {
    var c := s[..pos] + items[..i] + s[pos..];
    assert c[..pos + i] == s[..pos] + items[..i];
    assert c[pos + i..] == s[pos..];
    assert items[..i + 1] == items[..i] + [items[i]];
  }

  class Vector<T(0)> {
    /** arr_: the buffer; its length is the capacity. */
    var arr: array<T>
    var size: nat
    var capacity: nat

    /** The buffer holds `capacity` elements, of which the first `size` are in use. */
    ghost predicate Valid()
      reads this
    {
      arr.Length == capacity && size <= capacity
    }

    /** The vector's elements. */
    ghost function Contents(): seq<T>
      reads this, arr
      requires Valid()
    {
      arr[..size]
    }

    // ---- construction and assignment ----

    /** vector(): no buffer, size and capacity 0. */
    constructor ()
      ensures Valid() && Contents() == [] && capacity == 0 && fresh(arr)
    {
      arr := new T[0];
      size, capacity := 0, 0;
    }

    /** vector(n): `n` value-initialized elements (`init` stands for T()), capacity `n`. */
    constructor OfSize(n: nat, init: T)
      ensures Valid() && Contents() == seq(n, _ => init) && capacity == n
    {
      arr := new T[n](_ => init);
      size, capacity := n, n;
    }

    /** vector(initializer_list): a buffer of exactly the items, filled by copyFromArray. */
    constructor FromSeq(items: seq<T>)
      ensures Valid() && Contents() == items && capacity == |items|
    {
      size, capacity := |items|, |items|;
      arr := new T[|items|];
      new;
      CopyFromArray(items);
    }

    /** vector(const vector &): the same size and capacity, and a copy of `v`'s elements. */
    constructor Copy(v: Vector<T>)
      requires v.Valid()
      ensures Valid() && Contents() == v.Contents() && capacity == v.capacity
    {
      size, capacity := v.size, v.capacity;
      arr := new T[v.capacity];
      new;
      CopyFromArray(v.arr[..v.size]);
    }

    /** vector(vector &&): take over `v`'s buffer; `v` is left with none. */
    constructor Move(v: Vector<T>)
      requires v.Valid()
      modifies v
      ensures Valid() && arr == old(v.arr) && size == old(v.size) && capacity == old(v.capacity)
      ensures v.Valid() && v.size == 0 && v.capacity == 0
    {
      size, capacity, arr := v.size, v.capacity, v.arr;
      new;
      v.size, v.capacity := 0, 0;
      v.arr := new T[0];
    }

    /**
     * operator=(const vector &): unless `v` is this vector, clear, reserve
     * room for `v`'s elements and copy them in. The capacity never shrinks.
     */
    method CopyAssign(v: Vector<T>)
      requires Valid() && v.Valid()
      modifies this, arr
      ensures Valid() && Contents() == old(v.Contents())
      ensures capacity == if this == v then old(capacity) else Max(old(capacity), old(v.size))
    {
      if this == v {
        return;
      }
      var items := v.arr[..v.size];
      Clear();
      Reserve(|items|);
      CopyFromArray(items);
    }

    /** operator=(vector &&): unless `v` is this vector, take over its buffer and leave it with none. */
    method MoveAssign(v: Vector<T>)
      requires Valid() && v.Valid()
      modifies this, v
      ensures Valid() && arr == old(v.arr) && size == old(v.size) && capacity == old(v.capacity)
      ensures v != this ==> v.Valid() && v.size == 0 && v.capacity == 0
    {
      if this == v {
        return;
      }
      size, capacity, arr := v.size, v.capacity, v.arr;
      v.size, v.capacity := 0, 0;
      v.arr := new T[0];
    }

    /** operator=(initializer_list): clear, reserve room for the items and copy them in. */
    method AssignSeq(items: seq<T>)
      requires Valid()
      modifies this, arr
      ensures Valid() && Contents() == items && capacity == Max(old(capacity), |items|)
    {
      Clear();
      Reserve(|items|);
      CopyFromArray(items);
    }

    /** swap: std::swap, a move construction and two move assignments. */
    method Swap(other: Vector<T>)
      requires Valid() && other.Valid()
      modifies this, other
      ensures Valid() && other.Valid()
      ensures arr == old(other.arr) && size == old(other.size) && capacity == old(other.capacity)
      ensures other != this ==> other.arr == old(arr) && other.size == old(size) && other.capacity == old(capacity)
    {
      var temp := new Vector.Move(this);
      MoveAssign(other);
      other.MoveAssign(temp);
    }

    // ---- element access ----

    /** at(pos): the element at `pos`, or out_of_range exactly when `pos` is not below the size. */
    function At(pos: nat): (r: Result<T>)
      reads this, arr
      requires Valid()
      ensures r == OutOfRange <==> pos >= |Contents()|
      ensures r.Success? ==> r.value == Contents()[pos]
    {
      if pos >= size then OutOfRange else Success(arr[pos])
    }

    /** operator[](pos): no check; the position must hold an element. */
    function Get(pos: nat): (v: T)
      reads this, arr
      requires Valid() && pos < size
      ensures v == Contents()[pos]
    {
      arr[pos]
    }

    /** front() */
    function Front(): (v: T)
      reads this, arr
      requires Valid() && size > 0
      ensures v == Contents()[0]
    {
      arr[0]
    }

    /** back() */
    function Back(): (v: T)
      reads this, arr
      requires Valid() && size > 0
      ensures v == Contents()[|Contents()| - 1]
    {
      arr[size - 1]
    }

    /** empty() */
    function Empty(): (r: bool)
      reads this, arr
      requires Valid()
      ensures r <==> Contents() == []
    {
      size == 0
    }

    /** size() */
    function Size(): (n: nat)
      reads this, arr
      requires Valid()
      ensures n == |Contents()|
    {
      size
    }

    // ---- capacity ----

    /**
     * reserve(n): nothing when `n` fits in the buffer; otherwise a buffer of
     * exactly `n` receives the elements.
     */
    method Reserve(n: nat)
      requires Valid()
      modifies this
      ensures Valid() && size == old(size) && Contents() == old(Contents())
      ensures n <= old(capacity) ==> capacity == old(capacity) && arr == old(arr)
      ensures n > old(capacity) ==> capacity == n && fresh(arr)
    {
      if n <= capacity {
        return;
      }
      var expanded := new T[n];
      CopyToArray(expanded, n);
      arr, capacity := expanded, n;
    }

    /** shrink_to_fit: a buffer of exactly `size` elements receives them. */
    method ShrinkToFit()
      requires Valid()
      modifies this
      ensures Valid() && capacity == size && Contents() == old(Contents())
    {
      ReallocateArray(size);
    }

    /** clear(): the size drops to 0; the buffer stays. */
    method Clear()
      requires Valid()
      modifies this
      ensures Valid() && Contents() == [] && capacity == old(capacity) && arr == old(arr)
    {
      size := 0;
    }

    // ---- modifiers ----

    /**
     * insert(pos, value): at the end, a push_back. Otherwise make room for
     * one more, put `value` at `pos` and carry the element it displaced
     * rightwards by swapping it through every later slot up to index `size`.
     * The result is the position of the new element.
     */
    method Insert(pos: nat, v: T) returns (r: nat)
      requires Valid() && pos <= size
      modifies this, arr
      ensures Valid() && r == pos
      ensures Contents() == old(Contents()[..pos]) + [v] + old(Contents()[pos..])
      ensures capacity == ExpandedCapacity(old(capacity), old(size), 1)
      ensures old(capacity) > old(size) + 1 ==> arr == old(arr)
      ensures old(capacity) <= old(size) + 1 ==> fresh(arr)
    {
      if pos == size {
        PushBack(v);
        r := size - 1;
        return;
      }
      ExpandArray(1);
      ShiftIn(pos, v);
      size := size + 1;
      r := pos;
    }

    /**
     * The loop of insert: `v` goes to `pos`, and the element it displaces is
     * carried rightwards by swapping it through every later slot up to index
     * `size`, which the buffer has room for.
     */
    method ShiftIn(pos: nat, v: T)
      requires Valid() && pos < size < capacity
      modifies arr
      ensures arr[..size + 1] == old(Contents()[..pos]) + [v] + old(Contents()[pos..])
    {
      ghost var A := arr[..];
      var p := pos;
      var evicted := arr[p];
      arr[p] := v;
      p := p + 1;
      while p <= size
        invariant pos < p <= size + 1 && size + 1 <= arr.Length && |A| == arr.Length
        invariant forall i {:trigger arr[i]} :: 0 <= i < arr.Length ==>
          arr[i] == if i < pos then A[i] else if i == pos then v else if i < p then A[i - 1] else A[i]
        invariant evicted == A[p - 1]
        decreases size + 1 - p
      {
        arr[p], evicted := evicted, arr[p];
        p := p + 1;
      }
      InsertedAt(arr[..size + 1], A[..size], pos, v);
    }

    /**
     * insert_many(pos, args...) as the source forms its result: make room for
     * all items at once, take the result position in the buffer that then
     * exists, and insert the items one by one at successive positions from
     * `pos`. The result is that buffer and the index in it. Each insert makes
     * room for one more by itself, and the last of them moves the elements to
     * a new buffer exactly when the first step left no more room than the
     * items need; the result then points into the discarded buffer.
     */
    method InsertManyInBuffer(pos: nat, items: seq<T>) returns (buffer: array<T>, r: nat)
      requires Valid() && pos <= size
      modifies this, arr
      ensures Valid() && r == pos
      ensures Contents() == old(Contents()[..pos]) + items + old(Contents()[pos..])
      ensures capacity == ExpandedCapacity(old(capacity), old(size), |items|)
      ensures arr == old(arr) || fresh(arr)
      ensures arr == buffer <==> !(|items| > 0 && capacity == old(size) + |items|)
    {
      ghost var S := Contents();
      ExpandArray(|items|);
      ExpandedCapacityBounds(old(capacity), |S|, |items|);
      ghost var grown := capacity;
      buffer := arr;
      var insertPos: int := pos - 1;
      for i := 0 to |items|
        invariant Valid() && insertPos == pos + i - 1 && capacity == grown && |S| + |items| <= grown
        invariant arr == old(arr) || fresh(arr)
        invariant Contents() == S[..pos] + items[..i] + S[pos..]
        invariant arr == buffer <==> !(i == |items| && i > 0 && grown == |S| + |items|)
      {
        insertPos := insertPos + 1;
        ExpandedCapacityBounds(capacity, size, 1);
        InsertManyStep(S, pos, items, i);
        var inserted := Insert(insertPos, items[i]);
      }
      r := pos;
      assert items[..|items|] == items;
    }

    /**
     * insert_many(pos, args...) with its result taken in the buffer the
     * vector holds once every item is in: the index of the first inserted
     * item.
     */
    method InsertMany(pos: nat, items: seq<T>) returns (r: nat)
      requires Valid() && pos <= size
      modifies this, arr
      ensures Valid() && r == pos
      ensures Contents() == old(Contents()[..pos]) + items + old(Contents()[pos..])
      ensures r + |items| <= |Contents()| && Contents()[r..r + |items|] == items
      ensures capacity == ExpandedCapacity(old(capacity), old(size), |items|)
    {
      var buffer, inBuffer := InsertManyInBuffer(pos, items);
      r := pos;
    }

    /** insert_many_back(args...): make room for all items, then push_back each. */
    method InsertManyBack(items: seq<T>)
      requires Valid()
      modifies this, arr
      ensures Valid() && Contents() == old(Contents()) + items
      ensures capacity == ExpandedCapacity(old(capacity), old(size), |items|)
    {
      ghost var S := Contents();
      ExpandArray(|items|);
      ExpandedCapacityBounds(old(capacity), |S|, |items|);
      ghost var grown := capacity;
      for i := 0 to |items|
        invariant Valid() && capacity == grown && |S| + |items| <= grown
        invariant arr == old(arr) || fresh(arr)
        invariant Contents() == S + items[..i]
      {
        ExpandedCapacityBounds(capacity, size, 1);
        PushBack(items[i]);
        assert items[..i + 1] == items[..i] + [items[i]];
      }
      assert items[..|items|] == items;
    }

    /**
     * erase(pos): swap the element at `pos` rightwards past every later
     * element, then drop the last slot. The buffer stays.
     */
    method Erase(pos: nat)
      requires Valid() && pos < size
      modifies this, arr
      ensures Valid() && arr == old(arr) && capacity == old(capacity)
      ensures Contents() == old(Contents()[..pos] + Contents()[pos + 1..])
    {
      ghost var A := arr[..];
      var q := pos;
      var next := pos + 1;
      while next < size
        modifies arr
        invariant pos < next <= size && q == next - 1 && |A| == arr.Length
        invariant forall i {:trigger arr[i]} :: 0 <= i < arr.Length ==>
          arr[i] == if i < pos then A[i] else if i < q then A[i + 1] else if i == q then A[pos] else A[i]
        decreases size - next
      {
        arr[next], arr[q] := arr[q], arr[next];
        next, q := next + 1, q + 1;
      }
      size := size - 1;
      RemovedAt(arr[..size], A[..size + 1], pos);
    }

    /** push_back(value): make room for one more and store `value` after the last element. */
    method PushBack(v: T)
      requires Valid()
      modifies this, arr
      ensures Valid() && Contents() == old(Contents()) + [v]
      ensures capacity == ExpandedCapacity(old(capacity), old(size), 1)
      ensures old(capacity) > old(size) + 1 ==> arr == old(arr)
      ensures old(capacity) <= old(size) + 1 ==> fresh(arr)
    {
      ExpandArray(1);
      arr[size] := v;
      size := size + 1;
    }

    /** pop_back(): drop the last element; the buffer stays. */
    method PopBack()
      requires Valid() && size > 0
      modifies this
      ensures Valid() && Contents() == old(Contents()[..size - 1]) && capacity == old(capacity)
    {
      size := size - 1;
    }

    // ---- buffer management ----

    /**
     * expandArray(k): return when the buffer has strictly more room than `k`
     * more elements need. Otherwise start from 8 when the capacity is 0,
     * apply increaseCapacity until `size + k` fit, and move the elements to
     * a new buffer of that capacity (also when it did not grow).
     */
    method ExpandArray(k: nat)
      requires Valid()
      modifies this
      ensures Valid() && size == old(size) && Contents() == old(Contents())
      ensures capacity == ExpandedCapacity(old(capacity), old(size), k)
      ensures old(capacity) > old(size) + k ==> arr == old(arr)
      ensures old(capacity) <= old(size) + k ==> fresh(arr)
    {
      if capacity > size + k {
        return;
      }
      var c := capacity;
      if c == 0 {
        c := 8;
      }
      while c < size + k
        invariant c > 0 && GrowTo(c, size + k) == ExpandedCapacity(capacity, size, k)
        decreases size + k - c
      {
        c := NextCapacity(c);
      }
      var expanded := new T[c];
      CopyToArray(expanded, c);
      arr, capacity := expanded, c;
    }

    /**
     * reallocateArray(c): a buffer of exactly `c` receives as many elements
     * as fit; the size drops to `c` when it was larger.
     */
    method ReallocateArray(c: nat)
      requires Valid()
      modifies this
      ensures Valid() && capacity == c && fresh(arr)
      ensures size == Min(old(size), c) && Contents() == old(Contents()[..Min(size, c)])
    {
      var reallocated := new T[c];
      CopyToArray(reallocated, c);
      capacity := c;
      if capacity < size {
        size := capacity;
      }
      arr := reallocated;
    }

    /** copyToArray(dst, n): copy the elements below both `n` and the size into `dst`. */
    method CopyToArray(dst: array<T>, n: nat)
      requires Valid() && dst != arr && Min(n, size) <= dst.Length
      modifies dst
      ensures dst[..] == arr[..Min(n, size)] + old(dst[Min(n, size)..])
    {
      ghost var D := dst[..];
      var i := 0;
      while i < n && i < size
        invariant 0 <= i <= Min(n, size)
        invariant forall j {:trigger dst[j]} :: 0 <= j < dst.Length ==> dst[j] == if j < i then arr[j] else D[j]
        decreases size - i
      {
        dst[i] := arr[i];
        i := i + 1;
      }
      assert dst[..] == arr[..i] + D[i..];
    }

    /**
     * copyFromArray(src, n): clear, reallocate when the buffer is too small
     * for `n`, copy the `n` source elements in and take their count as size.
     */
    method CopyFromArray(src: seq<T>)
      requires Valid()
      modifies this, arr
      ensures Valid() && Contents() == src && capacity == Max(old(capacity), |src|)
      ensures arr == old(arr) || fresh(arr)
    {
      Clear();
      if capacity < |src| {
        ReallocateArray(|src|);
      }
      for i := 0 to |src|
        invariant |src| <= capacity && arr[..i] == src[..i]
        modifies arr
      {
        arr[i] := src[i];
      }
      size := |src|;
    }
  }

  /**
   * Eight items inserted at the front of an empty vector: the first step makes
   * a buffer of exactly 8, the eighth insert replaces it, and the position
   * insert_many returns points into the buffer that was replaced.
   */
  method InsertManyResultDangles() returns (dangles: bool)
    ensures dangles
  {
    var v := new Vector<int>();
    ExpandedCapacityBounds(0, 0, 8);
    var buffer, r := v.InsertManyInBuffer(0, [1, 2, 3, 4, 5, 6, 7, 8]);
    dangles := buffer != v.arr;
  }

  function Max(a: nat, b: nat): nat {
    if a >= b then a else b
  }

  function Min(a: nat, b: nat): nat {
    if a <= b then a else b
  }
}
