/**
 * Sequence-level meaning of the list algorithms in containers/s21_list.h.
 *
 * The list orders its elements with `operator>` of the element type. Here that
 * order is given as an integer key: `x > y` is `key(x) > key(y)`. Elements with
 * equal keys may still differ, which is what makes stability observable.
 */
module ListSpec {

  /** Every element's key is at most the key of every later element. */
  predicate Sorted<T>(s: seq<T>, key: T -> int) {
    forall i, j :: 0 <= i < j < |s| ==> key(s[i]) <= key(s[j])
  }

  /** The elements of `s` whose key is `k`, in their order in `s`. */
  function KeyFilter<T>(s: seq<T>, key: T -> int, k: int): seq<T>
    decreases |s|
  {
    if s == [] then []
    else (if key(s[0]) == k then [s[0]] else []) + KeyFilter(s[1..], key, k)
  }

  /**
   * What `merge` does, step by step. `rest` is the receiver from the cursor on,
   * `other` is what is left of the list being merged in. While `other` is not
   * empty: if the cursor is past the end, or the element under it is greater
   * than the front of `other`, that front is moved in before the cursor and the
   * cursor moves onto the moved element; otherwise the cursor advances.
   */
  function MergeWalk<T>(rest: seq<T>, other: seq<T>, key: T -> int): seq<T>
    decreases |other|, |rest|
  {
    if other == [] then rest
    else if rest == [] || key(rest[0]) > key(other[0]) then MergeWalk([other[0]] + rest, other[1..], key)
    else [rest[0]] + MergeWalk(rest[1..], other, key)
  }

  /** Textbook stable merge: on equal keys the element of `a` comes first. */
  function Merge<T>(a: seq<T>, b: seq<T>, key: T -> int): seq<T>
    decreases |a| + |b|
  {
    if a == [] then b
    else if b == [] then a
    else if key(a[0]) > key(b[0]) then [b[0]] + Merge(a, b[1..], key)
    else [a[0]] + Merge(a[1..], b, key)
  }

  /** Number of elements `Divide` keeps: the first ceil(n/2). */
  function FirstHalfLength(n: nat): (h: nat)
    ensures h <= n && n - h <= h && h - (n - h) <= 1
    ensures n >= 2 ==> 0 < h < n
  {
    (n + 1) / 2
  }

  /** What `sort` does: split with `Divide`, sort both halves, `merge` them. */
  function MergeSort<T>(s: seq<T>, key: T -> int): seq<T>
    decreases |s|
  {
    if |s| < 2 then s
    else
      var h := FirstHalfLength(|s|);
      MergeWalk(MergeSort(s[..h], key), MergeSort(s[h..], key), key)
  }

  /**
   * What `unique` leaves: every element equal to the element just before it is
   * dropped, so each run of adjacent equal elements collapses to one.
   */
  function Dedup<T(==)>(s: seq<T>): seq<T>
    decreases |s|
  {
    if |s| < 2 then s
    else if s[|s| - 1] == s[|s| - 2] then Dedup(s[..|s| - 1])
    else Dedup(s[..|s| - 1]) + [s[|s| - 1]]
  }

  /** Collapsing runs scanned from the front: an independent reference for Dedup. */
  function CollapseRuns<T(==)>(s: seq<T>): seq<T>
    decreases |s|
  {
    if |s| < 2 then s
    else if s[0] == s[1] then CollapseRuns(s[1..])
    else [s[0]] + CollapseRuns(s[1..])
  }

  ghost predicate NoAdjacentDuplicates<T>(s: seq<T>) {
    forall i, j :: 0 <= i < j < |s| && j == i + 1 ==> s[i] != s[j]
  }

  function Reversed<T>(s: seq<T>): (r: seq<T>)
    ensures |r| == |s|
    ensures forall i :: 0 <= i < |s| ==> r[i] == s[|s| - 1 - i]
  {
    seq(|s|, i requires 0 <= i < |s| => s[|s| - 1 - i])
  }

  // ---------------------------------------------------------------------------
  // merge

  lemma {:induction false} MergeWalkPermutation<T>(rest: seq<T>, other: seq<T>, key: T -> int)
    ensures multiset(MergeWalk(rest, other, key)) == multiset(rest) + multiset(other)
    decreases |other|, |rest|
  {
    if other == [] {
    } else if rest == [] || key(rest[0]) > key(other[0]) {
      MergeWalkPermutation([other[0]] + rest, other[1..], key);
      ConsMultiset(other, rest);
    } else {
      MergeWalkPermutation(rest[1..], other, key);
      ConsMultiset(rest, MergeWalk(rest[1..], other, key));
    }
  }

  /** Putting the front of `s` before `w` adds it to the multiset of `w`, as it does to that of `s[1..]`. */
  lemma ConsMultiset<T>(s: seq<T>, w: seq<T>)
    requires s != []
    ensures multiset([s[0]] + w) == multiset{s[0]} + multiset(w)
    ensures multiset(s) == multiset{s[0]} + multiset(s[1..])
  {
    assert s == [s[0]] + s[1..];
  }

  /** When `other` is sorted, the cursor walk of `merge` is the textbook stable merge. */
  lemma {:induction false} MergeWalkIsMerge<T>(a: seq<T>, b: seq<T>, key: T -> int)
    requires Sorted(b, key)
    ensures MergeWalk(a, b, key) == Merge(a, b, key)
    decreases |a| + |b|
  {
    if b == [] {
    } else if a == [] {
      var b' := b[1..];
      if b' == [] {
      } else {
        assert key(b[0]) <= key(b'[0]);
        calc {
          MergeWalk(a, b, key);
          MergeWalk([b[0]], b', key);
          [b[0]] + MergeWalk([], b', key);
          { MergeWalkIsMerge([], b', key); }
          [b[0]] + b';
        }
      }
    } else if key(a[0]) > key(b[0]) {
      var b' := b[1..];
      if b' == [] {
        assert MergeWalk(a, b, key) == [b[0]] + a;
      } else {
        assert key(b[0]) <= key(b'[0]);
        assert ([b[0]] + a)[1..] == a;
        calc {
          MergeWalk(a, b, key);
          MergeWalk([b[0]] + a, b', key);
          [b[0]] + MergeWalk(a, b', key);
          { MergeWalkIsMerge(a, b', key); }
          [b[0]] + Merge(a, b', key);
        }
      }
    } else {
      MergeWalkIsMerge(a[1..], b, key);
    }
  }

  /** One step of the merge cursor at index `k` when the head of `other` moves in before it. */
  lemma MergeWalkMoveStep<T>(s: seq<T>, other: seq<T>, k: int, key: T -> int)
    requires 0 <= k <= |s| && other != [] && (k == |s| || key(s[k]) > key(other[0]))
    ensures var s' := s[..k] + [other[0]] + s[k..];
      s'[..k] + MergeWalk(s'[k..], other[1..], key) == s[..k] + MergeWalk(s[k..], other, key)
  {
    var s' := s[..k] + [other[0]] + s[k..];
    assert s'[..k] == s[..k] && s'[k..] == [other[0]] + s[k..];
  }

  /** One step of the merge cursor at index `k` when it advances. */
  lemma MergeWalkSkipStep<T>(s: seq<T>, other: seq<T>, k: int, key: T -> int)
    requires 0 <= k < |s| && other != [] && !(key(s[k]) > key(other[0]))
    ensures s[..k + 1] + MergeWalk(s[k + 1..], other, key) == s[..k] + MergeWalk(s[k..], other, key)
  {
    var r := s[k..];
    assert r != [] && r[0] == s[k] && r[1..] == s[k + 1..];
    MergeWalkSkip(r, other, key);
    PrefixStep(s, k, MergeWalk(s[k + 1..], other, key));
  }

  /** Moving the boundary between a prefix and what follows it one element to the right. */
  lemma PrefixStep<T>(s: seq<T>, k: int, w: seq<T>)
    requires 0 <= k < |s|
    ensures s[..k + 1] + w == s[..k] + ([s[k]] + w)
  {
    assert s[..k + 1] == s[..k] + [s[k]];
  }

  /** The cursor advances past an element not greater than the front of `other`. */
  lemma MergeWalkSkip<T>(r: seq<T>, other: seq<T>, key: T -> int)
    requires r != [] && other != [] && !(key(r[0]) > key(other[0]))
    ensures MergeWalk(r, other, key) == [r[0]] + MergeWalk(r[1..], other, key)
  {
  }

  /** Once `other` is used up, the walk leaves the rest as it is. */
  lemma MergeWalkDone<T>(s: seq<T>, k: int, other: seq<T>, key: T -> int)
    requires 0 <= k <= |s| && other == []
    ensures s[..k] + MergeWalk(s[k..], other, key) == s
  {
    assert s[..k] + s[k..] == s;
  }

  /** The walk differs from a textbook merge when `other` is not sorted. */
  lemma MergeWalkUnsortedOther()
    ensures MergeWalk([5], [3, 1], x => x) == [1, 3, 5]
    ensures Merge([5], [3, 1], x => x) == [3, 1, 5]
  {
    var id := (x: int) => x;
    assert MergeWalk([1, 3, 5], [], id) == [1, 3, 5];
    assert MergeWalk([3, 5], [1], id) == MergeWalk([1, 3, 5], [], id);
    assert MergeWalk([5], [3, 1], id) == MergeWalk([3, 5], [1], id);
    assert Merge([5], [1], id) == [1, 5];
  }

  lemma {:induction false} MergePermutation<T>(a: seq<T>, b: seq<T>, key: T -> int)
    ensures multiset(Merge(a, b, key)) == multiset(a) + multiset(b)
    decreases |a| + |b|
  {
    if a == [] || b == [] {
    } else if key(a[0]) > key(b[0]) {
      MergePermutation(a, b[1..], key);
      ConsMultiset(b, Merge(a, b[1..], key));
    } else {
      MergePermutation(a[1..], b, key);
      ConsMultiset(a, Merge(a[1..], b, key));
    }
  }

  /** Putting an element in front of a sorted sequence whose first key is not smaller keeps it sorted. */
  lemma SortedCons<T>(x: T, s: seq<T>, key: T -> int)
    requires Sorted(s, key)
    requires s != [] ==> key(x) <= key(s[0])
    ensures Sorted([x] + s, key)
  {
    var r := [x] + s;
    forall i, j | 0 <= i < j < |r| ensures key(r[i]) <= key(r[j]) {
      if i == 0 {
        assert r[j] == s[j - 1];
        assert key(s[0]) <= key(s[j - 1]) || j - 1 == 0;
      } else {
        assert r[i] == s[i - 1] && r[j] == s[j - 1];
      }
    }
  }

  lemma {:induction false} MergeSorted<T>(a: seq<T>, b: seq<T>, key: T -> int)
    requires Sorted(a, key) && Sorted(b, key)
    ensures Sorted(Merge(a, b, key), key)
    ensures a != [] && b != [] ==> Merge(a, b, key)[0] == (if key(a[0]) > key(b[0]) then b[0] else a[0])
    decreases |a| + |b|
  {
    if a == [] || b == [] {
    } else if key(a[0]) > key(b[0]) {
      var b' := b[1..];
      MergeSorted(a, b', key);
      SortedCons(b[0], Merge(a, b', key), key);
      if b' != [] {
        assert key(b[0]) <= key(b'[0]);
      }
    } else {
      var a' := a[1..];
      MergeSorted(a', b, key);
      SortedCons(a[0], Merge(a', b, key), key);
      if a' != [] {
        assert key(a[0]) <= key(a'[0]);
      }
    }
  }

  lemma {:induction false} KeyFilterConcat<T>(s: seq<T>, t: seq<T>, key: T -> int, k: int)
    ensures KeyFilter(s + t, key, k) == KeyFilter(s, key, k) + KeyFilter(t, key, k)
    decreases |s|
  {
    if s == [] {
      assert s + t == t;
    } else {
      var h := if key(s[0]) == k then [s[0]] else [];
      KeyFilterConcat(s[1..], t, key, k);
      assert (s + t)[0] == s[0] && (s + t)[1..] == s[1..] + t;
      assert KeyFilter(s + t, key, k) == h + (KeyFilter(s[1..], key, k) + KeyFilter(t, key, k));
      assert KeyFilter(s, key, k) == h + KeyFilter(s[1..], key, k);
    }
  }

  /** Filtering a sequence by key filters its two parts and joins them. */
  lemma KeyFilterSplit<T>(s: seq<T>, h: int, key: T -> int, k: int)
    requires 0 <= h <= |s|
    ensures KeyFilter(s, key, k) == KeyFilter(s[..h], key, k) + KeyFilter(s[h..], key, k)
  {
    assert s == s[..h] + s[h..];
    KeyFilterConcat(s[..h], s[h..], key, k);
  }

  /** No element of a sequence whose keys are all larger than `k` has key `k`. */
  lemma {:induction false} KeyFilterAbove<T>(s: seq<T>, key: T -> int, k: int)
    requires forall i :: 0 <= i < |s| ==> key(s[i]) > k
    ensures KeyFilter(s, key, k) == []
    decreases |s|
  {
    if s != [] {
      KeyFilterAbove(s[1..], key, k);
    }
  }

  /**
   * Stability of merge: among elements with one key, those of `a` come first,
   * each side in its own order.
   */
  lemma {:induction false} MergeStable<T>(a: seq<T>, b: seq<T>, key: T -> int, k: int)
    requires Sorted(a, key)
    ensures KeyFilter(Merge(a, b, key), key, k) == KeyFilter(a, key, k) + KeyFilter(b, key, k)
    decreases |a| + |b|
  {
    if a == [] || b == [] {
    } else if key(a[0]) > key(b[0]) {
      MergeStable(a, b[1..], key, k);
      if key(b[0]) == k {
        KeyFilterAbove(a, key, k);
      }
    } else {
      MergeStable(a[1..], b, key, k);
    }
  }

  // ---------------------------------------------------------------------------
  // sort

  /**
   * What `merge` promises for sorted lists: the walk is the stable merge, its
   * result is sorted, holds the elements of both, and among equal keys keeps
   * the receiver's elements first, each list's in their own order.
   */
  lemma MergeOfSortedLists<T>(a: seq<T>, b: seq<T>, key: T -> int)
    requires Sorted(a, key) && Sorted(b, key)
    ensures MergeWalk(a, b, key) == Merge(a, b, key)
    ensures Sorted(MergeWalk(a, b, key), key)
    ensures multiset(MergeWalk(a, b, key)) == multiset(a) + multiset(b)
    ensures forall k :: KeyFilter(MergeWalk(a, b, key), key, k) == KeyFilter(a, key, k) + KeyFilter(b, key, k)
  {
    MergeWalkIsMerge(a, b, key);
    MergeSorted(a, b, key);
    MergeWalkPermutation(a, b, key);
    forall k ensures KeyFilter(Merge(a, b, key), key, k) == KeyFilter(a, key, k) + KeyFilter(b, key, k) {
      MergeStable(a, b, key, k);
    }
  }

  lemma {:induction false} MergeSortPermutation<T>(s: seq<T>, key: T -> int)
    ensures multiset(MergeSort(s, key)) == multiset(s)
    decreases |s|
  {
    if |s| >= 2 {
      var h := FirstHalfLength(|s|);
      var left, right := MergeSort(s[..h], key), MergeSort(s[h..], key);
      assert MergeSort(s, key) == MergeWalk(left, right, key);
      MergeSortPermutation(s[..h], key);
      MergeSortPermutation(s[h..], key);
      MergeWalkPermutation(left, right, key);
      SplitMultiset(s, h);
    }
  }

  /** The multiset of a sequence is that of its two parts together. */
  lemma SplitMultiset<T>(s: seq<T>, h: int)
    requires 0 <= h <= |s|
    ensures multiset(s) == multiset(s[..h]) + multiset(s[h..])
  {
    assert s == s[..h] + s[h..];
  }

  /** Sorting yields a sorted sequence, and on the way every merge is a textbook one. */
  lemma {:induction false} MergeSortSorted<T>(s: seq<T>, key: T -> int)
    ensures Sorted(MergeSort(s, key), key)
    ensures |s| >= 2 ==>
      MergeSort(s, key) == Merge(MergeSort(s[..FirstHalfLength(|s|)], key), MergeSort(s[FirstHalfLength(|s|)..], key), key)
    decreases |s|
  {
    if |s| >= 2 {
      var h := FirstHalfLength(|s|);
      var left, right := MergeSort(s[..h], key), MergeSort(s[h..], key);
      MergeSortSorted(s[..h], key);
      MergeSortSorted(s[h..], key);
      MergeWalkIsMerge(left, right, key);
      MergeSorted(left, right, key);
    }
  }

  /** Sorting is stable: elements with one key keep their relative order. */
  lemma {:induction false} MergeSortStable<T>(s: seq<T>, key: T -> int, k: int)
    ensures KeyFilter(MergeSort(s, key), key, k) == KeyFilter(s, key, k)
    decreases |s|
  {
    if |s| >= 2 {
      var h := FirstHalfLength(|s|);
      var left, right := MergeSort(s[..h], key), MergeSort(s[h..], key);
      MergeSortStable(s[..h], key, k);
      MergeSortStable(s[h..], key, k);
      MergeSortSorted(s, key);
      MergeSortSorted(s[..h], key);
      MergeStable(left, right, key, k);
      KeyFilterSplit(s, h, key, k);
    }
  }

  /** Both parts of a sorted sequence are sorted. */
  lemma SortedParts<T>(s: seq<T>, h: int, key: T -> int)
    requires Sorted(s, key) && 0 <= h <= |s|
    ensures Sorted(s[..h], key) && Sorted(s[h..], key)
  {
    var a, b := s[..h], s[h..];
    forall i, j | 0 <= i < j < |a| ensures key(a[i]) <= key(a[j]) {
      assert a[i] == s[i] && a[j] == s[j];
    }
    forall i, j | 0 <= i < j < |b| ensures key(b[i]) <= key(b[j]) {
      assert b[i] == s[h + i] && b[j] == s[h + j];
    }
  }

  /** Sorting a sorted sequence changes nothing. */
  lemma {:induction false} MergeSortOfSorted<T>(s: seq<T>, key: T -> int)
    requires Sorted(s, key)
    ensures MergeSort(s, key) == s
    decreases |s|
  {
    if |s| >= 2 {
      var h := FirstHalfLength(|s|);
      var a, b := s[..h], s[h..];
      assert a + b == s;
      SortedParts(s, h, key);
      MergeSortOfSorted(a, key);
      MergeSortOfSorted(b, key);
      MergeWalkIsMerge(a, b, key);
      MergeOfOrderedHalves(a, b, key);
      assert MergeSort(s, key) == MergeWalk(MergeSort(a, key), MergeSort(b, key), key);
    }
  }

  /** Merging two sequences whose concatenation is sorted gives the concatenation. */
  lemma {:induction false} MergeOfOrderedHalves<T>(a: seq<T>, b: seq<T>, key: T -> int)
    requires Sorted(a + b, key)
    ensures Merge(a, b, key) == a + b
    decreases |a| + |b|
  {
    if a == [] {
      assert a + b == b;
    } else if b == [] {
      assert a + b == a;
    } else {
      assert (a + b)[0] == a[0] && (a + b)[|a|] == b[0];
      assert key(a[0]) <= key(b[0]);
      assert (a + b)[1..] == a[1..] + b;
      MergeOfOrderedHalves(a[1..], b, key);
    }
  }

  // ---------------------------------------------------------------------------
  // unique

  lemma {:induction false} DedupLast<T>(s: seq<T>)
    requires s != []
    ensures Dedup(s) != [] && Dedup(s)[|Dedup(s)| - 1] == s[|s| - 1]
    decreases |s|
  {
    if |s| >= 2 {
      DedupLast(s[..|s| - 1]);
    }
  }

  /** One step of `unique`: the element at index `j` goes exactly when it repeats the one before. */
  lemma DedupStep<T>(s: seq<T>, j: int)
    requires 1 <= j < |s|
    ensures Dedup(s[..j + 1]) == if s[j] == s[j - 1] then Dedup(s[..j]) else Dedup(s[..j]) + [s[j]]
  {
    assert s[..j + 1][..j] == s[..j];
  }

  /**
   * unique's loop invariant, one step on: with `x` the list so far (the
   * first `j` elements deduplicated, the rest untouched) and `m` the cursor,
   * the cursor sits on `s[j]` after `s[j - 1]`; erasing the previous element
   * when the two are equal, or keeping it, gives the invariant for `j + 1`.
   */
  lemma UniqueWalkStep<T>(s: seq<T>, j: int, x: seq<T>)
    requires 1 <= j < |s| && x == Dedup(s[..j]) + s[j..]
    ensures var m := |Dedup(s[..j])|;
      && 1 <= m < |x| && x[m] == s[j] && x[m - 1] == s[j - 1]
      && (x[m] == x[m - 1] ==> x[..m - 1] + x[m..] == Dedup(s[..j + 1]) + s[j + 1..] && m == |Dedup(s[..j + 1])|)
      && (x[m] != x[m - 1] ==> x == Dedup(s[..j + 1]) + s[j + 1..] && m + 1 == |Dedup(s[..j + 1])|)
  {
    var d := Dedup(s[..j]);
    DedupLength(s[..j]);
    DedupLast(s[..j]);
    DedupStep(s, j);
    assert s[j..] == [s[j]] + s[j + 1..];
    CursorStep(d, s[j], s[j + 1..]);
  }

  /**
   * The sequence surgery of one step of unique's loop: `d` is the part
   * already scanned, `y` the element under the cursor at index |d|.
   * Erasing the element before the cursor when it equals `y` leaves `d`
   * followed by the rest; keeping it leaves `d + [y]` followed by the rest.
   */
  lemma CursorStep<T>(d: seq<T>, y: T, rest: seq<T>)
    requires d != []
    ensures var x, m := d + ([y] + rest), |d|;
      && m < |x| && x[m] == y && x[m - 1] == d[m - 1]
      && (y == d[m - 1] ==> x[..m - 1] + x[m..] == d + rest)
      && x == (d + [y]) + rest
  {
    var x, m := d + ([y] + rest), |d|;
    assert x[..m - 1] == d[..m - 1] && x[m..] == [y] + rest;
    if y == d[m - 1] {
      assert d == d[..m - 1] + [y];
    }
  }

  lemma {:induction false} DedupNoAdjacentDuplicates<T>(s: seq<T>)
    ensures NoAdjacentDuplicates(Dedup(s))
    decreases |s|
  {
    if |s| >= 2 {
      var init := s[..|s| - 1];
      DedupNoAdjacentDuplicates(init);
      if s[|s| - 1] != s[|s| - 2] {
        DedupLast(init);
        var d := Dedup(init);
        var r := d + [s[|s| - 1]];
        forall i, j | 0 <= i < j < |r| && j == i + 1 ensures r[i] != r[j] {
          if j < |d| {
            assert r[i] == d[i] && r[j] == d[j];
          }
        }
      }
    }
  }

  /** A sequence is left unchanged by `unique` exactly when it has no adjacent duplicates. */
  lemma {:induction false} DedupFixpoint<T>(s: seq<T>)
    ensures Dedup(s) == s <==> NoAdjacentDuplicates(s)
    decreases |s|
  {
    DedupNoAdjacentDuplicates(s);
    if |s| >= 2 {
      var init := s[..|s| - 1];
      if NoAdjacentDuplicates(s) {
        assert NoAdjacentDuplicates(init) by {
          forall i, j | 0 <= i < j < |init| && j == i + 1 ensures init[i] != init[j] {
            assert init[i] == s[i] && init[j] == s[j];
          }
        }
        DedupFixpoint(init);
        assert s[|s| - 2] != s[|s| - 1];
        assert init + [s[|s| - 1]] == s;
      }
    }
  }

  /** The length-counting shape of Dedup: it never grows, and keeps a first and last element. */
  lemma {:induction false} DedupLength<T>(s: seq<T>)
    ensures |Dedup(s)| <= |s|
    ensures s != [] ==> Dedup(s) != [] && Dedup(s)[0] == s[0]
    decreases |s|
  {
    if |s| >= 2 {
      DedupLength(s[..|s| - 1]);
    }
  }

  /** Nothing but duplicates is dropped: the same values remain. */
  lemma {:induction false} DedupSameValues<T>(s: seq<T>, x: T)
    ensures x in Dedup(s) <==> x in s
    decreases |s|
  {
    if |s| >= 2 {
      var init := s[..|s| - 1];
      DedupSameValues(init, x);
      assert s == init + [s[|s| - 1]];
      if s[|s| - 1] == s[|s| - 2] {
        assert s[|s| - 2] in init;
      }
    }
  }

  lemma {:induction false} CollapseRunsSnoc<T>(s: seq<T>, x: T)
    requires s != []
    ensures CollapseRuns(s + [x]) == if s[|s| - 1] == x then CollapseRuns(s) else CollapseRuns(s) + [x]
    decreases |s|
  {
    if |s| == 1 {
      assert s + [x] == [s[0], x];
    } else {
      assert (s + [x])[1..] == s[1..] + [x];
      assert (s + [x])[0] == s[0] && (s + [x])[1] == s[1];
      CollapseRunsSnoc(s[1..], x);
    }
  }

  /** Scanning back to front (as `unique` does) and front to back collapse the same runs. */
  lemma {:induction false} DedupIsCollapseRuns<T>(s: seq<T>)
    ensures Dedup(s) == CollapseRuns(s)
    decreases |s|
  {
    if |s| >= 2 {
      var init := s[..|s| - 1];
      DedupIsCollapseRuns(init);
      assert s == init + [s[|s| - 1]];
      CollapseRunsSnoc(init, s[|s| - 1]);
    }
  }

  lemma DedupExample()
    ensures Dedup([1, 1, 2, 2, 2, 3, 1]) == [1, 2, 3, 1]
  {
    var s := [1, 1, 2, 2, 2, 3, 1];
    DedupIsCollapseRuns(s);
    assert s[1..] == [1, 2, 2, 2, 3, 1];
    assert CollapseRuns([3, 1]) == [3, 1];
    assert CollapseRuns([2, 3, 1]) == [2, 3, 1];
    assert CollapseRuns([2, 2, 3, 1]) == [2, 3, 1];
    assert CollapseRuns([2, 2, 2, 3, 1]) == [2, 3, 1];
    assert CollapseRuns([1, 2, 2, 2, 3, 1]) == [1, 2, 3, 1];
  }

  // ---------------------------------------------------------------------------
  // splice and insert_many

  /**
   * One step of splice and of insert_many: with the first `t` elements of `o` already in before
   * index `k` of `c`, putting `o[t]` in at index `k + t` gives the first
   * `t + 1` of them in order, and what is left of `o` loses its front.
   */
  lemma SpliceStep<T>(c: seq<T>, o: seq<T>, k: int, t: int)
    requires 0 <= k <= |c| && 0 <= t < |o|
    ensures var x := c[..k] + o[..t] + c[k..];
      && k + t <= |x| && x[..k + t] == c[..k] + o[..t] && x[k + t..] == c[k..]
      && x[..k + t] + [o[t]] + x[k + t..] == c[..k] + o[..t + 1] + c[k..]
      && o[t..][0] == o[t] && o[t..][1..] == o[t + 1..]
  {
    var x := c[..k] + o[..t] + c[k..];
    assert x[..k + t] == c[..k] + o[..t] && x[k + t..] == c[k..];
    assert o[..t + 1] == o[..t] + [o[t]];
  }

  // ---------------------------------------------------------------------------
  // reverse

  lemma ReversedTwice<T>(s: seq<T>)
    ensures Reversed(Reversed(s)) == s
  {
  }
}
