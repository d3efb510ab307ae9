/**
 * PathSorter: heap sort of path results over an array, with a min-heap
 * ordered by each result's key (time or cost, as its tag says). The two
 * copies of the class share the fields, minHeapify and swap; they differ
 * only in what heapSort does after the extraction phase.
 */
module Sorter {
  import opened Results

  /** Non-decreasing by key: most efficient first. */
  predicate Ascending(s: seq<PathResult>) {
    forall i, j :: 0 <= i < j < |s| ==> Key(s[i]) <= Key(s[j])
  }

  /** Non-increasing by key: least efficient first. */
  predicate Descending(s: seq<PathResult>) {
    forall i, j :: 0 <= i < j < |s| ==> Key(s[j]) <= Key(s[i])
  }

  /** Collections.reverse: the same results, last first. */
  function Reversed(s: seq<PathResult>): (r: seq<PathResult>)
    ensures |r| == |s|
    ensures forall k :: 0 <= k < |s| ==> r[k] == s[|s| - 1 - k]
  {
    if s == [] then [] else [s[|s| - 1]] + Reversed(s[..|s| - 1])
  }

  /** Reversing keeps every result, as often as it occurred. */
  lemma {:induction false} ReversedPermutation(s: seq<PathResult>)
    ensures multiset(Reversed(s)) == multiset(s)
  {
    if s != [] {
      ReversedPermutation(s[..|s| - 1]);
      assert s == s[..|s| - 1] + [s[|s| - 1]];
    }
  }

  /** Reversing a non-increasing sequence gives a non-decreasing one, and back. */
  lemma ReversedAscending(s: seq<PathResult>)
    ensures Descending(s) <==> Ascending(Reversed(s))
  {
    var r := Reversed(s);
    if Ascending(r) {
      forall i, j | 0 <= i < j < |s| ensures Key(s[j]) <= Key(s[i]) {
        assert s[j] == r[|s| - 1 - j] && s[i] == r[|s| - 1 - i];
      }
    }
  }

  /** The children of node p that lie below n are not smaller than p. */
  ghost predicate ParentOk(a: seq<PathResult>, n: int, p: int)
    requires 0 <= p && n <= |a|
  {
    && (2 * p + 1 < n ==> Key(a[p]) <= Key(a[2 * p + 1]))
    && (2 * p + 2 < n ==> Key(a[p]) <= Key(a[2 * p + 2]))
  }

  /** a[..n] is a min-heap at every node from lo on. */
  ghost predicate HeapFrom(a: seq<PathResult>, lo: int, n: int)
    requires 0 <= lo && n <= |a|
  {
    forall p :: lo <= p < n ==> ParentOk(a, n, p)
  }

  /** Node g is not larger than the children of node i that lie below n. */
  ghost predicate BelowChildren(a: seq<PathResult>, n: int, g: int, i: int)
    requires 0 <= g <= i && n <= |a|
  {
    && (2 * i + 1 < n ==> Key(a[g]) <= Key(a[2 * i + 1]))
    && (2 * i + 2 < n ==> Key(a[g]) <= Key(a[2 * i + 2]))
  }

  /**
   * What minHeapify(i) starts from: a min-heap from lo on except possibly
   * at node i, whose parent (when at least lo) is already not larger than
   * i's children.
   */
  ghost predicate HeapExcept(a: seq<PathResult>, lo: int, n: int, i: int)
    requires 0 <= lo <= i && n <= |a|
  {
    && (forall p :: lo <= p < n && p != i ==> ParentOk(a, n, p))
    && (0 < i && lo <= (i - 1) / 2 ==> BelowChildren(a, n, (i - 1) / 2, i))
  }

  /**
   * During extraction: every element of the heap part a[..n] is at least
   * every element of the sorted part a[n..], and the sorted part is
   * non-increasing.
   */
  ghost predicate Settled(a: seq<PathResult>, n: int)
    requires 0 <= n <= |a|
  {
    && (forall x, y :: 0 <= x < n <= y < |a| ==> Key(a[y]) <= Key(a[x]))
    && (forall x, y :: n <= x < y < |a| ==> Key(a[y]) <= Key(a[x]))
  }

  /** In a min-heap the root is not larger than any element of the heap. */
  lemma {:induction false} RootBelow(a: seq<PathResult>, n: int, k: int)
    requires n <= |a| && HeapFrom(a, 0, n) && 0 <= k < n
    ensures Key(a[0]) <= Key(a[k])
    decreases k
  {
    if k > 0 {
      var p := (k - 1) / 2;
      RootBelow(a, n, p);
      assert ParentOk(a, n, p);
    }
  }

  /**
   * One sift-down step: swapping node i with its smaller child c, which
   * is smaller than i, moves the one possible violation down to c.
   */
  lemma SiftStep(a: seq<PathResult>, lo: int, n: int, i: int, c: int)
    requires 0 <= lo <= i && n <= |a| && HeapExcept(a, lo, n, i)
    requires (c == 2 * i + 1 || c == 2 * i + 2) && c < n
    requires Key(a[c]) < Key(a[i])
    requires 2 * i + 1 < n ==> Key(a[c]) <= Key(a[2 * i + 1])
    requires 2 * i + 2 < n ==> Key(a[c]) <= Key(a[2 * i + 2])
    ensures HeapExcept(a[i := a[c]][c := a[i]], lo, n, c)
  {
    var b := a[i := a[c]][c := a[i]];
    forall p | lo <= p < n && p != c ensures ParentOk(b, n, p) {
      if p == i {
      } else if 0 < i && p == (i - 1) / 2 {
        assert BelowChildren(a, n, p, i);
        assert ParentOk(a, n, p);
      } else {
        assert ParentOk(a, n, p);
        assert 2 * p + 1 != i && 2 * p + 2 != i && 2 * p + 1 != c && 2 * p + 2 != c;
      }
    }
    assert (c - 1) / 2 == i;
    assert ParentOk(a, n, c);
  }

  /** With no child smaller than node i, the exception at i is gone. */
  lemma SiftDone(a: seq<PathResult>, lo: int, n: int, i: int)
    requires 0 <= lo <= i && n <= |a| && HeapExcept(a, lo, n, i)
    requires i < n ==> ParentOk(a, n, i)
    ensures HeapFrom(a, lo, n)
  {
  }

  /**
   * One extraction step: swapping the root of the heap a[..last+1] with
   * its last element leaves a heap on a[..last] that is wrong at most at
   * the root, and a sorted part grown by the old root.
   */
  lemma ExtractStep(a: seq<PathResult>, last: int)
    requires 0 < last < |a| && HeapFrom(a, 0, last + 1) && Settled(a, last + 1)
    ensures HeapExcept(a[0 := a[last]][last := a[0]], 0, last, 0)
    ensures Settled(a[0 := a[last]][last := a[0]], last)
  {
    var b := a[0 := a[last]][last := a[0]];
    forall p | 0 <= p < last && p != 0 ensures ParentOk(b, last, p) {
      assert ParentOk(a, last + 1, p);
    }
    forall x, y | 0 <= x < last <= y < |b| ensures Key(b[y]) <= Key(b[x]) {
      if y == last {
        RootBelow(a, last + 1, if x == 0 then last else x);
      }
    }
  }

  /** Two permutations that agree from n on hold the same results before n. */
  lemma PrefixPermutation(b: seq<PathResult>, c: seq<PathResult>, n: int)
    requires 0 <= n <= |b| == |c| && multiset(b) == multiset(c)
    requires b[n..] == c[n..]
    ensures multiset(b[..n]) == multiset(c[..n])
  {
    assert b == b[..n] + b[n..] && c == c[..n] + c[n..];
    forall e ensures multiset(b[..n])[e] == multiset(c[..n])[e] {
      assert (multiset(b[..n]) + multiset(b[n..]))[e] == (multiset(c[..n]) + multiset(c[n..]))[e];
    }
  }

  /**
   * The sorted part is settled by value: permuting the heap part while
   * the sorted part stays put keeps it settled.
   */
  lemma SettledPermutation(b: seq<PathResult>, c: seq<PathResult>, n: int)
    requires 0 <= n <= |b| == |c| && multiset(b) == multiset(c)
    requires b[n..] == c[n..]
    requires Settled(b, n)
    ensures Settled(c, n)
  {
    PrefixPermutation(b, c, n);
    forall x, y | 0 <= x < n <= y < |c| ensures Key(c[y]) <= Key(c[x]) {
      assert c[x] in multiset(b[..n]);
      var j :| 0 <= j < n && b[..n][j] == c[x];
    }
  }

  /** Tags travel with the results: swapping two cells keeps every tag equal to tag, and back. */
  lemma SwapTagged(a: seq<PathResult>, i: int, j: int, tag: char)
    requires 0 <= i < |a| && 0 <= j < |a|
    ensures Tagged(a[i := a[j]][j := a[i]], tag) <==> Tagged(a, tag)
  {
    var b := a[i := a[j]][j := a[i]];
    if Tagged(b, tag) {
      forall k | 0 <= k < |a| ensures a[k].sortBy == tag {
        if k == i { assert a[k] == b[j]; } else if k == j { assert a[k] == b[i]; } else { assert a[k] == b[k]; }
      }
    }
  }

  /**
   * The choice minHeapify makes at node i: m is the smaller of i and its
   * left child, c the smaller of m and the right child, as compareTo
   * decides. When every result carries one tag, stopping (c == i) leaves
   * a heap, and swapping i with c moves the one possible violation to c.
   */
  lemma SiftChoice(a: seq<PathResult>, lo: int, n: int, i: int, m: int, c: int, tag: char)
    requires 0 <= lo <= i && n <= |a|
    requires Tagged(a, tag) ==> HeapExcept(a, lo, n, i)
    requires m == if 2 * i + 1 < n && CompareTo(a[2 * i + 1], a[i]) < 0 then 2 * i + 1 else i
    requires c == if 2 * i + 2 < n && CompareTo(a[2 * i + 2], a[m]) < 0 then 2 * i + 2 else m
    ensures c == i || ((c == 2 * i + 1 || c == 2 * i + 2) && c < n)
    ensures c == i && Tagged(a, tag) ==> HeapFrom(a, lo, n)
    ensures c != i ==> (Tagged(a[i := a[c]][c := a[i]], tag) <==> Tagged(a, tag))
    ensures c != i && Tagged(a, tag) ==> HeapExcept(a[i := a[c]][c := a[i]], lo, n, c)
  {
    if c != i {
      SwapTagged(a, i, c, tag);
    }
    if Tagged(a, tag) {
      if 2 * i + 1 < n {
        CompareToByKey(a[2 * i + 1], a[i]);
      }
      if 2 * i + 2 < n {
        CompareToByKey(a[2 * i + 2], a[m]);
        CompareToByKey(a[2 * i + 2], a[i]);
      }
      if c != i {
        SiftStep(a, lo, n, i, c);
      } else {
        SiftDone(a, lo, n, i);
      }
    }
  }

  class PathSorter {
    var heap: array<PathResult>
    var size: int

    /** A new sorter holds no results. */
    constructor ()
      ensures heap.Length == 0 && size == 0
    {
      heap := new PathResult[0];
      size := 0;
    }

    /** swap: exchanges two cells of the heap array; nothing else changes. */
    method Swap(i: int, j: int)
      requires 0 <= i < heap.Length && 0 <= j < heap.Length
      modifies heap
      ensures heap[..] == old(heap[..])[i := old(heap[j])][j := old(heap[i])]
      ensures multiset(heap[..]) == old(multiset(heap[..]))
    {
      var temp := heap[i];
      heap[i] := heap[j];
      heap[j] := temp;
    }

    /**
     * minHeapify: sifts node i down, swapping it with its smaller child
     * (as compareTo decides) while that child is smaller. It permutes only
     * cells in [i, size), and when every result carries one tag it turns
     * a heap that is wrong only at i into a heap from lo on.
     */
    method MinHeapify(i: int, ghost lo: int, ghost tag: char)
      requires 0 <= lo <= i && 0 <= size <= heap.Length
      requires Tagged(heap[..], tag) ==> HeapExcept(heap[..], lo, size, i)
      modifies heap
      ensures multiset(heap[..]) == old(multiset(heap[..]))
      ensures forall k :: 0 <= k < heap.Length && !(i <= k < size) ==> heap[k] == old(heap[k])
      ensures Tagged(heap[..], tag) <==> old(Tagged(heap[..], tag))
      ensures Tagged(heap[..], tag) ==> HeapFrom(heap[..], lo, size)
      decreases size - i
    {
      ghost var a := heap[..];
      var smallest := i;
      var left := 2 * i + 1;
      var right := 2 * i + 2;
      if left < size && CompareTo(heap[left], heap[smallest]) < 0 {
        smallest := left;
      }
      ghost var m := smallest;
      if right < size && CompareTo(heap[right], heap[smallest]) < 0 {
        smallest := right;
      }
      SiftChoice(a, lo, size, i, m, smallest, tag);
      if smallest != i {
        Swap(i, smallest);
        ghost var b := heap[..];
        MinHeapify(smallest, lo, tag);
        forall k | 0 <= k < heap.Length && !(i <= k < size) ensures heap[k] == a[k] {
          assert heap[k] == b[k];
        }
      }
    }

    /**
     * heapSort step 2: minHeapify every inner node, from the last one
     * down to the root. The array is permuted in place; when every result
     * carries one tag the heap part ends a min-heap.
     */
    method BuildMinHeap(ghost tag: char)
      requires 0 <= size == heap.Length
      modifies heap
      ensures multiset(heap[..]) == old(multiset(heap[..]))
      ensures Tagged(heap[..], tag) <==> old(Tagged(heap[..], tag))
      ensures Tagged(heap[..], tag) ==> HeapFrom(heap[..], 0, size)
    {
      ghost var ordered := Tagged(heap[..], tag);
      var i := size / 2 - 1;
      while i >= 0
        invariant -1 <= i < size == heap.Length
        invariant multiset(heap[..]) == old(multiset(heap[..]))
        invariant Tagged(heap[..], tag) == ordered
        invariant ordered ==> HeapFrom(heap[..], i + 1, size)
        modifies heap
      {
        MinHeapify(i, i, tag);
        i := i - 1;
      }
    }

    /**
     * One round of heapSort step 3 with i the last cell of the heap part:
     * swap the root into cell i, shrink the heap part to [0, i) and sift
     * the new root down. When every result carries one tag the heap part
     * stays a min-heap and the sorted part grows by the old root.
     */
    method ExtractRoot(i: int, ghost tag: char)
      requires 0 < i < heap.Length && size == i + 1
      requires Tagged(heap[..], tag) ==> HeapFrom(heap[..], 0, size) && Settled(heap[..], size)
      modifies this`size, heap
      ensures size == i
      ensures multiset(heap[..]) == old(multiset(heap[..]))
      ensures Tagged(heap[..], tag) <==> old(Tagged(heap[..], tag))
      ensures Tagged(heap[..], tag) ==> HeapFrom(heap[..], 0, size) && Settled(heap[..], size)
    {
      ghost var a := heap[..];
      ghost var ordered := Tagged(a, tag);
      if ordered {
        ExtractStep(a, i);
      }
      SwapTagged(a, 0, i, tag);
      Swap(0, i);
      ghost var b := heap[..];
      assert b == a[0 := a[i]][i := a[0]];
      size := size - 1;
      assert heap[..] == b && size == i;
      MinHeapify(0, 0, tag);
      assert heap[size..] == b[size..];
      if ordered {
        SettledPermutation(b, heap[..], size);
      }
    }

    /**
     * heapSort step 3: extract the root from the last cell of the heap
     * part down to cell 1, leaving one cell in the heap part. When every
     * result carries one tag the array ends non-increasing by key.
     */
    method SortDown(ghost tag: char)
      requires 1 <= size == heap.Length
      requires Tagged(heap[..], tag) ==> HeapFrom(heap[..], 0, size)
      modifies this`size, heap
      ensures size == 1
      ensures multiset(heap[..]) == old(multiset(heap[..]))
      ensures Tagged(heap[..], tag) <==> old(Tagged(heap[..], tag))
      ensures Tagged(heap[..], tag) ==> Descending(heap[..])
    {
      ghost var ordered := Tagged(heap[..], tag);
      var i := size - 1;
      while i > 0
        invariant 0 <= i < heap.Length && size == i + 1
        invariant multiset(heap[..]) == old(multiset(heap[..]))
        invariant Tagged(heap[..], tag) == ordered
        invariant ordered ==> HeapFrom(heap[..], 0, size) && Settled(heap[..], size)
      {
        ExtractRoot(i, tag);
        i := i - 1;
      }
    }

    /**
     * heapSort steps 1 to 3, common to both copies: copy the results into
     * a new array, build a min-heap, then extract. The array ends
     * non-increasing and size ends at 1.
     */
    method BuildAndExtract(paths: seq<PathResult>)
      requires paths != []
      modifies this
      ensures fresh(heap) && heap.Length == |paths| && size == 1
      ensures multiset(heap[..]) == multiset(paths)
      ensures SameTag(paths) ==> Descending(heap[..])
    {
      heap := new PathResult[|paths|](k requires 0 <= k < |paths| => paths[k]);
      size := |paths|;
      ghost var tag := paths[0].sortBy;
      assert heap[..] == paths;
      assert Tagged(heap[..], tag) == SameTag(paths);
      BuildMinHeap(tag);
      SortDown(tag);
    }

    /**
     * heapSort of the core package: the results in non-decreasing order
     * of key (most efficient first) when they share one tag, always a
     * permutation of the input. The heap array keeps the non-increasing
     * order, the returned list is its reverse, and size is reset to the
     * array length. An empty input returns an empty list and changes
     * nothing.
     */
    method HeapSort(paths: seq<PathResult>) returns (sorted: seq<PathResult>)
      modifies this
      ensures multiset(sorted) == multiset(paths)
      ensures SameTag(paths) ==> Ascending(sorted)
      ensures paths == [] ==> sorted == [] && heap == old(heap) && size == old(size)
      ensures paths != [] ==> fresh(heap) && size == heap.Length == |paths| && sorted == Reversed(heap[..])
    {
      if paths == [] {
        return [];
      }
      BuildAndExtract(paths);
      sorted := Reversed(heap[..]);
      ReversedPermutation(heap[..]);
      ReversedAscending(heap[..]);
      size := heap.Length;
    }

    /**
     * heapSort of the default package, which omits the final reversal:
     * the results come back non-increasing by key (least efficient first)
     * when they share one tag, and size stays at 1.
     */
    method HeapSortUnreversed(paths: seq<PathResult>) returns (sorted: seq<PathResult>)
      modifies this
      ensures multiset(sorted) == multiset(paths)
      ensures SameTag(paths) ==> Descending(sorted)
      ensures paths == [] ==> sorted == [] && heap == old(heap) && size == old(size)
      ensures paths != [] ==> fresh(heap) && size == 1 && sorted == heap[..]
    {
      if paths == [] {
        return [];
      }
      BuildAndExtract(paths);
      sorted := heap[..];
    }
  }

  /** Two two-element sequences with the same multiset are equal or each other's swap. */
  lemma PairPermutation(x: PathResult, y: PathResult, u: PathResult, v: PathResult)
    requires multiset([x, y]) == multiset([u, v])
    ensures (x == u && y == v) || (x == v && y == u)
  {
    assert x in multiset([u, v]) && y in multiset([u, v]);
  }

  /**
   * The default-package heapSort promises "most efficient to least
   * efficient". For the two cost-tagged results below, every output that
   * meets its postcondition (a non-increasing permutation) puts the cost
   * 20 plan first, so the promised order fails.
   */
  lemma UnreversedNotAscending(sorted: seq<PathResult>)
    requires multiset(sorted) == multiset([PathResult(["A", "B"], 10, 5, 'C'), PathResult(["A", "C", "B"], 20, 7, 'C')])
    requires Descending(sorted)
    ensures !Ascending(sorted)
    ensures sorted == [PathResult(["A", "C", "B"], 20, 7, 'C'), PathResult(["A", "B"], 10, 5, 'C')]
  {
    assert |sorted| == |multiset(sorted)| == 2;
    assert sorted == [sorted[0], sorted[1]];
    PairPermutation(sorted[0], sorted[1], PathResult(["A", "B"], 10, 5, 'C'), PathResult(["A", "C", "B"], 20, 7, 'C'));
  }
}
