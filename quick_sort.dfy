/**
 * Quick sort on arr[l..h] (both ends inclusive) in place, with two partition
 * schemes: partition_first takes arr[l] as the pivot and scans inwards from
 * both ends; partition_last takes arr[h] as the pivot and sweeps once from
 * the left.  Both put the pivot at the index they return, with no larger key
 * before it and only larger keys after it.
 */
module QuickSorting {
  import opened Order
  import opened Swapping

  /** The guarantees of both partitions on a range [l, h] with the pivot at p. */
  ghost predicate PivotAt<T>(s: seq<T>, key: T -> int, l: nat, p: nat, h: nat)
    requires l <= p <= h < |s|
  {
    (forall k :: l <= k < p ==> key(s[k]) <= key(s[p]))
    && (forall k :: p < k <= h ==> key(s[k]) > key(s[p]))
  }

  /**
   * Where partition_first stands at the head of its outer loop, with pivot
   * key v: the cursors i and j have not met, every key in (l, i) is at most v
   * and every key in (j, h] above it; while i < j, the cells under the cursors
   * agree with that too.
   */
  ghost predicate ScanState<T>(S: seq<T>, key: T -> int, v: int, l: nat, i: nat, j: nat, h: nat)
    requires h < |S|
  {
    l <= i <= h + 1 && l <= j <= h + 1 && i != j
    && (forall k :: l < k < i ==> key(S[k]) <= v)
    && (forall k :: j < k <= h ==> key(S[k]) > v)
    && (i < j ==> (i == l || key(S[i]) <= v) && (j == h + 1 || key(S[j]) > v))
  }

  /**
   * The first inner loop of partition_first, do { i++; } while (i <= h &&
   * pivot >= arr[i]): from i + 1, the first index past h or holding a key
   * above the pivot's.  S is the array's contents.
   */
  method ScanRight<T>(a: array<T>, key: T -> int, pivot: T, i: nat, h: nat, ghost S: seq<T>) returns (i': nat)
    requires i <= h < a.Length && a[..] == S
    ensures i < i' <= h + 1
    ensures forall k :: i < k < i' ==> key(S[k]) <= key(pivot)
    ensures i' > h || key(S[i']) > key(pivot)
  {
    i' := i + 1;
    while i' <= h && key(a[i']) <= key(pivot)
      invariant i < i' <= h + 1
      invariant forall k :: i < k < i' ==> key(S[k]) <= key(pivot)
    {
      i' := i' + 1;
    }
  }

  /**
   * The second inner loop of partition_first, do { j--; } while (j > l &&
   * pivot < arr[j]): from j - 1, the first index down to l holding a key at
   * most the pivot's, or l itself.  S is the array's contents.
   */
  method ScanLeft<T>(a: array<T>, key: T -> int, pivot: T, l: nat, j: nat, ghost S: seq<T>) returns (j': nat)
    requires l < j <= a.Length && a[..] == S
    ensures l <= j' < j
    ensures forall k :: j' < k < j ==> key(S[k]) > key(pivot)
    ensures j' == l || key(S[j']) <= key(pivot)
  {
    j' := j - 1;
    while j' > l && key(pivot) < key(a[j'])
      invariant l <= j' < j
      invariant forall k :: j' < k < j ==> key(S[k]) > key(pivot)
    {
      j' := j' - 1;
    }
  }

  /**
   * One round of partition_first's outer loop from cursors i0 < j0: i stopped
   * on a key above v (or past h), j on a key at most v (or at l); swapping
   * them when i < j leads to the next loop head.
   */
  lemma ScanRound<T>(S: seq<T>, key: T -> int, v: int, l: nat, i0: nat, i: nat, j0: nat, j: nat, h: nat)
    requires h < |S| && ScanState(S, key, v, l, i0, j0, h) && i0 < j0
    requires i0 < i <= h + 1 && (forall k :: i0 < k < i ==> key(S[k]) <= v) && (i > h || key(S[i]) > v)
    requires l <= j < j0 && (forall k :: j < k < j0 ==> key(S[k]) > v) && (j == l || key(S[j]) <= v)
    ensures i < j ==> ScanState(S[i := S[j]][j := S[i]], key, v, l, i, j, h)
    ensures i >= j ==> ScanState(S, key, v, l, i, j, h)
  {
  }

  /** The final swap of partition_first puts the pivot between the two parts. */
  lemma ScanDone<T>(S: seq<T>, key: T -> int, l: nat, i: nat, j: nat, h: nat)
    requires l <= h < |S| && ScanState(S, key, key(S[l]), l, i, j, h) && i >= j
    ensures l <= j <= h && PivotAt(S[l := S[j]][j := S[l]], key, l, j, h)
  {
  }

  /**
   * partition_first(arr, l, h): the pivot is arr[l].  The cursor i moves right
   * over keys at most the pivot's, j moves left over keys above it; while they
   * have not crossed, the two out-of-place cells are swapped.  Finally the
   * pivot is swapped to j, which is returned.
   */
  method PartitionFirst<T>(a: array<T>, key: T -> int, l: nat, h: nat) returns (j: nat)
    requires l <= h < a.Length
    modifies a
    ensures l <= j <= h && a[j] == old(a[l])
    ensures PivotAt(a[..], key, l, j, h)
    ensures Rearranged(a[..], old(a[..]), l, h + 1)
  {
    ghost var A := a[..];
    ghost var S := A;
    var pivot := a[l];
    var i: nat := l;
    j := h + 1;
    while i < j
      invariant a[..] == S && S[l] == pivot
      invariant ScanState(S, key, key(pivot), l, i, j, h)
      invariant Rearranged(S, A, l + 1, h + 1)
      decreases j - i
    {
      ghost var i0, j0 := i, j;
      i := ScanRight(a, key, pivot, i, h, S);
      j := ScanLeft(a, key, pivot, l, j, S);
      ScanRound(S, key, key(pivot), l, i0, i, j0, j, h);
      if i < j {
        Swap(a, i, j);
        SwapRearranged(S, A, l + 1, h + 1, i, j);
        S := S[i := S[j]][j := S[i]];
      }
    }
    ScanDone(S, key, l, i, j, h);
    Swap(a, l, j);
    RearrangedWiden(S, A, l + 1, h + 1, l, h + 1);
    SwapRearranged(S, A, l, h + 1, l, j);
  }

  /**
   * Where partition_last stands before index j of its sweep, with pivot key
   * v: keys in [l, p) are at most v and keys in [p, j) above it.
   */
  ghost predicate SweepState<T>(S: seq<T>, key: T -> int, v: int, l: nat, p: nat, j: nat)
    requires j <= |S|
  {
    l <= p <= j
    && (forall k :: l <= k < p ==> key(S[k]) <= v)
    && (forall k :: p <= k < j ==> key(S[k]) > v)
  }

  /** One step of partition_last's sweep: a key at most v is swapped to p, which moves on. */
  lemma SweepStep<T>(S: seq<T>, key: T -> int, v: int, l: nat, p: nat, j: nat)
    requires j < |S| && SweepState(S, key, v, l, p, j)
    ensures key(S[j]) <= v ==> SweepState(S[j := S[p]][p := S[j]], key, v, l, p + 1, j + 1)
    ensures key(S[j]) > v ==> SweepState(S, key, v, l, p, j + 1)
  {
  }

  /** The final swap of partition_last puts the pivot between the two parts. */
  lemma SweepDone<T>(S: seq<T>, key: T -> int, l: nat, p: nat, h: nat)
    requires h < |S| && SweepState(S, key, key(S[h]), l, p, h)
    ensures l <= p <= h && PivotAt(S[h := S[p]][p := S[h]], key, l, p, h)
  {
  }

  /**
   * partition_last(arr, l, h): the pivot is arr[h].  One sweep with j over
   * [l, h) moves every key at most the pivot's to the front part [l, p), where
   * p stands for the source's i + 1 (its i starts at l - 1, relying on
   * unsigned wrap-around when l is 0).  Finally the pivot is swapped to p,
   * which is returned.
   */
  method PartitionLast<T>(a: array<T>, key: T -> int, l: nat, h: nat) returns (p: nat)
    requires l <= h < a.Length
    modifies a
    ensures l <= p <= h && a[p] == old(a[h])
    ensures PivotAt(a[..], key, l, p, h)
    ensures Rearranged(a[..], old(a[..]), l, h + 1)
  {
    ghost var A := a[..];
    ghost var S := A;
    var pivot := a[h];
    p := l;
    for j := l to h
      invariant a[..] == S && S[h] == pivot
      invariant SweepState(S, key, key(pivot), l, p, j)
      invariant Rearranged(S, A, l, h)
    {
      SweepStep(S, key, key(pivot), l, p, j);
      if key(a[j]) <= key(pivot) {
        Swap(a, j, p);
        SwapRearranged(S, A, l, h, j, p);
        S := S[j := S[p]][p := S[j]];
        p := p + 1;
      }
    }
    SweepDone(S, key, l, p, h);
    Swap(a, h, p);
    RearrangedWiden(S, A, l, h, l, h + 1);
    SwapRearranged(S, A, l, h + 1, h, p);
  }

  /**
   * One level of either quick sort: a partition of A with the pivot at j,
   * then both sides sorted, each a rearrangement of what it held, sorts
   * and rearranges the whole range.
   */
  lemma QuickStep<T>(A: seq<T>, P: seq<T>, B1: seq<T>, B2: seq<T>, key: T -> int, l: nat, j: nat, h: nat)
    requires l <= j <= h < |P|
    requires Rearranged(P, A, l, h + 1) && PivotAt(P, key, l, j, h)
    requires Rearranged(B1, P, l, j) && SortedBetween(B1, key, l, j)
    requires Rearranged(B2, B1, j + 1, h + 1) && SortedBetween(B2, key, j + 1, h + 1)
    ensures Rearranged(B2, A, l, h + 1) && SortedBetween(B2, key, l, h + 1)
  {
    var v := key(P[j]);
    RangeKeepsBound(P, B1, l, j, x => key(x) <= v);
    RangeKeepsBound(B1, B2, j + 1, h + 1, x => key(x) > v);
    assert B2[j] == P[j];
    SortedAroundPivot(B2, key, l, j, h);
    RearrangedWiden(B1, P, l, j, l, h + 1);
    RearrangedWiden(B2, B1, j + 1, h + 1, l, h + 1);
    RearrangedTrans(B2, B1, P, l, h + 1);
    RearrangedTrans(B2, P, A, l, h + 1);
  }

  /** A pivot with the sorted no-larger keys before it and the sorted larger keys after it. */
  lemma SortedAroundPivot<T>(s: seq<T>, key: T -> int, l: nat, p: nat, h: nat)
    requires l <= p <= h < |s|
    requires SortedBetween(s, key, l, p) && SortedBetween(s, key, p + 1, h + 1)
    requires PivotAt(s, key, l, p, h)
    ensures SortedBetween(s, key, l, h + 1)
  {
  }

  /**
   * quick_sort_first(arr, l, h): for l < h, partitions with partition_first
   * and sorts the parts on each side of the pivot that are nonempty; returns
   * arr.  The range ends up ascending, the array is rearranged, and nothing
   * outside [l, h] changes.
   */
  method QuickSortFirst<T>(a: array<T>, key: T -> int, l: nat, h: nat) returns (r: array<T>)
    requires l < h ==> h < a.Length
    modifies a
    ensures r == a
    ensures l <= h < a.Length ==> SortedBetween(a[..], key, l, h + 1)
    ensures Rearranged(a[..], old(a[..]), l, h + 1)
    decreases if l < h then h - l else 0
  {
    r := a;
    if l < h {
      ghost var A := a[..];
      var j := PartitionFirst(a, key, l, h);
      ghost var P := a[..];
      if j > l {
        var _ := QuickSortFirst(a, key, l, j - 1);
      }
      ghost var B1 := a[..];
      if j < h {
        var _ := QuickSortFirst(a, key, j + 1, h);
      }
      QuickStep(A, P, B1, a[..], key, l, j, h);
    }
  }

  /**
   * quick_sort_last(arr, l, h): the same recursion with partition_last.
   */
  method QuickSortLast<T>(a: array<T>, key: T -> int, l: nat, h: nat) returns (r: array<T>)
    requires l < h ==> h < a.Length
    modifies a
    ensures r == a
    ensures l <= h < a.Length ==> SortedBetween(a[..], key, l, h + 1)
    ensures Rearranged(a[..], old(a[..]), l, h + 1)
    decreases if l < h then h - l else 0
  {
    r := a;
    if l < h {
      ghost var A := a[..];
      var i := PartitionLast(a, key, l, h);
      ghost var P := a[..];
      if i > l {
        var _ := QuickSortLast(a, key, l, i - 1);
      }
      ghost var B1 := a[..];
      if i < h {
        var _ := QuickSortLast(a, key, i + 1, h);
      }
      QuickStep(A, P, B1, a[..], key, l, i, h);
    }
  }

  /** The quick-sort example program: {12, -1, 0, 1, 10, -20} on [0, 5]. */
  method Example() returns (s: seq<int>)
    ensures s == [-20, -1, 0, 1, 10, 12]
  {
    var a := new int[6];
    a[0], a[1], a[2], a[3], a[4], a[5] := 12, -1, 0, 1, 10, -20;
    ghost var input := a[..];
    assert input == [12, -1, 0, 1, 10, -20];
    var _ := QuickSortFirst(a, Id, 0, 5);
    s := a[..];
    ExampleSorted(input, s);
  }

  /** The example sorted with the other partition scheme gives the same output. */
  method ExampleLast() returns (s: seq<int>)
    ensures s == [-20, -1, 0, 1, 10, 12]
  {
    var a := new int[6];
    a[0], a[1], a[2], a[3], a[4], a[5] := 12, -1, 0, 1, 10, -20;
    ghost var input := a[..];
    assert input == [12, -1, 0, 1, 10, -20];
    var _ := QuickSortLast(a, Id, 0, 5);
    s := a[..];
    ExampleSorted(input, s);
  }

  /** The only sorted rearrangement of the example's input is the printed result. */
  lemma ExampleSorted(input: seq<int>, s: seq<int>)
    requires input == [12, -1, 0, 1, 10, -20]
    requires |s| == 6 && SortedBetween(s, Id, 0, 6) && Rearranged(s, input, 0, 6)
    ensures s == [-20, -1, 0, 1, 10, 12]
  {
    assert s[0..6] == s;
    SortedBetweenSlice(s, Id, 0, 6);
    ExamplePerm(input);
    ExampleOutputAscending();
    AscendingUnique(s, [-20, -1, 0, 1, 10, 12], Id);
  }

  lemma ExamplePerm(input: seq<int>)
    requires input == [12, -1, 0, 1, 10, -20]
    ensures multiset(input) == multiset([-20, -1, 0, 1, 10, 12])
  {
    assert multiset(input) == multiset{12, -1, 0, 1, 10, -20};
    assert multiset{12, -1, 0, 1, 10, -20} == multiset{-20, -1, 0, 1, 10, 12};
    assert multiset([-20, -1, 0, 1, 10, 12]) == multiset{-20, -1, 0, 1, 10, 12};
  }

  lemma ExampleOutputAscending()
    ensures Ascending([-20, -1, 0, 1, 10, 12], Id)
  {
  }
}
