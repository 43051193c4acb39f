/**
 * Top-down merge sort on the inclusive index range [l, h] of an array, as in
 * merge_sort.hpp: `merge_array` merges two adjacent ascending runs through a
 * temporary buffer and copies the result back; `merge_sort` sorts both halves
 * recursively and merges them.
 */
module MergeSorting {
  import opened Order

  /**
   * The sequence that merge_array produces from the runs x and y: the smaller
   * head goes first, and on equal keys the head of the left run wins.
   */
  function Merge<T>(x: seq<T>, y: seq<T>, key: T -> int): (r: seq<T>)
    ensures |r| == |x| + |y|
    decreases |x| + |y|
  {
    if x == [] then y
    else if y == [] then x
    else if key(x[0]) <= key(y[0]) then [x[0]] + Merge(x[1..], y, key)
    else [y[0]] + Merge(x, y[1..], key)
  }

  /**
   * The three loops of merge_array run to the end from cursors i (in the left
   * run A[..mid]) and j (in the right run A[..h]) with `out` already in the
   * buffer: the buffer's final contents.
   */
  ghost function MergeLoop<T>(A: seq<T>, key: T -> int, i: nat, mid: nat, j: nat, h: nat, out: seq<T>): seq<T>
    requires i <= mid + 1 <= j <= h + 1 <= |A|
    decreases (mid + 1 - i) + (h + 1 - j)
  {
    if i <= mid && j <= h then
      if key(A[i]) <= key(A[j]) then MergeLoop(A, key, i + 1, mid, j, h, out + [A[i]])
      else MergeLoop(A, key, i, mid, j + 1, h, out + [A[j]])
    else if i <= mid then MergeLoop(A, key, i + 1, mid, j, h, out + [A[i]])
    else if j <= h then MergeLoop(A, key, i, mid, j + 1, h, out + [A[j]])
    else out
  }

  /** The loops append the merge of what is left of the two runs. */
  lemma {:induction false} MergeLoopIsMerge<T>(A: seq<T>, key: T -> int, i: nat, mid: nat, j: nat, h: nat, out: seq<T>)
    requires i <= mid + 1 <= j <= h + 1 <= |A|
    ensures MergeLoop(A, key, i, mid, j, h, out) == out + Merge(A[i..mid + 1], A[j..h + 1], key)
    decreases (mid + 1 - i) + (h + 1 - j)
  {
    if i <= mid && (j > h || key(A[i]) <= key(A[j])) {
      MergeLoopIsMerge(A, key, i + 1, mid, j, h, out + [A[i]]);
      SliceTail(A, i, mid + 1);
      AppendAssoc(out, [A[i]], Merge(A[i + 1..mid + 1], A[j..h + 1], key));
    } else if j <= h {
      MergeLoopIsMerge(A, key, i, mid, j + 1, h, out + [A[j]]);
      SliceTail(A, j, h + 1);
      AppendAssoc(out, [A[j]], Merge(A[i..mid + 1], A[j + 1..h + 1], key));
    } else {
      assert A[i..mid + 1] == [] && A[j..h + 1] == [];
    }
  }

  /** Adjacent slices join into one. */
  lemma JoinSlices<T>(A: seq<T>, lo: nat, m: nat, hi: nat)
    requires lo <= m <= hi <= |A|
    ensures A[lo..hi] == A[lo..m] + A[m..hi]
  {
  }

  /** Sequences that agree on [lo, hi) have equal slices there. */
  lemma SameSlice<T>(A: seq<T>, B: seq<T>, lo: nat, hi: nat)
    requires lo <= hi <= |A| == |B|
    requires forall k :: lo <= k < hi ==> A[k] == B[k]
    ensures A[lo..hi] == B[lo..hi]
  {
  }

  /** A nonempty slice is its first element followed by the rest. */
  lemma SliceTail<T>(A: seq<T>, lo: nat, hi: nat)
    requires lo < hi <= |A|
    ensures A[lo..hi] == [A[lo]] + A[lo + 1..hi]
    ensures A[lo..hi][0] == A[lo] && A[lo..hi][1..] == A[lo + 1..hi]
  {
  }

  /** When all three loops have run, the buffer holds the merge of the two runs. */
  lemma MergeLoopDone<T>(A: seq<T>, key: T -> int, l: nat, mid: nat, h: nat, out: seq<T>)
    requires l <= mid + 1 <= h + 1 <= |A|
    requires MergeLoop(A, key, mid + 1, mid, h + 1, h, out) == MergeLoop(A, key, l, mid, mid + 1, h, [])
    ensures out == Merge(A[l..mid + 1], A[mid + 1..h + 1], key)
  {
    MergeLoopIsMerge(A, key, l, mid, mid + 1, h, []);
    assert [] + Merge(A[l..mid + 1], A[mid + 1..h + 1], key) == Merge(A[l..mid + 1], A[mid + 1..h + 1], key);
  }

  /** Merging loses and invents nothing: the result is a rearrangement of both runs. */
  lemma {:induction false} MergePerm<T>(x: seq<T>, y: seq<T>, key: T -> int)
    ensures multiset(Merge(x, y, key)) == multiset(x) + multiset(y)
    decreases |x| + |y|
  {
    if x != [] && y != [] {
      if key(x[0]) <= key(y[0]) {
        MergePerm(x[1..], y, key);
        HeadTail(x);
      } else {
        MergePerm(x, y[1..], key);
        HeadTail(y);
      }
    }
  }

  /** Prepending an element no larger than the rest keeps a sequence ascending. */
  lemma AscendingCons<T>(a: T, s: seq<T>, key: T -> int)
    requires Ascending(s, key) && AllAtLeast(s, key, key(a))
    ensures Ascending([a] + s, key)
  {
    forall i, j | 0 <= i < j < |s| + 1 ensures key(([a] + s)[i]) <= key(([a] + s)[j]) {
      if i > 0 {
        assert ([a] + s)[i] == s[i - 1];
      }
      assert ([a] + s)[j] == s[j - 1];
    }
  }

  /** A lower bound on both runs is a lower bound on their merge. */
  lemma MergeAtLeast<T>(x: seq<T>, y: seq<T>, key: T -> int, v: int)
    requires AllAtLeast(x, key, v) && AllAtLeast(y, key, v)
    ensures AllAtLeast(Merge(x, y, key), key, v)
  {
    MergePerm(x, y, key);
    assert AllAtLeast(x + y, key, v);
    assert multiset(x + y) == multiset(x) + multiset(y);
    PermAtLeast(Merge(x, y, key), x + y, key, v);
  }

  /** Merging two ascending runs gives an ascending sequence. */
  lemma {:induction false} MergeAscending<T>(x: seq<T>, y: seq<T>, key: T -> int)
    requires Ascending(x, key) && Ascending(y, key)
    ensures Ascending(Merge(x, y, key), key)
    decreases |x| + |y|
  {
    if x != [] && y != [] {
      AscendingSlice(x, key, 1, |x|);
      AscendingSlice(y, key, 1, |y|);
      if key(x[0]) <= key(y[0]) {
        MergeAscending(x[1..], y, key);
        MergeAtLeast(x[1..], y, key, key(x[0]));
        AscendingCons(x[0], Merge(x[1..], y, key), key);
      } else {
        MergeAscending(x, y[1..], key);
        MergeAtLeast(x, y[1..], key, key(y[0]));
        AscendingCons(y[0], Merge(x, y[1..], key), key);
      }
    }
  }

  /**
   * The merge is stable: for every key, the elements with that key appear in
   * the merge in their order in the left run, followed by their order in the
   * right run.  Only the left run needs to be ascending.
   */
  lemma {:induction false} MergeStable<T>(x: seq<T>, y: seq<T>, key: T -> int, v: int)
    requires Ascending(x, key)
    ensures KeyFilter(Merge(x, y, key), key, v) == KeyFilter(x, key, v) + KeyFilter(y, key, v)
    decreases |x| + |y|
  {
    if x == [] {
      assert [] + KeyFilter(y, key, v) == KeyFilter(y, key, v);
    } else if y == [] {
      assert KeyFilter(x, key, v) + [] == KeyFilter(x, key, v);
    } else if key(x[0]) <= key(y[0]) {
      AscendingSlice(x, key, 1, |x|);
      MergeStable(x[1..], y, key, v);
      StableStepLeft(x[0], x[1..], Merge(x[1..], y, key), y, key, v);
      HeadTail(x);
    } else {
      MergeStable(x, y[1..], key, v);
      if key(y[0]) == v {
        // Every key of the ascending left run is above key(y[0]).
        KeyFilterAbsent(x, key, v);
      } else {
        KeyFilterAbsent([y[0]], key, v);
      }
      StableStepRight(y[0], x, Merge(x, y[1..], key), y[1..], key, v);
      HeadTail(y);
    }
  }

  /** A nonempty sequence is its head followed by its tail. */
  lemma HeadTail<T>(s: seq<T>)
    requires s != []
    ensures s == [s[0]] + s[1..]
  {
  }

  /**
   * The bookkeeping of a left step of MergeStable: putting `a` in front of a
   * merge whose filter is the filter of `p` followed by that of `q`.
   */
  lemma StableStepLeft<T>(a: T, p: seq<T>, m: seq<T>, q: seq<T>, key: T -> int, v: int)
    requires KeyFilter(m, key, v) == KeyFilter(p, key, v) + KeyFilter(q, key, v)
    ensures KeyFilter([a] + m, key, v) == KeyFilter([a] + p, key, v) + KeyFilter(q, key, v)
  {
    KeyFilterAppend([a], m, key, v);
    KeyFilterAppend([a], p, key, v);
    AppendAssoc(KeyFilter([a], key, v), KeyFilter(p, key, v), KeyFilter(q, key, v));
  }

  /**
   * The bookkeeping of a right step of MergeStable: `a` may overtake `p` when
   * one of them selects nothing.
   */
  lemma StableStepRight<T>(a: T, p: seq<T>, m: seq<T>, q: seq<T>, key: T -> int, v: int)
    requires KeyFilter(m, key, v) == KeyFilter(p, key, v) + KeyFilter(q, key, v)
    requires KeyFilter([a], key, v) == [] || KeyFilter(p, key, v) == []
    ensures KeyFilter([a] + m, key, v) == KeyFilter(p, key, v) + KeyFilter([a] + q, key, v)
  {
    KeyFilterAppend([a], m, key, v);
    KeyFilterAppend([a], q, key, v);
    var f, fp, fq := KeyFilter([a], key, v), KeyFilter(p, key, v), KeyFilter(q, key, v);
    AppendAssoc(f, fp, fq);
    AppendAssoc(fp, f, fq);
    if f == [] {
      assert f + fp == fp == fp + f;
    } else {
      assert f + fp == f == fp + f;
    }
  }

  /**
   * Merging the sorted rearrangements of the two halves of s sorts s: the
   * result is ascending, a rearrangement of s, and keeps the order of s among
   * the elements of each key.
   */
  lemma MergeSortedHalves<T>(left: seq<T>, right: seq<T>, x: seq<T>, y: seq<T>, whole: seq<T>, out: seq<T>, key: T -> int)
    requires Ascending(x, key) && multiset(x) == multiset(left) && SameOrderPerKey(x, left, key)
    requires Ascending(y, key) && multiset(y) == multiset(right) && SameOrderPerKey(y, right, key)
    requires whole == left + right && out == Merge(x, y, key)
    ensures Ascending(out, key) && multiset(out) == multiset(whole) && SameOrderPerKey(out, whole, key)
  {
    MergeAscending(x, y, key);
    MergePerm(x, y, key);
    forall v ensures KeyFilter(out, key, v) == KeyFilter(whole, key, v) {
      MergeStable(x, y, key, v);
      KeyFilterAppend(left, right, key, v);
    }
  }

  /**
   * The first part of merge_array(arr, l, mid, h): the runs arr[l..mid] and
   * arr[mid+1..h] are merged into a new buffer of h - l + 1 cells by three
   * loops (both runs nonempty, then the rest of the left run, then the rest
   * of the right run).
   */
  method MergeIntoBuffer<T(0)>(a: array<T>, key: T -> int, l: nat, mid: nat, h: nat) returns (temp: array<T>)
    requires l <= mid + 1 && mid <= h < a.Length
    ensures fresh(temp)
    ensures temp[..] == Merge(a[l..mid + 1], a[mid + 1..h + 1], key)
  {
    ghost var A := a[..];
    ghost var merged := MergeLoop(A, key, l, mid, mid + 1, h, []);
    var n := h - l + 1;
    temp := new T[n];
    var i, j, k := l, mid + 1, 0;
    ghost var out: seq<T> := [];
    assert a[..] == A;
    // Both runs are nonempty: emit the smaller head, the left one on a tie.
    while i <= mid && j <= h
      modifies temp
      invariant l <= i <= mid + 1 && mid + 1 <= j <= h + 1
      invariant k == (i - l) + (j - mid - 1) == |out|
      invariant forall m :: 0 <= m < k ==> temp[m] == out[m]
      invariant MergeLoop(A, key, i, mid, j, h, out) == merged
      invariant a[..] == A
    {
      if key(a[i]) <= key(a[j]) {
        temp[k] := a[i];
        out := out + [A[i]];
        i := i + 1;
      } else {
        temp[k] := a[j];
        out := out + [A[j]];
        j := j + 1;
      }
      k := k + 1;
    }
    // The right run is used up: copy the rest of the left run.
    while i <= mid
      modifies temp
      invariant l <= i <= mid + 1 && mid + 1 <= j <= h + 1
      invariant i <= mid ==> j == h + 1
      invariant k == (i - l) + (j - mid - 1) == |out|
      invariant forall m :: 0 <= m < k ==> temp[m] == out[m]
      invariant MergeLoop(A, key, i, mid, j, h, out) == merged
      invariant a[..] == A
    {
      temp[k] := a[i];
      out := out + [A[i]];
      i, k := i + 1, k + 1;
    }
    // The left run is used up: copy the rest of the right run.
    while j <= h
      modifies temp
      invariant i == mid + 1 && mid + 1 <= j <= h + 1
      invariant k == (i - l) + (j - mid - 1) == |out|
      invariant forall m :: 0 <= m < k ==> temp[m] == out[m]
      invariant MergeLoop(A, key, i, mid, j, h, out) == merged
      invariant a[..] == A
    {
      temp[k] := a[j];
      out := out + [A[j]];
      j, k := j + 1, k + 1;
    }
    assert temp[..] == out by {
      assert forall m :: 0 <= m < n ==> temp[..][m] == out[m];
    }
    MergeLoopDone(A, key, l, mid, h, out);
    assert a[l..mid + 1] == A[l..mid + 1] && a[mid + 1..h + 1] == A[mid + 1..h + 1];
  }

  /**
   * merge_array(arr, l, mid, h): merges the runs arr[l..mid] and arr[mid+1..h]
   * into a buffer and copies the buffer back to arr[l..h]; nothing else in arr
   * changes.
   */
  method MergeArray<T(0)>(a: array<T>, key: T -> int, l: nat, mid: nat, h: nat)
    requires l <= mid + 1 && mid <= h < a.Length
    modifies a
    ensures a[l..h + 1] == Merge(old(a[l..mid + 1]), old(a[mid + 1..h + 1]), key)
    ensures forall k :: 0 <= k < a.Length && !(l <= k <= h) ==> a[k] == old(a[k])
  {
    var temp := MergeIntoBuffer(a, key, l, mid, h);
    ghost var A, merged := a[..], temp[..];
    // Copy the buffer back into arr[l..h].
    for it := 0 to temp.Length
      modifies a
      invariant forall m :: 0 <= m < it ==> a[l + m] == merged[m]
      invariant forall m :: 0 <= m < a.Length && !(l <= m < l + it) ==> a[m] == A[m]
    {
      a[l + it] := temp[it];
    }
    assert a[l..h + 1] == merged by {
      assert forall m :: 0 <= m < |merged| ==> a[l..h + 1][m] == merged[m];
    }
    assert old(a[l..mid + 1]) == A[l..mid + 1] && old(a[mid + 1..h + 1]) == A[mid + 1..h + 1];
  }

  /** The facts that say Out[lo..hi] is In[lo..hi] sorted stably. */
  ghost predicate SortedFrom<T>(Out: seq<T>, In: seq<T>, key: T -> int, lo: nat, hi: nat)
    requires lo <= hi <= |Out| && hi <= |In|
  {
    Ascending(Out[lo..hi], key) && multiset(Out[lo..hi]) == multiset(In[lo..hi])
      && SameOrderPerKey(Out[lo..hi], In[lo..hi], key)
  }

  /** One level of merge_sort: merging the two sorted halves sorts the whole range. */
  lemma SortedStep<T>(A: seq<T>, B1: seq<T>, B2: seq<T>, R: seq<T>, key: T -> int, l: nat, mid: nat, h: nat)
    requires l <= mid < h < |A| && |A| == |B1| == |B2| == |R|
    requires SortedFrom(B1, A, key, l, mid + 1) && B1[mid + 1..h + 1] == A[mid + 1..h + 1]
    requires SortedFrom(B2, B1, key, mid + 1, h + 1) && B2[l..mid + 1] == B1[l..mid + 1]
    requires R[l..h + 1] == Merge(B2[l..mid + 1], B2[mid + 1..h + 1], key)
    ensures SortedFrom(R, A, key, l, h + 1)
  {
    JoinSlices(A, l, mid + 1, h + 1);
    MergeSortedHalves(A[l..mid + 1], A[mid + 1..h + 1], B2[l..mid + 1], B2[mid + 1..h + 1], A[l..h + 1], R[l..h + 1], key);
  }

  /** A range of one element is sorted as it stands. */
  lemma SortedSingle<T>(s: seq<T>, key: T -> int, l: nat)
    requires l < |s|
    ensures SortedFrom(s, s, key, l, l + 1)
  {
  }

  /**
   * merge_sort(arr, l, h): sorts arr[l..h] in place and returns arr.  The range
   * ends up ascending, a rearrangement of what it held, and stable (for every
   * key, the elements with that key keep their relative order); nothing
   * outside it changes, and a range with l >= h is left as it is.
   */
  method MergeSort<T(0)>(a: array<T>, key: T -> int, l: nat, h: nat) returns (r: array<T>)
    requires l < h ==> h < a.Length
    modifies a
    ensures r == a
    ensures forall k :: 0 <= k < a.Length && !(l <= k <= h) ==> a[k] == old(a[k])
    ensures l <= h < a.Length ==> SortedFrom(a[..], old(a[..]), key, l, h + 1)
    decreases if l < h then h - l else 0
  {
    r := a;
    if l < h {
      var mid := (l + h) / 2;
      ghost var A := a[..];
      var _ := MergeSort(a, key, l, mid);
      ghost var A1 := a[..];
      var _ := MergeSort(a, key, mid + 1, h);
      ghost var A2 := a[..];
      MergeArray(a, key, l, mid, h);
      SameSlice(A1, A, mid + 1, h + 1);
      SameSlice(A2, A1, l, mid + 1);
      SortedStep(A, A1, A2, a[..], key, l, mid, h);
    } else if l == h < a.Length {
      SortedSingle(a[..], key, l);
    }
  }

  /** The sort in the merge-sort example program: {17, 22, -100, 14, 9, 0, 11, -2}. */
  method Example() returns (s: seq<int>)
    ensures s == [-100, -2, 0, 9, 11, 14, 17, 22]
  {
    var a := new int[8];
    a[0], a[1], a[2], a[3], a[4], a[5], a[6], a[7] := 17, 22, -100, 14, 9, 0, 11, -2;
    ghost var input := a[..];
    assert input == [17, 22, -100, 14, 9, 0, 11, -2];
    assert input[0..8] == input;
    var _ := MergeSort(a, Id, 0, 7);
    s := a[0..8];
    ExampleSorted(input, s);
  }

  /** The only ascending rearrangement of the example's input is the printed result. */
  lemma ExampleSorted(input: seq<int>, s: seq<int>)
    requires input == [17, 22, -100, 14, 9, 0, 11, -2]
    requires Ascending(s, Id) && multiset(s) == multiset(input)
    ensures s == [-100, -2, 0, 9, 11, 14, 17, 22]
  {
    ExamplePerm(input);
    ExampleOutputAscending();
    AscendingUnique(s, [-100, -2, 0, 9, 11, 14, 17, 22], Id);
  }

  lemma ExamplePerm(input: seq<int>)
    requires input == [17, 22, -100, 14, 9, 0, 11, -2]
    ensures multiset(input) == multiset([-100, -2, 0, 9, 11, 14, 17, 22])
  {
    assert multiset(input) == multiset{17, 22, -100, 14, 9, 0, 11, -2};
    assert multiset{17, 22, -100, 14, 9, 0, 11, -2} == multiset{-100, -2, 0, 9, 11, 14, 17, 22};
    assert multiset([-100, -2, 0, 9, 11, 14, 17, 22]) == multiset{-100, -2, 0, 9, 11, 14, 17, 22};
  }

  lemma ExampleOutputAscending()
    ensures Ascending([-100, -2, 0, 9, 11, 14, 17, 22], Id)
  {
  }
}
