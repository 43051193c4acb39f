/**
 * Heap sort over the first `size` cells of an array, as a binary heap laid
 * out in the array itself: the children of cell r are the cells 2r+1 and
 * 2r+2, and only those below `size` belong to the heap.
 *
 * `heapify` sifts the value at `root` down until the heap order holds below
 * it; `heap_sort` first turns the range into a max-heap, then repeatedly
 * swaps the maximum behind the shrinking heap.  The `min_` versions do the
 * same with the order reversed, which leaves the range descending.  Here a
 * min-heap under `key` is a max-heap under `Neg(key)`.
 *
 * The loop counters are `size_t`: `size/2 - 1`, `size - 1` and `--i` wrap
 * to SIZE_MAX at zero, and the guard `i < size` is what ends both loops.
 * This is modelled with `Wrap`, arithmetic modulo 2^64.
 */
module HeapSorting {
  import opened Order
  import opened Swapping

  /** The largest `size_t`. */
  const SizeMax: nat := 0xFFFF_FFFF_FFFF_FFFF

  /** `size_t` arithmetic: x reduced modulo 2^64. */
  function Wrap(x: int): (r: nat)
    ensures r <= SizeMax
    ensures 0 <= x <= SizeMax ==> r == x
    ensures x == -1 ==> r == SizeMax
  {
    x % (SizeMax + 1)
  }

  /** Cell k lies in the subtree rooted at cell r (k is r or below it). */
  ghost predicate InSubtree(r: nat, k: nat)
    decreases k
  {
    k == r || (k > r && InSubtree(r, (k - 1) / 2))
  }

  /**
   * The heap order holds for every parent p >= lo among the first `size`
   * cells: no child 2p+1 or 2p+2 below `size` has a larger key than p.
   * HeapFrom(s, key, 0, size) is a max-heap of `size` cells.
   */
  ghost predicate HeapFrom<T>(s: seq<T>, key: T -> int, lo: nat, size: nat)
    requires size <= |s|
  {
    forall p, k {:trigger s[p], s[k]} :: lo <= p && k < size && (k == 2 * p + 1 || k == 2 * p + 2) ==> key(s[k]) <= key(s[p])
  }

  /**
   * The heap order inside the subtree of r: no parent p >= lo of that
   * subtree has a child below `size` with a larger key.
   * SubtreeHeap(s, key, size, r, r + 1) is what heapify needs at r: the
   * subtrees of both children of r are heaps.
   */
  ghost predicate SubtreeHeap<T>(s: seq<T>, key: T -> int, size: nat, r: nat, lo: nat)
    requires size <= |s|
  {
    forall p, k {:trigger s[p], s[k]} :: lo <= p && InSubtree(r, p) && k < size && (k == 2 * p + 1 || k == 2 * p + 2) ==> key(s[k]) <= key(s[p])
  }

  /** No key in the subtree of r (cut off at `size`) exceeds v. */
  ghost predicate SubtreeAtMost<T>(s: seq<T>, key: T -> int, size: nat, r: nat, v: int)
    requires size <= |s|
  {
    forall k :: 0 <= k < size && InSubtree(r, k) ==> key(s[k]) <= v
  }

  /**
   * S is A with values moved only inside the subtree of r: the same
   * multiset, every other cell unchanged, and every bound on the keys of
   * that subtree still holding.
   */
  ghost predicate SiftedWithin<T>(S: seq<T>, A: seq<T>, key: T -> int, size: nat, r: nat) {
    size <= |S| == |A| && multiset(S) == multiset(A)
    && (forall k :: 0 <= k < |S| && !(k < size && InSubtree(r, k)) ==> S[k] == A[k])
    && (forall v :: SubtreeAtMost(A, key, size, r, v) ==> SubtreeAtMost(S, key, size, r, v))
  }

  /** A cell of the subtree of r is r itself or lies at 2r+1 or beyond. */
  lemma {:induction false} SubtreeRange(r: nat, k: nat)
    requires InSubtree(r, k)
    ensures k == r || k >= 2 * r + 1
    decreases k
  {
    if k != r && (k - 1) / 2 != r {
      SubtreeRange(r, (k - 1) / 2);
    }
  }

  /** The subtree of a child of r lies inside the subtree of r. */
  lemma {:induction false} SubtreeOfChild(r: nat, c: nat, k: nat)
    requires c == 2 * r + 1 || c == 2 * r + 2
    requires InSubtree(c, k)
    ensures InSubtree(r, k)
    decreases k
  {
    if k != c {
      SubtreeOfChild(r, c, (k - 1) / 2);
    }
  }

  /**
   * When the subtrees of the children of r are heaps, a child c of r
   * carries the largest key of its subtree.
   */
  lemma {:induction false} HeapBelow<T>(s: seq<T>, key: T -> int, size: nat, r: nat, c: nat, k: nat)
    requires size <= |s| && SubtreeHeap(s, key, size, r, r + 1)
    requires c == 2 * r + 1 || c == 2 * r + 2
    requires k < size && InSubtree(c, k)
    ensures key(s[k]) <= key(s[c])
    decreases k
  {
    if k != c {
      var q := (k - 1) / 2;
      SubtreeRange(c, q);
      SubtreeOfChild(r, c, q);
      assert key(s[k]) <= key(s[q]);
      HeapBelow(s, key, size, r, c, q);
    }
  }

  /** The root of a max-heap carries its largest key. */
  lemma {:induction false} HeapTop<T>(s: seq<T>, key: T -> int, size: nat, k: nat)
    requires size <= |s| && HeapFrom(s, key, 0, size) && k < size
    ensures key(s[k]) <= key(s[0])
    decreases k
  {
    if k > 0 {
      HeapTop(s, key, size, (k - 1) / 2);
    }
  }

  /** A root no smaller than its children extends the heap order to its whole subtree. */
  lemma HeapifyHere<T>(s: seq<T>, key: T -> int, size: nat, root: nat)
    requires size <= |s| && SubtreeHeap(s, key, size, root, root + 1)
    requires 2 * root + 1 < size ==> key(s[2 * root + 1]) <= key(s[root])
    requires 2 * root + 2 < size ==> key(s[2 * root + 2]) <= key(s[root])
    ensures SubtreeHeap(s, key, size, root, root)
  {
  }

  /**
   * Swapping the root with its larger child c: the subtrees of the children
   * of c are still heaps, nothing in the subtree of c exceeds the old key of
   * c, and the values moved only inside the subtree of the root.
   */
  lemma HeapifySwap<T>(S0: seq<T>, S1: seq<T>, key: T -> int, size: nat, root: nat, c: nat)
    requires size <= |S0| && SubtreeHeap(S0, key, size, root, root + 1)
    requires (c == 2 * root + 1 || c == 2 * root + 2) && c < size
    requires key(S0[root]) <= key(S0[c])
    requires S1 == S0[root := S0[c]][c := S0[root]]
    ensures SubtreeHeap(S1, key, size, c, c + 1)
    ensures SubtreeAtMost(S1, key, size, c, key(S0[c]))
    ensures SiftedWithin(S1, S0, key, size, root)
  {
    SwapPerm(S0, root, c);
    forall p, k | c + 1 <= p && InSubtree(c, p) && k < size && (k == 2 * p + 1 || k == 2 * p + 2)
      ensures key(S1[k]) <= key(S1[p])
    {
      SubtreeOfChild(root, c, p);
      assert S1[p] == S0[p] && S1[k] == S0[k];
    }
    forall k | 0 <= k < size && InSubtree(c, k)
      ensures key(S1[k]) <= key(S0[c])
    {
      SubtreeRange(c, k);
      if k != c {
        HeapBelow(S0, key, size, root, c, k);
      }
    }
    SwapSifted(S0, S1, key, size, root, c);
  }

  /**
   * Swapping the root with a child moves values only inside the subtree of
   * the root, whatever the keys.
   */
  lemma SwapSifted<T>(S0: seq<T>, S1: seq<T>, key: T -> int, size: nat, root: nat, c: nat)
    requires size <= |S0| && (c == 2 * root + 1 || c == 2 * root + 2) && c < size
    requires S1 == S0[root := S0[c]][c := S0[root]]
    ensures SiftedWithin(S1, S0, key, size, root)
  {
    SwapPerm(S0, root, c);
    forall k | 0 <= k < |S1| && !(k < size && InSubtree(root, k))
      ensures S1[k] == S0[k]
    {
      assert InSubtree(root, c);
    }
    forall v | SubtreeAtMost(S0, key, size, root, v)
      ensures SubtreeAtMost(S1, key, size, root, v)
    {
      assert InSubtree(root, c);
    }
  }

  /** Sifting inside the subtree of a child of r is sifting inside that of r. */
  lemma SiftedWiden<T>(S: seq<T>, A: seq<T>, key: T -> int, size: nat, r: nat, c: nat)
    requires c == 2 * r + 1 || c == 2 * r + 2
    requires SiftedWithin(S, A, key, size, c)
    ensures SiftedWithin(S, A, key, size, r)
  {
    forall k | 0 <= k < |S| && !(k < size && InSubtree(r, k))
      ensures S[k] == A[k]
    {
      if k < size && InSubtree(c, k) {
        SubtreeOfChild(r, c, k);
      }
    }
    forall v | SubtreeAtMost(A, key, size, r, v)
      ensures SubtreeAtMost(S, key, size, r, v)
    {
      forall k | 0 <= k < size && InSubtree(c, k)
        ensures key(A[k]) <= v
      {
        SubtreeOfChild(r, c, k);
      }
      assert SubtreeAtMost(A, key, size, c, v);
    }
  }

  /** Sifting inside the subtree of r composes. */
  lemma SiftedTrans<T>(U: seq<T>, S: seq<T>, A: seq<T>, key: T -> int, size: nat, r: nat)
    requires SiftedWithin(U, S, key, size, r) && SiftedWithin(S, A, key, size, r)
    ensures SiftedWithin(U, A, key, size, r)
  {
  }

  /**
   * After the swap and the recursive sift at c, the subtree of the root is
   * a heap and the values moved only inside it.
   */
  lemma HeapifyJoin<T>(S0: seq<T>, S1: seq<T>, S2: seq<T>, key: T -> int, size: nat, root: nat, c: nat)
    requires size <= |S0| && SubtreeHeap(S0, key, size, root, root + 1)
    requires (c == 2 * root + 1 || c == 2 * root + 2) && c < size
    requires 2 * root + 1 < size ==> key(S0[2 * root + 1]) <= key(S0[c])
    requires 2 * root + 2 < size ==> key(S0[2 * root + 2]) <= key(S0[c])
    requires S1 == S0[root := S0[c]][c := S0[root]] && |S2| == |S0|
    requires SubtreeAtMost(S1, key, size, c, key(S0[c])) && SiftedWithin(S1, S0, key, size, root)
    requires SubtreeHeap(S2, key, size, c, c) && SiftedWithin(S2, S1, key, size, c)
    ensures SubtreeHeap(S2, key, size, root, root) && SiftedWithin(S2, S0, key, size, root)
  {
    SiftedWiden(S2, S1, key, size, root, c);
    SiftedTrans(S2, S1, S0, key, size, root);
    assert key(S2[c]) <= key(S0[c]);
    forall k | 0 <= k < size && k != root && !InSubtree(c, k)
      ensures S2[k] == S0[k]
    {
    }
    JoinHeap(S0, S2, key, size, root, c);
  }

  /**
   * The heap order in the subtree of the root, once the root holds the old
   * larger child c, the subtree of c is a heap again with nothing above the
   * old key of c, and every other cell is unchanged.
   */
  lemma JoinHeap<T>(S0: seq<T>, S2: seq<T>, key: T -> int, size: nat, root: nat, c: nat)
    requires size <= |S0| == |S2| && SubtreeHeap(S0, key, size, root, root + 1)
    requires (c == 2 * root + 1 || c == 2 * root + 2) && c < size
    requires 2 * root + 1 < size ==> key(S0[2 * root + 1]) <= key(S0[c])
    requires 2 * root + 2 < size ==> key(S0[2 * root + 2]) <= key(S0[c])
    requires S2[root] == S0[c] && key(S2[c]) <= key(S0[c]) && SubtreeHeap(S2, key, size, c, c)
    requires forall k :: 0 <= k < size && k != root && !InSubtree(c, k) ==> S2[k] == S0[k]
    ensures SubtreeHeap(S2, key, size, root, root)
  {
    forall p, k | root <= p && InSubtree(root, p) && k < size && (k == 2 * p + 1 || k == 2 * p + 2)
      ensures key(S2[k]) <= key(S2[p])
    {
      if InSubtree(c, p) {
        SubtreeRange(c, p);
      } else if p == root {
        if k != c {
          SubtreeRangeOut(c, k);
        }
      } else {
        ChildOutside(c, p, k);
        assert S2[p] == S0[p] && S2[k] == S0[k];
      }
    }
  }

  /** A cell before c or a sibling of c is outside the subtree of c. */
  lemma SubtreeRangeOut(c: nat, k: nat)
    requires k < c || (c <= k < 2 * c + 1 && k != c)
    ensures !InSubtree(c, k)
  {
    if InSubtree(c, k) {
      SubtreeRange(c, k);
    }
  }

  /** A child of a cell outside the subtree of c, other than c itself, is outside it too. */
  lemma ChildOutside(c: nat, p: nat, k: nat)
    requires !InSubtree(c, p) && (k == 2 * p + 1 || k == 2 * p + 2) && k != c
    ensures !InSubtree(c, k)
  {
    assert (k - 1) / 2 == p;
  }

  /**
   * A heap inside the subtree of r, reached by sifting inside that subtree
   * from cells whose parents after r were all in heap order, is in heap
   * order for every parent from r on.
   */
  lemma SubtreeHeapFrom<T>(S: seq<T>, A: seq<T>, key: T -> int, size: nat, r: nat)
    requires SiftedWithin(S, A, key, size, r) && HeapFrom(A, key, r + 1, size)
    requires SubtreeHeap(S, key, size, r, r)
    ensures HeapFrom(S, key, r, size)
  {
    forall p, k | r <= p && k < size && (k == 2 * p + 1 || k == 2 * p + 2)
      ensures key(S[k]) <= key(S[p])
    {
      if !InSubtree(r, p) {
        ChildOutside(r, p, k);
        assert S[p] == A[p] && S[k] == A[k];
      }
    }
  }

  /** Heap order for every parent after r includes the heaps below r. */
  lemma HeapFromBelow<T>(s: seq<T>, key: T -> int, size: nat, r: nat)
    requires size <= |s| && HeapFrom(s, key, r + 1, size)
    ensures SubtreeHeap(s, key, size, r, r + 1)
  {
  }

  /**
   * heapify(arr, size, root): sifts the value at `root` down.  On any input
   * it moves values only inside the subtree of `root`, as a rearrangement
   * that keeps every bound on the subtree's keys.  Given heaps in the
   * subtrees of both children of `root`, it makes the subtree of `root` a
   * heap; every other parent keeps its heap order, so a heap order for all
   * parents after `root` becomes one from `root` on.
   */
  method Heapify<T>(a: array<T>, key: T -> int, size: nat, root: nat)
    requires size <= a.Length
    modifies a
    ensures SiftedWithin(a[..], old(a[..]), key, size, root)
    ensures SubtreeHeap(old(a[..]), key, size, root, root + 1) ==> SubtreeHeap(a[..], key, size, root, root)
    ensures HeapFrom(old(a[..]), key, root + 1, size) ==> HeapFrom(a[..], key, root, size)
    decreases size - root
  {
    ghost var A := a[..];
    var largest := root;
    var left := 2 * root + 1;
    var right := 2 * root + 2;
    if left < size && key(a[left]) > key(a[largest]) {
      largest := left;
    }
    if right < size && key(a[right]) > key(a[largest]) {
      largest := right;
    }
    if largest != root {
      Swap(a, root, largest);
      ghost var S1 := a[..];
      SwapSifted(A, S1, key, size, root, largest);
      if SubtreeHeap(A, key, size, root, root + 1) {
        HeapifySwap(A, S1, key, size, root, largest);
      }
      Heapify(a, key, size, largest);
      SiftedWiden(a[..], S1, key, size, root, largest);
      SiftedTrans(a[..], S1, A, key, size, root);
      if SubtreeHeap(A, key, size, root, root + 1) {
        HeapifyJoin(A, S1, a[..], key, size, root, largest);
      }
    } else if SubtreeHeap(A, key, size, root, root + 1) {
      HeapifyHere(A, key, size, root);
    }
    if HeapFrom(A, key, root + 1, size) {
      HeapFromBelow(A, key, size, root);
      SubtreeHeapFrom(a[..], A, key, size, root);
    }
  }

  /**
   * min_heapify(arr, size, root): heapify with `<` in place of `>`, which
   * sifts the smallest value up; it keeps a min-heap, a max-heap under the
   * reversed order.
   */
  method MinHeapify<T>(a: array<T>, key: T -> int, size: nat, root: nat)
    requires size <= a.Length
    modifies a
    ensures SiftedWithin(a[..], old(a[..]), Neg(key), size, root)
    ensures SubtreeHeap(old(a[..]), Neg(key), size, root, root + 1) ==> SubtreeHeap(a[..], Neg(key), size, root, root)
    ensures HeapFrom(old(a[..]), Neg(key), root + 1, size) ==> HeapFrom(a[..], Neg(key), root, size)
    decreases size - root
  {
    ghost var A := a[..];
    var smallest := root;
    var left := 2 * root + 1;
    var right := 2 * root + 2;
    if left < size && key(a[left]) < key(a[smallest]) {
      smallest := left;
    }
    if right < size && key(a[right]) < key(a[smallest]) {
      smallest := right;
    }
    if smallest != root {
      Swap(a, root, smallest);
      ghost var S1 := a[..];
      SwapSifted(A, S1, Neg(key), size, root, smallest);
      if SubtreeHeap(A, Neg(key), size, root, root + 1) {
        HeapifySwap(A, S1, Neg(key), size, root, smallest);
      }
      MinHeapify(a, key, size, smallest);
      SiftedWiden(a[..], S1, Neg(key), size, root, smallest);
      SiftedTrans(a[..], S1, A, Neg(key), size, root);
      if SubtreeHeap(A, Neg(key), size, root, root + 1) {
        HeapifyJoin(A, S1, a[..], Neg(key), size, root, smallest);
      }
    } else if SubtreeHeap(A, Neg(key), size, root, root + 1) {
      HeapifyHere(A, Neg(key), size, root);
    }
    if HeapFrom(A, Neg(key), root + 1, size) {
      HeapFromBelow(A, Neg(key), size, root);
      SubtreeHeapFrom(a[..], A, Neg(key), size, root);
    }
  }

  /** Sifting inside a subtree is a rearrangement inside the first `size` cells. */
  lemma SiftedRearranged<T>(S: seq<T>, A: seq<T>, key: T -> int, size: nat, r: nat)
    requires SiftedWithin(S, A, key, size, r)
    ensures Rearranged(S, A, 0, size)
  {
  }

  /**
   * The state of the extraction loop with n cells left in the heap: a
   * max-heap on [0, n), the cells [n, size) ascending, and no key in the
   * heap above a key behind it.
   */
  ghost predicate ExtractState<T>(s: seq<T>, key: T -> int, n: nat, size: nat)
    requires n <= size <= |s|
  {
    HeapFrom(s, key, 0, n) && SortedBetween(s, key, n, size)
    && forall x, y :: 0 <= x < n <= y < size ==> key(s[x]) <= key(s[y])
  }

  /** Swapping the root with the last heap cell i leaves [0, i) a heap below its root. */
  lemma ExtractSwap<T>(S0: seq<T>, S1: seq<T>, key: T -> int, i: nat)
    requires i < |S0| && HeapFrom(S0, key, 0, i + 1)
    requires S1 == S0[0 := S0[i]][i := S0[0]]
    ensures HeapFrom(S1, key, 1, i)
  {
  }

  /**
   * One round of the extraction loop: the maximum moved to cell i, then the
   * heap [0, i) restored, gives the loop state with i cells left.
   */
  lemma ExtractStep<T>(S0: seq<T>, S1: seq<T>, S2: seq<T>, key: T -> int, i: nat, size: nat)
    requires i < size <= |S0| && ExtractState(S0, key, i + 1, size)
    requires S1 == S0[0 := S0[i]][i := S0[0]]
    requires Rearranged(S2, S1, 0, i) && HeapFrom(S2, key, 0, i)
    ensures ExtractState(S2, key, i, size)
  {
    forall k | 0 <= k < i
      ensures key(S1[k]) <= key(S1[i])
    {
      HeapTop(S0, key, i + 1, k);
      HeapTop(S0, key, i + 1, i);
    }
    RangeKeepsBound(S1, S2, 0, i, x => key(x) <= key(S1[i]));
    assert S2[i] == S1[i];
    forall x, y | 0 <= x < y < size && i <= x
      ensures key(S2[x]) <= key(S2[y])
    {
      if x == i {
        assert S2[x] == S0[0] && S2[y] == S0[y];
      } else {
        assert S2[x] == S0[x] && S2[y] == S0[y];
      }
    }
  }

  /** One round of the extraction loop, with the rearrangement it keeps. */
  lemma ExtractRound<T>(A: seq<T>, S0: seq<T>, S1: seq<T>, S2: seq<T>, key: T -> int, i: nat, size: nat)
    requires i < size <= |S0| && ExtractState(S0, key, i + 1, size) && Rearranged(S0, A, 0, size)
    requires S1 == S0[0 := S0[i]][i := S0[0]]
    requires SiftedWithin(S2, S1, key, i, 0) && HeapFrom(S2, key, 0, i)
    ensures ExtractState(S2, key, i, size) && Rearranged(S2, A, 0, size)
  {
    SwapRearranged(S0, A, 0, size, 0, i);
    SiftedRearranged(S2, S1, key, i, 0);
    ExtractStep(S0, S1, S2, key, i, size);
    RearrangedWiden(S2, S1, 0, i, 0, size);
    RearrangedTrans(S2, S1, A, 0, size);
  }

  /** The cells from size/2 on have no children below `size`. */
  lemma HeapLeaves<T>(s: seq<T>, key: T -> int, size: nat)
    requires size <= |s|
    ensures HeapFrom(s, key, size / 2, size)
  {
  }

  /** A max-heap of all `size` cells is the extraction state with every cell left. */
  lemma ExtractStart<T>(s: seq<T>, key: T -> int, size: nat)
    requires size <= |s| && HeapFrom(s, key, 0, size)
    ensures ExtractState(s, key, size, size)
  {
  }

  /**
   * The first loop of heap_sort: heapify from the last parent size/2 - 1
   * down to the root, which leaves arr[0..size) a max-heap.  At size 0 or 1
   * the counter starts at the wrapped SIZE_MAX and the loop does not run.
   */
  method BuildHeap<T>(a: array<T>, key: T -> int, size: nat)
    requires size <= a.Length && size <= SizeMax
    modifies a
    ensures HeapFrom(a[..], key, 0, size)
    ensures Rearranged(a[..], old(a[..]), 0, size)
  {
    ghost var A := a[..];
    var i: nat := Wrap(size / 2 - 1);
    ghost var n: nat := if i < size then i + 1 else 0;
    HeapLeaves(a[..], key, size);
    while i < size
      invariant n <= size / 2 && (i < size ==> n == i + 1) && (i >= size ==> i == SizeMax && n == 0)
      invariant HeapFrom(a[..], key, n, size)
      invariant Rearranged(a[..], A, 0, size)
      decreases n
    {
      ghost var S := a[..];
      Heapify(a, key, size, i);
      SiftedRearranged(a[..], S, key, size, i);
      RearrangedTrans(a[..], S, A, 0, size);
      i := Wrap(i - 1);
      n := n - 1;
    }
  }

  /**
   * heap_sort(arr, size): sorts arr[0..size) ascending, in place.  After the
   * heap is built, each round swaps the root behind the heap and restores
   * the heap on the cells before it; at size 0 the counter starts at the
   * wrapped SIZE_MAX and no round runs.  Cells from `size` on are not
   * touched.
   */
  method HeapSort<T>(a: array<T>, key: T -> int, size: nat)
    requires size <= a.Length && size <= SizeMax
    modifies a
    ensures SortedBetween(a[..], key, 0, size)
    ensures Rearranged(a[..], old(a[..]), 0, size)
  {
    ghost var A := a[..];
    BuildHeap(a, key, size);
    var i: nat := Wrap(size - 1);
    ghost var n: nat := if i < size then i + 1 else 0;
    ExtractStart(a[..], key, size);
    while i < size
      invariant n <= size && (i < size ==> n == i + 1) && (i >= size ==> i == SizeMax && n == 0)
      invariant ExtractState(a[..], key, n, size)
      invariant Rearranged(a[..], A, 0, size)
      decreases n
    {
      ghost var S0 := a[..];
      Swap(a, 0, i);
      ghost var S1 := a[..];
      ExtractSwap(S0, S1, key, i);
      Heapify(a, key, i, 0);
      ExtractRound(A, S0, S1, a[..], key, i, size);
      i := Wrap(i - 1);
      n := n - 1;
    }
  }

  /** The first loop of min_heap_sort: leaves arr[0..size) a min-heap. */
  method BuildMinHeap<T>(a: array<T>, key: T -> int, size: nat)
    requires size <= a.Length && size <= SizeMax
    modifies a
    ensures HeapFrom(a[..], Neg(key), 0, size)
    ensures Rearranged(a[..], old(a[..]), 0, size)
  {
    ghost var A := a[..];
    var i: nat := Wrap(size / 2 - 1);
    ghost var n: nat := if i < size then i + 1 else 0;
    HeapLeaves(a[..], Neg(key), size);
    while i < size
      invariant n <= size / 2 && (i < size ==> n == i + 1) && (i >= size ==> i == SizeMax && n == 0)
      invariant HeapFrom(a[..], Neg(key), n, size)
      invariant Rearranged(a[..], A, 0, size)
      decreases n
    {
      ghost var S := a[..];
      MinHeapify(a, key, size, i);
      SiftedRearranged(a[..], S, Neg(key), size, i);
      RearrangedTrans(a[..], S, A, 0, size);
      i := Wrap(i - 1);
      n := n - 1;
    }
  }

  /**
   * min_heap_sort(arr, size): heap_sort with a min-heap, which moves the
   * smallest values to the back and so sorts arr[0..size) descending.
   */
  method MinHeapSort<T>(a: array<T>, key: T -> int, size: nat)
    requires size <= a.Length && size <= SizeMax
    modifies a
    ensures DescendingBetween(a[..], key, 0, size)
    ensures Rearranged(a[..], old(a[..]), 0, size)
  {
    ghost var A := a[..];
    BuildMinHeap(a, key, size);
    var i: nat := Wrap(size - 1);
    ghost var n: nat := if i < size then i + 1 else 0;
    ExtractStart(a[..], Neg(key), size);
    while i < size
      invariant n <= size && (i < size ==> n == i + 1) && (i >= size ==> i == SizeMax && n == 0)
      invariant ExtractState(a[..], Neg(key), n, size)
      invariant Rearranged(a[..], A, 0, size)
      decreases n
    {
      ghost var S0 := a[..];
      Swap(a, 0, i);
      ghost var S1 := a[..];
      ExtractSwap(S0, S1, Neg(key), i);
      MinHeapify(a, key, i, 0);
      ExtractRound(A, S0, S1, a[..], Neg(key), i, size);
      i := Wrap(i - 1);
      n := n - 1;
    }
    SortedNeg(a[..], key, size);
  }

  /** Ascending under the reversed order is exactly descending. */
  lemma SortedNeg<T>(s: seq<T>, key: T -> int, size: nat)
    requires size <= |s|
    ensures SortedBetween(s, Neg(key), 0, size) <==> DescendingBetween(s, key, 0, size)
  {
  }

  /**
   * A sorted rearrangement of an input of integers is the ascending
   * sequence with the input's values.
   */
  lemma SortedIsExpected(input: seq<int>, s: seq<int>, expected: seq<int>)
    requires |s| == |input| && SortedBetween(s, Id, 0, |s|) && multiset(s) == multiset(input)
    requires Ascending(expected, Id) && multiset(expected) == multiset(input)
    ensures s == expected
  {
    assert s[0..|s|] == s;
    SortedBetweenSlice(s, Id, 0, |s|);
    AscendingUnique(s, expected, Id);
  }

  /** The integer example: heap_sort on all ten cells. */
  method Example() returns (s: seq<int>)
    ensures s == [8, 11, 12, 17, 22, 25, 34, 42, 64, 90]
  {
    var input := [64, 34, 25, 12, 22, 11, 90, 8, 42, 17];
    var a := new int[10](i requires 0 <= i < 10 => input[i]);
    assert a[..] == input;
    HeapSort(a, Id, 10);
    s := a[..];
    ExampleSorted(input, s);
  }

  lemma ExampleSorted(input: seq<int>, s: seq<int>)
    requires input == [64, 34, 25, 12, 22, 11, 90, 8, 42, 17]
    requires |s| == 10 && SortedBetween(s, Id, 0, 10) && Rearranged(s, input, 0, 10)
    ensures s == [8, 11, 12, 17, 22, 25, 34, 42, 64, 90]
  {
    var e := [8, 11, 12, 17, 22, 25, 34, 42, 64, 90];
    ExampleBags(input, e);
    ExampleOutputAscending(e);
    SortedIsExpected(input, s, e);
  }

  lemma ExampleBags(input: seq<int>, e: seq<int>)
    requires input == [64, 34, 25, 12, 22, 11, 90, 8, 42, 17]
    requires e == [8, 11, 12, 17, 22, 25, 34, 42, 64, 90]
    ensures multiset(input) == multiset(e)
  {
    ExampleInputBag(input);
    ExampleBagsEqual();
    ExampleOutputBag(e);
  }

  lemma ExampleInputBag(input: seq<int>)
    requires input == [64, 34, 25, 12, 22, 11, 90, 8, 42, 17]
    ensures multiset(input) == multiset{64, 34, 25, 12, 22, 11, 90, 8, 42, 17}
  {
  }

  lemma ExampleBagsEqual()
    ensures multiset{64, 34, 25, 12, 22, 11, 90, 8, 42, 17} == multiset{8, 11, 12, 17, 22, 25, 34, 42, 64, 90}
  {
  }

  lemma ExampleOutputBag(e: seq<int>)
    requires e == [8, 11, 12, 17, 22, 25, 34, 42, 64, 90]
    ensures multiset(e) == multiset{8, 11, 12, 17, 22, 25, 34, 42, 64, 90}
  {
  }

  lemma ExampleOutputAscending(e: seq<int>)
    requires e == [8, 11, 12, 17, 22, 25, 34, 42, 64, 90]
    ensures Ascending(e, Id)
  {
  }

  /**
   * The integer example's second run: min_heap_sort on a copy of the same
   * ten cells leaves them descending.
   */
  method ExampleMin() returns (s: seq<int>)
    ensures s == [90, 64, 42, 34, 25, 22, 17, 12, 11, 8]
  {
    var input := [64, 34, 25, 12, 22, 11, 90, 8, 42, 17];
    var a := new int[10](i requires 0 <= i < 10 => input[i]);
    assert a[..] == input;
    MinHeapSort(a, Id, 10);
    s := a[..];
    MinExampleSorted(input, s);
  }

  /**
   * A descending rearrangement of the example's input is the printed
   * output: descending integers are ascending under the negated key, which
   * tells integers apart.
   */
  lemma MinExampleSorted(input: seq<int>, s: seq<int>)
    requires input == [64, 34, 25, 12, 22, 11, 90, 8, 42, 17]
    requires |s| == 10 && DescendingBetween(s, Id, 0, 10) && Rearranged(s, input, 0, 10)
    ensures s == [90, 64, 42, 34, 25, 22, 17, 12, 11, 8]
  {
    var e := [90, 64, 42, 34, 25, 22, 17, 12, 11, 8];
    DescendingAsNeg(s);
    ExampleInputBag(input);
    MinBagsEqual();
    MinOutputBag(e);
    MinOutputDescending(e);
    NegIdInjective();
    AscendingUnique(s, e, Neg(Id));
  }

  /** A descending sequence of integers is ascending under Neg(Id). */
  lemma DescendingAsNeg(s: seq<int>)
    requires DescendingBetween(s, Id, 0, |s|)
    ensures Ascending(s, Neg(Id))
  {
    SortedNeg(s, Id, |s|);
    assert s[0..|s|] == s;
    SortedBetweenSlice(s, Neg(Id), 0, |s|);
  }

  /** Neg(Id) gives distinct integers distinct keys. */
  lemma NegIdInjective()
    ensures forall x: int, y: int :: Neg(Id)(x) == Neg(Id)(y) ==> x == y
  {
    forall x: int, y: int | Neg(Id)(x) == Neg(Id)(y)
      ensures x == y
    {
      assert Neg(Id)(x) == -Id(x) && Neg(Id)(y) == -Id(y);
    }
  }

  lemma MinOutputDescending(e: seq<int>)
    requires e == [90, 64, 42, 34, 25, 22, 17, 12, 11, 8]
    ensures Ascending(e, Neg(Id))
  {
    forall i, j | 0 <= i < j < |e|
      ensures Neg(Id)(e[i]) <= Neg(Id)(e[j])
    {
      assert Neg(Id)(e[i]) == -Id(e[i]) && Neg(Id)(e[j]) == -Id(e[j]);
    }
  }

  lemma MinBagsEqual()
    ensures multiset{64, 34, 25, 12, 22, 11, 90, 8, 42, 17} == multiset{90, 64, 42, 34, 25, 22, 17, 12, 11, 8}
  {
  }

  lemma MinOutputBag(e: seq<int>)
    requires e == [90, 64, 42, 34, 25, 22, 17, 12, 11, 8]
    ensures multiset(e) == multiset{90, 64, 42, 34, 25, 22, 17, 12, 11, 8}
  {
  }

  /** The already-sorted example: cells filled with 1 to 10 stay as they are. */
  method ExampleAlreadySorted() returns (s: seq<int>)
    ensures s == [1, 2, 3, 4, 5, 6, 7, 8, 9, 10]
  {
    var input := [1, 2, 3, 4, 5, 6, 7, 8, 9, 10];
    var a := new int[10](i requires 0 <= i < 10 => input[i]);
    assert a[..] == input;
    HeapSort(a, Id, 10);
    s := a[..];
    OneToTenAscending(input);
    SortedIsExpected(input, s, input);
  }

  lemma OneToTenAscending(e: seq<int>)
    requires e == [1, 2, 3, 4, 5, 6, 7, 8, 9, 10]
    ensures Ascending(e, Id)
  {
  }

  /** The reverse-sorted example: cells filled with 10 down to 1 end ascending. */
  method ExampleReversed() returns (s: seq<int>)
    ensures s == [1, 2, 3, 4, 5, 6, 7, 8, 9, 10]
  {
    var input := [10, 9, 8, 7, 6, 5, 4, 3, 2, 1];
    var a := new int[10](i requires 0 <= i < 10 => input[i]);
    assert a[..] == input;
    HeapSort(a, Id, 10);
    s := a[..];
    ReversedSorted(input, s);
  }

  lemma ReversedSorted(input: seq<int>, s: seq<int>)
    requires input == [10, 9, 8, 7, 6, 5, 4, 3, 2, 1]
    requires |s| == 10 && SortedBetween(s, Id, 0, 10) && Rearranged(s, input, 0, 10)
    ensures s == [1, 2, 3, 4, 5, 6, 7, 8, 9, 10]
  {
    var e := [1, 2, 3, 4, 5, 6, 7, 8, 9, 10];
    ReversedInputBag(input);
    ReversedBagsEqual();
    OneToTenBag(e);
    OneToTenAscending(e);
    SortedIsExpected(input, s, e);
  }

  lemma ReversedInputBag(input: seq<int>)
    requires input == [10, 9, 8, 7, 6, 5, 4, 3, 2, 1]
    ensures multiset(input) == multiset{10, 9, 8, 7, 6, 5, 4, 3, 2, 1}
  {
  }

  lemma ReversedBagsEqual()
    ensures multiset{10, 9, 8, 7, 6, 5, 4, 3, 2, 1} == multiset{1, 2, 3, 4, 5, 6, 7, 8, 9, 10}
  {
  }

  lemma OneToTenBag(e: seq<int>)
    requires e == [1, 2, 3, 4, 5, 6, 7, 8, 9, 10]
    ensures multiset(e) == multiset{1, 2, 3, 4, 5, 6, 7, 8, 9, 10}
  {
  }

  /** The duplicates example: equal values end up next to each other. */
  method ExampleDuplicates() returns (s: seq<int>)
    ensures s == [1, 1, 1, 2, 2, 2, 5, 5, 5, 5]
  {
    var input := [5, 2, 5, 1, 2, 5, 1, 2, 5, 1];
    var a := new int[10](i requires 0 <= i < 10 => input[i]);
    assert a[..] == input;
    HeapSort(a, Id, 10);
    s := a[..];
    DuplicatesSorted(input, s);
  }

  lemma DuplicatesSorted(input: seq<int>, s: seq<int>)
    requires input == [5, 2, 5, 1, 2, 5, 1, 2, 5, 1]
    requires |s| == 10 && SortedBetween(s, Id, 0, 10) && Rearranged(s, input, 0, 10)
    ensures s == [1, 1, 1, 2, 2, 2, 5, 5, 5, 5]
  {
    var e := [1, 1, 1, 2, 2, 2, 5, 5, 5, 5];
    DuplicatesBags(input, e);
    DuplicatesOutputAscending(e);
    SortedIsExpected(input, s, e);
  }

  lemma DuplicatesBags(input: seq<int>, e: seq<int>)
    requires input == [5, 2, 5, 1, 2, 5, 1, 2, 5, 1]
    requires e == [1, 1, 1, 2, 2, 2, 5, 5, 5, 5]
    ensures multiset(input) == multiset(e)
  {
    assert multiset(input) == multiset{5, 2, 5, 1, 2, 5, 1, 2, 5, 1};
    assert multiset(e) == multiset{1, 1, 1, 2, 2, 2, 5, 5, 5, 5};
  }

  lemma DuplicatesOutputAscending(e: seq<int>)
    requires e == [1, 1, 1, 2, 2, 2, 5, 5, 5, 5]
    ensures Ascending(e, Id)
  {
  }

  /**
   * The partial example: heap_sort(arr, 5) sorts the first five cells and
   * leaves the other five as they were.
   */
  method ExamplePartial() returns (s: seq<int>)
    ensures s == [12, 22, 25, 34, 64, 11, 90, 8, 42, 17]
  {
    var input := [64, 34, 25, 12, 22, 11, 90, 8, 42, 17];
    var a := new int[10](i requires 0 <= i < 10 => input[i]);
    assert a[..] == input;
    HeapSort(a, Id, 5);
    s := a[..];
    PartialSorted(input, s);
  }

  lemma PartialSorted(input: seq<int>, s: seq<int>)
    requires input == [64, 34, 25, 12, 22, 11, 90, 8, 42, 17]
    requires |s| == 10 && SortedBetween(s, Id, 0, 5) && Rearranged(s, input, 0, 5)
    ensures s == [12, 22, 25, 34, 64, 11, 90, 8, 42, 17]
  {
    var e := [12, 22, 25, 34, 64];
    PartialFacts(input, e);
    SortedPrefixIsExpected(input, s, e);
  }

  lemma PartialFacts(input: seq<int>, e: seq<int>)
    requires input == [64, 34, 25, 12, 22, 11, 90, 8, 42, 17] && e == [12, 22, 25, 34, 64]
    ensures Ascending(e, Id) && multiset(e) == multiset(input[0..5])
    ensures e + input[5..] == [12, 22, 25, 34, 64, 11, 90, 8, 42, 17]
  {
    assert input[0..5] == [64, 34, 25, 12, 22];
    PartialBags(input[0..5], e);
    PartialOutputAscending(e);
  }

  /**
   * A rearrangement of the first |e| cells that leaves them sorted, where e
   * is the ascending sequence of their values, puts e in front of the rest.
   */
  lemma SortedPrefixIsExpected(input: seq<int>, s: seq<int>, e: seq<int>)
    requires |e| <= |s| && SortedBetween(s, Id, 0, |e|) && Rearranged(s, input, 0, |e|)
    requires Ascending(e, Id) && multiset(e) == multiset(input[0..|e|])
    ensures s == e + input[|e|..]
  {
    var n := |e|;
    assert s[..0] == input[..0] && s[n..] == input[n..];
    RangePerm(s, input, 0, n);
    var front := s[0..n];
    assert SortedBetween(front, Id, 0, n);
    SortedIsExpected(input[0..n], front, e);
    assert s == front + s[n..];
  }

  lemma PartialBags(head: seq<int>, e: seq<int>)
    requires head == [64, 34, 25, 12, 22] && e == [12, 22, 25, 34, 64]
    ensures multiset(head) == multiset(e)
  {
    assert multiset(head) == multiset{64, 34, 25, 12, 22};
    assert multiset(e) == multiset{12, 22, 25, 34, 64};
  }

  lemma PartialOutputAscending(e: seq<int>)
    requires e == [12, 22, 25, 34, 64]
    ensures Ascending(e, Id)
  {
  }
}
