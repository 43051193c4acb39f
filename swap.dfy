/**
 * The swap both sorting files define (swap(A, B) through references, used
 * only on two cells of one array) and the notion of an array rearranged
 * inside a range of indices.
 */
module Swapping {
  import opened Order

  /** swap(A, B) on two cells of one array: the two cells exchange their values. */
  method Swap<T>(a: array<T>, i: nat, j: nat)
    requires i < a.Length && j < a.Length
    modifies a
    ensures a[..] == old(a[..])[i := old(a[j])][j := old(a[i])]
  {
    var temp := a[i];
    a[i] := a[j];
    a[j] := temp;
  }

  /** S is a rearrangement of A that differs from A only inside [lo, hi). */
  ghost predicate Rearranged<T>(S: seq<T>, A: seq<T>, lo: nat, hi: nat) {
    |S| == |A| && multiset(S) == multiset(A)
    && forall k :: 0 <= k < |S| && !(lo <= k < hi) ==> S[k] == A[k]
  }

  /** Swapping two cells inside [lo, hi) keeps a rearrangement inside [lo, hi). */
  lemma SwapRearranged<T>(S: seq<T>, A: seq<T>, lo: nat, hi: nat, i: nat, j: nat)
    requires Rearranged(S, A, lo, hi) && lo <= i < hi && lo <= j < hi && hi <= |S|
    ensures Rearranged(S[i := S[j]][j := S[i]], A, lo, hi)
  {
    SwapPerm(S, i, j);
  }

  /** A rearrangement inside [lo, hi) is one inside any wider range. */
  lemma RearrangedWiden<T>(S: seq<T>, A: seq<T>, lo: nat, hi: nat, lo': nat, hi': nat)
    requires Rearranged(S, A, lo, hi) && lo' <= lo && hi <= hi'
    ensures Rearranged(S, A, lo', hi')
  {
  }

  /** Rearrangements inside [lo, hi) compose. */
  lemma RearrangedTrans<T>(U: seq<T>, S: seq<T>, A: seq<T>, lo: nat, hi: nat)
    requires Rearranged(U, S, lo, hi) && Rearranged(S, A, lo, hi)
    ensures Rearranged(U, A, lo, hi)
  {
  }
}
