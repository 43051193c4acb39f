/**
 * Orderings shared by the merge, quick and heap sorts.
 *
 * The sorts are templates over an element type T that is compared with its
 * own `<=`, `<`, `>` and `>=`.  Here T is any type and its order is given by
 * an integer key: `x <= y` in the source is `key(x) <= key(y)`.  This is a
 * total preorder, so two distinct elements may compare equal, which is what
 * makes the stability of the merge a property worth stating.  Sorting plain
 * integers is the case `key == Id`.
 */
module Order {

  /** The key that sorts integers by their own value. */
  function Id(x: int): int { x }

  /** The reversed order: `x < y` under `key` is `x > y` under `Neg(key)`. */
  function Neg<T>(key: T -> int): T -> int {
    x => -key(x)
  }

  /** No element of s has a larger key than an element after it. */
  ghost predicate Ascending<T>(s: seq<T>, key: T -> int) {
    forall i, j :: 0 <= i < j < |s| ==> key(s[i]) <= key(s[j])
  }

  /** The keys of s[lo..hi) never decrease, stated on indices of s itself. */
  ghost predicate SortedBetween<T>(s: seq<T>, key: T -> int, lo: nat, hi: nat)
    requires hi <= |s|
  {
    forall i, j :: lo <= i < j < hi ==> key(s[i]) <= key(s[j])
  }

  /** The keys of s[lo..hi) never increase, stated on indices of s itself. */
  ghost predicate DescendingBetween<T>(s: seq<T>, key: T -> int, lo: nat, hi: nat)
    requires hi <= |s|
  {
    forall i, j :: lo <= i < j < hi ==> key(s[i]) >= key(s[j])
  }

  /** Every element of s has a key of at least v. */
  ghost predicate AllAtLeast<T>(s: seq<T>, key: T -> int, v: int) {
    forall k :: 0 <= k < |s| ==> key(s[k]) >= v
  }

  /** The elements of s whose key is v, in the order they have in s. */
  function KeyFilter<T>(s: seq<T>, key: T -> int, v: int): seq<T>
  {
    if s == [] then []
    else (if key(s[0]) == v then [s[0]] else []) + KeyFilter(s[1..], key, v)
  }

  /**
   * t keeps, for every key, the relative order of the elements of s that
   * have that key: a stable rearrangement.
   */
  ghost predicate SameOrderPerKey<T>(t: seq<T>, s: seq<T>, key: T -> int) {
    forall v :: KeyFilter(t, key, v) == KeyFilter(s, key, v)
  }

  /** Concatenation is associative. */
  lemma AppendAssoc<T>(a: seq<T>, b: seq<T>, c: seq<T>)
    ensures a + (b + c) == (a + b) + c
  {
  }

  /** Selecting one key commutes with concatenation. */
  lemma {:induction false} KeyFilterAppend<T>(s: seq<T>, t: seq<T>, key: T -> int, v: int)
    ensures KeyFilter(s + t, key, v) == KeyFilter(s, key, v) + KeyFilter(t, key, v)
  {
    if s == [] {
      assert s + t == t;
    } else {
      var head := if key(s[0]) == v then [s[0]] else [];
      assert (s + t)[0] == s[0] && (s + t)[1..] == s[1..] + t;
      KeyFilterAppend(s[1..], t, key, v);
      calc {
        KeyFilter(s + t, key, v);
        head + KeyFilter(s[1..] + t, key, v);
        head + (KeyFilter(s[1..], key, v) + KeyFilter(t, key, v));
        (head + KeyFilter(s[1..], key, v)) + KeyFilter(t, key, v);
      }
    }
  }

  /** A sequence none of whose keys is v selects nothing for v. */
  lemma {:induction false} KeyFilterAbsent<T>(s: seq<T>, key: T -> int, v: int)
    requires forall k :: 0 <= k < |s| ==> key(s[k]) != v
    ensures KeyFilter(s, key, v) == []
  {
    if s != [] {
      KeyFilterAbsent(s[1..], key, v);
    }
  }

  /** A rearrangement keeps every lower bound on the keys. */
  lemma PermAtLeast<T>(s: seq<T>, t: seq<T>, key: T -> int, v: int)
    requires multiset(s) == multiset(t) && AllAtLeast(t, key, v)
    ensures AllAtLeast(s, key, v)
  {
    forall k | 0 <= k < |s| ensures key(s[k]) >= v {
      assert s[k] in multiset(t);
      var m :| 0 <= m < |t| && t[m] == s[k];
    }
  }

  /**
   * If a whole sequence is rearranged and the parts outside [lo, hi) are
   * unchanged, the part inside [lo, hi) was rearranged.
   */
  lemma RangePerm<T>(s: seq<T>, t: seq<T>, lo: nat, hi: nat)
    requires lo <= hi <= |s| == |t|
    requires multiset(s) == multiset(t)
    requires s[..lo] == t[..lo] && s[hi..] == t[hi..]
    ensures multiset(s[lo..hi]) == multiset(t[lo..hi])
  {
    assert s == s[..lo] + s[lo..hi] + s[hi..];
    assert t == t[..lo] + t[lo..hi] + t[hi..];
    assert multiset(s) == multiset(s[..lo]) + multiset(s[lo..hi]) + multiset(s[hi..]);
    assert multiset(t) == multiset(t[..lo]) + multiset(t[lo..hi]) + multiset(t[hi..]);
    assert multiset(s[lo..hi]) == multiset(s) - multiset(s[..lo]) - multiset(s[hi..]);
    assert multiset(t[lo..hi]) == multiset(t) - multiset(t[..lo]) - multiset(t[hi..]);
  }

  /**
   * Two ascending rearrangements of the same elements are equal when the key
   * tells elements apart: sorting by such a key has exactly one result.
   */
  lemma {:induction false} AscendingUnique<T>(s: seq<T>, t: seq<T>, key: T -> int)
    requires Ascending(s, key) && Ascending(t, key)
    requires multiset(s) == multiset(t)
    requires forall x, y :: key(x) == key(y) ==> x == y
    ensures s == t
    decreases |s|
  {
    SamePermLength(s, t);
    if s != [] {
      AscendingHeadIsLeast(s, key, t[0]);
      AscendingHeadIsLeast(t, key, s[0]);
      PermTail(s, t);
      AscendingSlice(s, key, 1, |s|);
      AscendingSlice(t, key, 1, |t|);
      AscendingUnique(s[1..], t[1..], key);
      assert s == [s[0]] + s[1..];
      assert t == [t[0]] + t[1..];
    }
  }

  /** Rearrangements have the same length. */
  lemma SamePermLength<T>(s: seq<T>, t: seq<T>)
    requires multiset(s) == multiset(t)
    ensures |s| == |t|
  {
    assert |s| == |multiset(s)|;
    assert |t| == |multiset(t)|;
  }

  /** Removing the same first element from two rearrangements leaves two rearrangements. */
  lemma PermTail<T>(s: seq<T>, t: seq<T>)
    requires multiset(s) == multiset(t)
    requires s != [] && t != [] && s[0] == t[0]
    ensures multiset(s[1..]) == multiset(t[1..])
  {
    assert s == [s[0]] + s[1..] && t == [t[0]] + t[1..];
    assert multiset(s[1..]) == multiset(s) - multiset{s[0]};
    assert multiset(t[1..]) == multiset(t) - multiset{t[0]};
  }

  /** Every slice of an ascending sequence is ascending. */
  lemma AscendingSlice<T>(s: seq<T>, key: T -> int, lo: nat, hi: nat)
    requires lo <= hi <= |s|
    requires Ascending(s, key)
    ensures Ascending(s[lo..hi], key)
  {
    forall i, j | 0 <= i < j < hi - lo ensures key(s[lo..hi][i]) <= key(s[lo..hi][j]) {
      assert s[lo..hi][i] == s[lo + i] && s[lo..hi][j] == s[lo + j];
    }
  }

  /** The head of a nonempty ascending sequence has the least key. */
  lemma AscendingHeadIsLeast<T>(s: seq<T>, key: T -> int, x: T)
    requires Ascending(s, key) && x in multiset(s)
    ensures |s| > 0 && key(s[0]) <= key(x)
  {
    var m :| 0 <= m < |s| && s[m] == x;
    assert key(s[0]) <= key(s[m]) || m == 0;
  }

  /** SortedBetween on [lo, hi) is Ascending of that slice. */
  lemma SortedBetweenSlice<T>(s: seq<T>, key: T -> int, lo: nat, hi: nat)
    requires lo <= hi <= |s| && SortedBetween(s, key, lo, hi)
    ensures Ascending(s[lo..hi], key)
  {
    forall i, j | 0 <= i < j < hi - lo ensures key(s[lo..hi][i]) <= key(s[lo..hi][j]) {
      assert s[lo..hi][i] == s[lo + i] && s[lo..hi][j] == s[lo + j];
    }
  }

  /** Exchanging two elements of a sequence keeps its multiset. */
  lemma SwapPerm<T>(s: seq<T>, i: nat, j: nat)
    requires i < |s| && j < |s|
    ensures multiset(s[i := s[j]][j := s[i]]) == multiset(s)
  {
  }

  /**
   * If t is a rearrangement of s that differs from s only inside [lo, hi),
   * every bound f that holds on s[lo..hi) still holds on t[lo..hi).
   */
  lemma RangeKeepsBound<T>(s: seq<T>, t: seq<T>, lo: nat, hi: nat, f: T -> bool)
    requires lo <= hi <= |s| == |t|
    requires multiset(t) == multiset(s)
    requires forall k :: 0 <= k < |s| && !(lo <= k < hi) ==> t[k] == s[k]
    requires forall k :: lo <= k < hi ==> f(s[k])
    ensures forall k :: lo <= k < hi ==> f(t[k])
  {
    assert t[..lo] == s[..lo];
    assert t[hi..] == s[hi..];
    RangePerm(t, s, lo, hi);
    forall k | lo <= k < hi ensures f(t[k]) {
      assert t[k] == t[lo..hi][k - lo];
      assert t[k] in multiset(s[lo..hi]);
      var m :| 0 <= m < hi - lo && s[lo..hi][m] == t[k];
      assert s[lo + m] == t[k];
    }
  }
}
