/**
 * DSA::array<T, S>: a fixed-capacity container that owns a buffer of
 * exactly S cells.  Access through `operator[]`, `front` and `back` is
 * unchecked (out of range is undefined behaviour, here a precondition);
 * `at` is checked and throws std::out_of_range.  Construction and
 * assignment from an initializer list throw std::out_of_range when the list
 * is longer than S, before any cell is written.
 *
 * A thrown exception is a `Thrown` result.  The template parameter S is the
 * constant field `S`, and the embedded C array is the `elements` array,
 * which no two containers share.  Iterators (raw pointers and
 * std::reverse_iterator) are modelled by the sequence of cells they visit.
 */
module FixedArrays {

  /** The two std::out_of_range errors the container throws. */
  datatype Error = SizeExceeded | IndexOutOfRange

  /**
   * The what() text of each error: each error has its own text, and both
   * start with "Error: ".
   */
  function Message(e: Error): (r: string)
    ensures |r| > 7 && r[..7] == "Error: "
    ensures r == "Error: Size is exceeded!" <==> e == SizeExceeded
    ensures r == "Error: Index is out of range!" <==> e == IndexOutOfRange
  {
    match e
    case SizeExceeded => "Error: Size is exceeded!"
    case IndexOutOfRange => "Error: Index is out of range!"
  }

  /** The outcome of an operation that may throw. */
  datatype Result<R> = Ok(value: R) | Thrown(error: Error)

  /**
   * The cells after writing `list` from index 0 on: the list's values in
   * front, every later cell as it was.
   */
  function Overwritten<T>(s: seq<T>, list: seq<T>): (r: seq<T>)
    requires |list| <= |s|
    ensures |r| == |s|
    ensures forall k :: 0 <= k < |list| ==> r[k] == list[k]
    ensures forall k :: |list| <= k < |s| ==> r[k] == s[k]
  {
    list + s[|list|..]
  }

  /** The cells of s from last to first. */
  function Reversed<T>(s: seq<T>): (r: seq<T>)
    ensures |r| == |s|
    ensures forall k :: 0 <= k < |s| ==> r[k] == s[|s| - 1 - k]
  {
    if s == [] then [] else Reversed(s[1..]) + [s[0]]
  }

  /** Reversing twice gives the cells back. */
  lemma ReversedTwice<T>(s: seq<T>)
    ensures Reversed(Reversed(s)) == s
  {
    assert forall k :: 0 <= k < |s| ==> Reversed(Reversed(s))[k] == s[k];
  }

  class FixedArray<T(0)> {
    const S: nat
    const elements: array<T>

    /** The buffer holds exactly S cells. */
    ghost predicate Valid()
      reads this
    {
      elements.Length == S
    }

    /** The values of the S cells, in order. */
    function Contents(): (r: seq<T>)
      requires Valid()
      reads this, elements
      ensures |r| == S
    {
      elements[..]
    }

    /**
     * array() = default: S cells whose values are left indeterminate, which
     * the model leaves unspecified.
     */
    constructor (size: nat)
      ensures Valid() && S == size && fresh(elements)
    {
      S := size;
      elements := new T[size];
    }

    /**
     * array(list): throws SizeExceeded, building nothing, when the list is
     * longer than S; otherwise writes the list from index 0 on.  The cells
     * from |list| on are not written and keep indeterminate values.
     */
    static method FromList(size: nat, list: seq<T>) returns (r: Result<FixedArray<T>>)
      ensures r.Thrown? <==> |list| > size
      ensures r.Thrown? ==> r.error == SizeExceeded && Message(r.error) == "Error: Size is exceeded!"
      ensures r.Ok? ==> fresh(r.value) && fresh(r.value.elements) && r.value.Valid() && r.value.S == size
      ensures r.Ok? ==> r.value.Contents()[..|list|] == list
    {
      if |list| > size {
        return Thrown(SizeExceeded);
      }
      var arr := new FixedArray(size);
      var index := 0;
      while index < |list|
        invariant index <= |list| && arr.Valid() && arr.S == size && fresh(arr.elements)
        invariant arr.elements[..index] == list[..index]
        modifies arr.elements
      {
        arr.elements[index] := list[index];
        index := index + 1;
      }
      return Ok(arr);
    }

    /**
     * operator=(list): throws SizeExceeded and changes nothing when the
     * list is longer than S; otherwise overwrites the first |list| cells.
     */
    method AssignList(list: seq<T>) returns (r: Result<()>)
      requires Valid()
      modifies elements
      ensures Valid()
      ensures |list| > S ==> r == Thrown(SizeExceeded) && Contents() == old(Contents())
      ensures r.Thrown? ==> Message(r.error) == "Error: Size is exceeded!"
      ensures |list| <= S ==> r == Ok(()) && Contents() == Overwritten(old(Contents()), list)
    {
      if |list| > S {
        return Thrown(SizeExceeded);
      }
      ghost var E := elements[..];
      var index := 0;
      while index < |list|
        invariant index <= |list| && elements[..] == Overwritten(E, list[..index])
      {
        elements[index] := list[index];
        index := index + 1;
      }
      assert list[..index] == list;
      return Ok(());
    }

    /**
     * operator=(other): copies the cells of another container of the same
     * type; assigning a container to itself changes nothing.
     */
    method CopyAssign(other: FixedArray<T>)
      requires Valid() && other.Valid() && other.S == S
      requires other != this ==> other.elements != elements
      modifies elements
      ensures Valid() && other.Valid()
      ensures Contents() == old(other.Contents())
      ensures other.Contents() == old(other.Contents())
    {
      ghost var O := other.elements[..];
      for index := 0 to S
        invariant forall k :: 0 <= k < index ==> elements[k] == O[k]
        invariant forall k :: index <= k < S ==> other.elements[k] == O[k]
        invariant other != this ==> other.elements[..] == O
      {
        elements[index] := other.elements[index];
      }
    }

    /** operator[] read: cell `index`, which must exist. */
    function Get(index: nat): (r: T)
      requires Valid() && index < S
      reads this, elements
      ensures r == Contents()[index]
    {
      elements[index]
    }

    /** operator[] written through: cell `index` becomes v, the others stay. */
    method Set(index: nat, v: T)
      requires Valid() && index < S
      modifies elements
      ensures Valid() && Contents() == old(Contents())[index := v]
    {
      elements[index] := v;
    }

    /**
     * at(index) read: throws IndexOutOfRange exactly when index >= S, and
     * otherwise gives the same cell as operator[].
     */
    function At(index: nat): (r: Result<T>)
      requires Valid()
      reads this, elements
      ensures r.Thrown? <==> index >= S
      ensures r.Thrown? ==> r.error == IndexOutOfRange && Message(r.error) == "Error: Index is out of range!"
      ensures r.Ok? ==> r.value == Get(index)
    {
      if index >= S then Thrown(IndexOutOfRange) else Ok(elements[index])
    }

    /** at(index) written through: the checked version of Set. */
    method SetAt(index: nat, v: T) returns (r: Result<()>)
      requires Valid()
      modifies elements
      ensures Valid()
      ensures index >= S ==> r == Thrown(IndexOutOfRange) && Contents() == old(Contents())
      ensures r.Thrown? ==> Message(r.error) == "Error: Index is out of range!"
      ensures index < S ==> r == Ok(()) && Contents() == old(Contents())[index := v]
    {
      if index >= S {
        return Thrown(IndexOutOfRange);
      }
      elements[index] := v;
      return Ok(());
    }

    /** The cells begin() to end() visit, in order. */
    function Forward(): (r: seq<T>)
      requires Valid()
      reads this, elements
      ensures |r| == Size() && forall k :: 0 <= k < S ==> r[k] == Get(k)
    {
      Contents()
    }

    /** The cells rbegin() to rend() visit: S-1 down to 0. */
    function Backward(): (r: seq<T>)
      requires Valid()
      reads this, elements
      ensures |r| == Size() && forall k :: 0 <= k < S ==> r[k] == Get(S - 1 - k)
    {
      Reversed(elements[..])
    }

    /** front(): the first cell visited from begin(). */
    function Front(): (r: T)
      requires Valid() && S > 0
      reads this, elements
      ensures r == Forward()[0] && r == Backward()[S - 1]
    {
      elements[0]
    }

    /** back(): the last cell visited from begin(), the first from rbegin(). */
    function Back(): (r: T)
      requires Valid() && S > 0
      reads this, elements
      ensures r == Forward()[S - 1] && r == Backward()[0]
    {
      elements[S - 1]
    }

    /** size(): the number of cells, whatever was done before. */
    function Size(): (r: nat)
      requires Valid()
      reads this, elements
      ensures r == |Contents()|
    {
      S
    }

    /** max_size(): the capacity, the same as size(). */
    function MaxSize(): (r: nat)
      requires Valid()
      reads this, elements
      ensures r == Size()
    {
      S
    }

    /** empty(): there are no cells. */
    function Empty(): (r: bool)
      requires Valid()
      reads this, elements
      ensures r <==> Contents() == []
    {
      S == 0
    }

    /** fill(value): every cell becomes value. */
    method Fill(value: T)
      requires Valid()
      modifies elements
      ensures Valid()
      ensures forall k :: 0 <= k < S ==> Get(k) == value
    {
      for index := 0 to S
        invariant forall k :: 0 <= k < index ==> elements[k] == value
      {
        elements[index] := value;
      }
    }

    /**
     * swap(other): swap_ranges over the S cells, so each container ends up
     * with the other's former cells; swapping with itself changes nothing.
     */
    method Swap(other: FixedArray<T>)
      requires Valid() && other.Valid() && other.S == S
      requires other != this ==> other.elements != elements
      modifies elements, other.elements
      ensures Valid() && other.Valid()
      ensures Contents() == old(other.Contents())
      ensures other.Contents() == old(Contents())
    {
      ghost var O := other.elements[..];
      ghost var E := elements[..];
      for index := 0 to S
        invariant forall k :: 0 <= k < index ==> elements[k] == O[k] && other.elements[k] == E[k]
        invariant forall k :: index <= k < S ==> elements[k] == E[k] && other.elements[k] == O[k]
      {
        var temp := elements[index];
        elements[index] := other.elements[index];
        other.elements[index] := temp;
      }
    }
  }

  /**
   * Scenarios for array<int, 3>: a list of two fills the first two cells,
   * a list of four is refused, a full list assignment sets back(), and at(5)
   * is out of range.
   */
  method Scenarios() returns (first: int, second: int, last: int, tooLong: Result<FixedArray<int>>, far: Result<int>)
    ensures first == 1 && second == 2 && last == 3
    ensures tooLong == Thrown(SizeExceeded) && far == Thrown(IndexOutOfRange)
  {
    var made := FixedArray<int>.FromList(3, [1, 2]);
    var a := made.value;
    assert a.Contents()[..2] == [1, 2];
    first, second := a.Get(0), a.Get(1);
    var b := new FixedArray<int>(3);
    var _ := b.AssignList([1, 2, 3]);
    last := b.Back();
    tooLong := FixedArray<int>.FromList(3, [1, 2, 3, 4]);
    far := b.At(5);
  }
}
