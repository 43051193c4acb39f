# Sorting algorithms, a fixed-size array and a tree node, in Dafny

This project models the algorithmic core of a small C++ library of data
structures and algorithms, and proves what each routine promises.

- **merge_sort.hpp**: `merge_array` merges two adjacent ascending runs of an
  array through a temporary buffer. `merge_sort` sorts `arr[l..h]` by
  recursive halving.
- **quick_sort.hpp**: two quick sorts, `quick_sort_first` and
  `quick_sort_last`. They differ in the partition scheme: the pivot is the
  first cell (`partition_first`, two cursors) or the last cell
  (`partition_last`, one sweep).
- **heap.cpp**: `heapify`, `heap_sort`, `min_heapify` and `min_heap_sort` on
  the implicit binary heap, where the children of `r` are `2r+1` and `2r+2`.
- **array2.cpp**: `DSA::array<T, S>` is a fixed-capacity container. Its
  list construction and `at` are checked and throw `std::out_of_range`.
- **node.cpp**: `Node<T>` is a binary-tree node with data and two nullable
  child references. It has lvalue (aliasing) and rvalue (copying)
  overloads of its constructors and setters, move operations that reset
  their source, throwing getters, and data-only equality.

Elements of the sorting routines have a generic type `T`, ordered through an
integer key `key: T -> int`. The source's `<=` is `key(x) <= key(y)`, and
integers use the identity key `Id`. With a key, stability can be stated: the
elements sharing a key keep their relative order (`SameOrderPerKey`, via
`KeyFilter`). The min-heap routines are the max-heap reasoning under the
negated key `Neg(key)`.

Files:
- `order.dfy` (module `Order`): sortedness, bounds, per-key selection and
  their lemmas.
- `swap.dfy` (module `Swapping`): the swap both sorting headers define, and
  "rearranged inside a range".
- `merge_sort.dfy` (`MergeSorting`), `quick_sort.dfy` (`QuickSorting`),
  `heap.dfy` (`HeapSorting`): the three sorting headers.
- `fixed_array.dfy` (`FixedArrays`): `DSA::array`.
- `node.dfy` (`Nodes`): `Node<T>`.

The sorts work in place on a Dafny `array`. Each one is specified by:
- what the range becomes (ascending, a rearrangement of what it held,
  stable for merge sort);
- what stays unchanged outside it.

`DSA::array` and `Node` are classes whose methods update their fields and
state the new state in full. Exceptions are `Thrown` results. The size_t
wrap-around that `heap_sort`'s count-down loops rely on is modelled by
`HeapSorting.Wrap`.

## Model

| member | source | states |
|---|---|---|
| Swapping.Swap | src/Algorithms/Divide_and_Conquer/Sorting/Quick_Sort/quick_sort.hpp:5-9 | the two cells exchange their values and no other cell changes; the heap's own swap (lines 24-28 of heap.cpp) is the same function |
| Swapping.SwapRearranged | src/Algorithms/Divide_and_Conquer/Sorting/Quick_Sort/quick_sort.hpp:18 | swapping two cells inside a range keeps the array a rearrangement of the original that differs only inside the range |
| MergeSorting.Merge | src/Algorithms/Divide_and_Conquer/Sorting/Merge_Sort/merge_sort.hpp:10-29 | the merged sequence has exactly as many elements as the two runs together |
| MergeSorting.MergeLoopIsMerge | src/Algorithms/Divide_and_Conquer/Sorting/Merge_Sort/merge_sort.hpp:10-29 | from any cursor positions, the three loops append the merge of what is left of both runs to the buffer |
| MergeSorting.MergePerm | src/Algorithms/Divide_and_Conquer/Sorting/Merge_Sort/merge_sort.hpp:10-29 | the merge is a rearrangement of the two runs: its multiset is the sum of theirs |
| MergeSorting.MergeAscending | src/Algorithms/Divide_and_Conquer/Sorting/Merge_Sort/merge_sort.hpp:5-33 | merging two ascending runs gives an ascending sequence |
| MergeSorting.MergeStable | src/Algorithms/Divide_and_Conquer/Sorting/Merge_Sort/merge_sort.hpp:11 | because ties take the left run's element (`<=`), for every key the merge lists the left run's elements of that key before the right run's, each in its original order |
| MergeSorting.MergeSortedHalves | src/Algorithms/Divide_and_Conquer/Sorting/Merge_Sort/merge_sort.hpp:39-42 | merging stably sorted rearrangements of two halves gives an ascending, stable rearrangement of the whole |
| MergeSorting.MergeIntoBuffer | src/Algorithms/Divide_and_Conquer/Sorting/Merge_Sort/merge_sort.hpp:5-29 | the fresh buffer of h-l+1 cells holds the merge of arr[l..mid] and arr[mid+1..h] |
| MergeSorting.MergeArray | src/Algorithms/Divide_and_Conquer/Sorting/Merge_Sort/merge_sort.hpp:5-34 | after the copy-back, arr[l..h] is the merge of the two runs as they were, and every cell outside [l, h] is unchanged |
| MergeSorting.SortedStep | src/Algorithms/Divide_and_Conquer/Sorting/Merge_Sort/merge_sort.hpp:38-42 | sorting [l, mid] and then [mid+1, h] and merging them sorts [l, h] stably, relative to the range's original contents |
| MergeSorting.MergeSort | src/Algorithms/Divide_and_Conquer/Sorting/Merge_Sort/merge_sort.hpp:37-45 | returns arr; arr[l..h] ends ascending, a rearrangement of its old contents, and stable; nothing outside [l, h] changes; l >= h changes nothing |
| MergeSorting.Example | src/Algorithms/Divide_and_Conquer/Sorting/Merge_Sort/example.cpp:5-11 | {17, 22, -100, 14, 9, 0, 11, -2} sorts to -100 -2 0 9 11 14 17 22 |
| MergeSorting.ExampleSorted | src/Algorithms/Divide_and_Conquer/Sorting/Merge_Sort/example.cpp:5-11 | the printed output is the only ascending rearrangement of that input |
| QuickSorting.ScanRight | src/Algorithms/Divide_and_Conquer/Sorting/Quick_Sort/quick_sort.hpp:15 | i stops at the first index after its start that is past h or holds a key above the pivot's, having passed only keys at most the pivot's |
| QuickSorting.ScanLeft | src/Algorithms/Divide_and_Conquer/Sorting/Quick_Sort/quick_sort.hpp:16 | j stops at the first index below its start that holds a key at most the pivot's, or at l, having passed only keys above the pivot's |
| QuickSorting.ScanRound | src/Algorithms/Divide_and_Conquer/Sorting/Quick_Sort/quick_sort.hpp:14-20 | one round of the outer loop, with the swap when i < j, keeps keys in (l, i) at most the pivot and keys in (j, h] above it |
| QuickSorting.ScanDone | src/Algorithms/Divide_and_Conquer/Sorting/Quick_Sort/quick_sort.hpp:21-22 | once the cursors have crossed, swapping arr[l] and arr[j] puts the pivot at j, between the two parts |
| QuickSorting.PartitionFirst | src/Algorithms/Divide_and_Conquer/Sorting/Quick_Sort/quick_sort.hpp:11-23 | returns j in [l, h] with arr[j] the old arr[l]; keys before j in the range are at most the pivot's and keys after it above; only [l, h] is rearranged |
| QuickSorting.SweepStep | src/Algorithms/Divide_and_Conquer/Sorting/Quick_Sort/quick_sort.hpp:37-39 | one step of the sweep keeps [l, i] at most the pivot and (i, j) above it |
| QuickSorting.SweepDone | src/Algorithms/Divide_and_Conquer/Sorting/Quick_Sort/quick_sort.hpp:40-41 | after the sweep, swapping arr[h] and arr[i+1] puts the pivot between the two parts |
| QuickSorting.PartitionLast | src/Algorithms/Divide_and_Conquer/Sorting/Quick_Sort/quick_sort.hpp:34-42 | returns p = i+1 in [l, h] with arr[p] the old arr[h] and the same split as partition_first; only [l, h] is rearranged, including when l is 0 and i starts at the wrapped l-1 |
| QuickSorting.QuickStep | src/Algorithms/Divide_and_Conquer/Sorting/Quick_Sort/quick_sort.hpp:26-30 | a partition followed by sorting both sides sorts and rearranges the whole range |
| QuickSorting.SortedAroundPivot | src/Algorithms/Divide_and_Conquer/Sorting/Quick_Sort/quick_sort.hpp:26-30 | an ascending left part, the pivot and an ascending right part make an ascending range |
| QuickSorting.QuickSortFirst | src/Algorithms/Divide_and_Conquer/Sorting/Quick_Sort/quick_sort.hpp:25-32 | returns arr; [l, h] ends ascending and a rearrangement of what it held; nothing outside changes; the guards j > l and j < h keep every recursive range smaller |
| QuickSorting.QuickSortLast | src/Algorithms/Divide_and_Conquer/Sorting/Quick_Sort/quick_sort.hpp:44-51 | the same for quick_sort_last |
| QuickSorting.Example | src/Algorithms/Divide_and_Conquer/Sorting/Quick_Sort/example.cpp:5-18 | {12, -1, 0, 1, 10, -20} on [0, 5] sorts to -20 -1 0 1 10 12 |
| QuickSorting.ExampleLast | src/Algorithms/Divide_and_Conquer/Sorting/Quick_Sort/example.cpp:15 | quick_sort_last, the alternative the example names, gives the same output |
| QuickSorting.ExampleSorted | src/Algorithms/Divide_and_Conquer/Sorting/Quick_Sort/example.cpp:18 | the printed output is the only sorted rearrangement of that input |
| HeapSorting.Wrap | src/Algorithms/Heap/heap.cpp:58-59 | size_t arithmetic modulo 2^64: values in range are kept, and -1 becomes the largest size_t, which fails the `i < size` guard |
| HeapSorting.SubtreeRange | src/Algorithms/Heap/heap.cpp:35-36 | every node below r in the subtree is at index 2r+1 or later |
| HeapSorting.HeapTop | src/Algorithms/Heap/heap.cpp:55-69 | in a max-heap of size n, cell 0 holds a largest key of the first n cells |
| HeapSorting.HeapBelow | src/Algorithms/Heap/heap.cpp:38-44 | when the subtrees of both children of r are max-heaps, each child holds a largest key of its own subtree, so the larger child holds a largest key below r |
| HeapSorting.HeapifySwap | src/Algorithms/Heap/heap.cpp:46-47 | swapping root with its larger child leaves the subtrees below that child max-heaps, bounds the child's subtree by the child's old key, and moves only cells of root's subtree |
| HeapSorting.HeapifyJoin | src/Algorithms/Heap/heap.cpp:46-50 | after the swap, re-heapifying the child's subtree makes the whole subtree of root a max-heap, with cells moved only inside it |
| HeapSorting.Heapify | src/Algorithms/Heap/heap.cpp:32-51 | on any input, only cells of root's subtree move, as a rearrangement, and every upper bound on the subtree's keys still holds; if the subtrees of both children of root were max-heaps (within size), the subtree of root becomes a max-heap, and heap order for all parents after root becomes heap order from root on |
| HeapSorting.SubtreeHeapFrom | src/Algorithms/Heap/heap.cpp:32 | a sift confined to one subtree that makes it a heap leaves every parent outside it in the heap order it had |
| HeapSorting.MinHeapify | src/Algorithms/Heap/heap.cpp:73-91 | the same with `<`: on any input it rearranges only root's subtree; given min-heaps below both children of root, the subtree of root becomes a min-heap, stated as a max-heap under the negated key |
| HeapSorting.SiftedRearranged | src/Algorithms/Heap/heap.cpp:32-51 | what heapify does is a rearrangement of [0, size) |
| HeapSorting.HeapLeaves | src/Algorithms/Heap/heap.cpp:58 | cells from size/2 on have no children, so the build loop may start at size/2 - 1 |
| HeapSorting.BuildHeap | src/Algorithms/Heap/heap.cpp:57-62 | after the first loop of heap_sort, arr[0..size) is a max-heap and a rearrangement of what it held; sizes 0 and 1 run no iteration |
| HeapSorting.ExtractStart | src/Algorithms/Heap/heap.cpp:64-65 | a max-heap of size n meets the extraction invariant with an empty sorted suffix |
| HeapSorting.ExtractStep | src/Algorithms/Heap/heap.cpp:65-68 | one extraction keeps the invariant: arr[i..size) ascending, every key in it at least every key of the heap prefix, and the prefix a heap |
| HeapSorting.ExtractRound | src/Algorithms/Heap/heap.cpp:65-68 | one extraction, swap then heapify on the smaller heap, keeps the invariant and the rearrangement of [0, size) |
| HeapSorting.HeapSort | src/Algorithms/Heap/heap.cpp:55-69 | arr[0..size) ends ascending and a rearrangement of what it held; cells at or beyond size are untouched |
| HeapSorting.BuildMinHeap | src/Algorithms/Heap/heap.cpp:96-99 | the first loop of min_heap_sort builds a min-heap and only rearranges [0, size) |
| HeapSorting.MinHeapSort | src/Algorithms/Heap/heap.cpp:95-106 | arr[0..size) ends descending and a rearrangement of what it held; cells beyond size are untouched |
| HeapSorting.SortedNeg | src/Algorithms/Heap/heap.cpp:95-106 | ascending under the negated key is exactly descending under the key |
| HeapSorting.SortedIsExpected | src/Algorithms/Heap/examples/demo.cpp:56-59 | the sorted rearrangement of an integer input is the unique ascending sequence with its values |
| HeapSorting.Example | src/Algorithms/Heap/examples/demo.cpp:46-59 | {64, 34, 25, 12, 22, 11, 90, 8, 42, 17} sorts to 8 11 12 17 22 25 34 42 64 90 |
| HeapSorting.ExampleMin | src/Algorithms/Heap/examples/demo.cpp:46-64 | min_heap_sort on a copy of the same ten values leaves 90 64 42 34 25 22 17 12 11 8 |
| HeapSorting.MinExampleSorted | src/Algorithms/Heap/examples/demo.cpp:61-64 | the printed descending output is the only descending rearrangement of that input |
| HeapSorting.ExampleAlreadySorted | src/Algorithms/Heap/examples/demo.cpp:180-187 | an already sorted input 1..10 stays as it is |
| HeapSorting.ExampleReversed | src/Algorithms/Heap/examples/demo.cpp:189-196 | the reversed input 10..1 ends as 1..10 |
| HeapSorting.ExampleDuplicates | src/Algorithms/Heap/examples/demo.cpp:198-204 | {5, 2, 5, 1, 2, 5, 1, 2, 5, 1} ends as 1 1 1 2 2 2 5 5 5 5 |
| HeapSorting.ExamplePartial | src/Algorithms/Heap/examples/demo.cpp:228-237 | heap_sort(arr, 5) sorts the first five cells to 12 22 25 34 64 and leaves 11 90 8 42 17 after them |
| HeapSorting.SortedPrefixIsExpected | src/Algorithms/Heap/examples/demo.cpp:234-237 | sorting only the first n cells puts their ascending sequence in front of the untouched rest |
| FixedArrays.Message | src/DS/array/array2.cpp:15-52 | the what() text of each std::out_of_range the container throws: "Error: Size is exceeded!" exactly for SizeExceeded and "Error: Index is out of range!" exactly for IndexOutOfRange, both starting with "Error: " |
| FixedArrays.Overwritten | src/DS/array/array2.cpp:23-30 | writing a list from index 0 sets cell k to list[k] for k below the list's length and keeps every later cell |
| FixedArrays.Reversed | src/DS/array/array2.cpp:70-76 | the reversed sequence has cell k equal to cell n-1-k of the original |
| FixedArrays.ReversedTwice | src/DS/array/array2.cpp:62-76 | reversing twice gives the cells back, so reverse iteration is forward iteration read backwards |
| FixedArrays.FixedArray.constructor | src/DS/array/array2.cpp:13 | a container of exactly S cells whose values are unspecified |
| FixedArrays.FixedArray.FromList | src/DS/array/array2.cpp:14-21 | throws SizeExceeded, building nothing, exactly when the list is longer than S, with the what() text "Error: Size is exceeded!"; otherwise a new container of S cells whose first cells are the list |
| FixedArrays.FixedArray.AssignList | src/DS/array/array2.cpp:23-30 | throws SizeExceeded ("Error: Size is exceeded!") and changes nothing exactly when the list is longer than S; otherwise the cells become the list written over the old cells |
| FixedArrays.FixedArray.CopyAssign | src/DS/array/array2.cpp:32-38 | the cells become the other container's cells and the other container is unchanged, also when it is this one |
| FixedArrays.FixedArray.Get | src/DS/array/array2.cpp:44-45 | operator[] yields cell index, which must exist |
| FixedArrays.FixedArray.Set | src/DS/array/array2.cpp:44 | writing through operator[] changes cell index only |
| FixedArrays.FixedArray.At | src/DS/array/array2.cpp:47-54 | throws IndexOutOfRange ("Error: Index is out of range!") exactly when index >= S, and otherwise yields the same cell as operator[] |
| FixedArrays.FixedArray.SetAt | src/DS/array/array2.cpp:47-50 | writing through at() throws IndexOutOfRange ("Error: Index is out of range!") and changes nothing when index >= S, and otherwise changes cell index only |
| FixedArrays.FixedArray.Forward | src/DS/array/array2.cpp:62-68 | begin() to end() visits exactly size() cells, cell k at step k |
| FixedArrays.FixedArray.Backward | src/DS/array/array2.cpp:70-76 | rbegin() to rend() visits exactly size() cells, S-1 down to 0 |
| FixedArrays.FixedArray.Front | src/DS/array/array2.cpp:56-57 | front() is the first cell visited forwards and the last visited backwards; it needs S > 0 |
| FixedArrays.FixedArray.Back | src/DS/array/array2.cpp:59-60 | back() is the last cell visited forwards and the first visited backwards; it needs S > 0 |
| FixedArrays.FixedArray.Size | src/DS/array/array2.cpp:82 | size() is the number of cells, whatever was done to the container |
| FixedArrays.FixedArray.MaxSize | src/DS/array/array2.cpp:84 | max_size() equals size() |
| FixedArrays.FixedArray.Empty | src/DS/array/array2.cpp:86 | empty() holds exactly when there are no cells |
| FixedArrays.FixedArray.Fill | src/DS/array/array2.cpp:89 | every one of the S cells becomes the value |
| FixedArrays.FixedArray.Swap | src/DS/array/array2.cpp:91 | each container ends with the other's former cells, and swapping with itself changes nothing |
| FixedArrays.Scenarios | src/DS/array/array2.cpp:14-60 | for array<int, 3>: {1, 2} gives cells 0 and 1 the values 1 and 2; {1, 2, 3, 4} throws SizeExceeded; after assigning {1, 2, 3}, back() is 3; at(5) throws IndexOutOfRange |
| Nodes.FromCode | src/DS/node/node.cpp:76-91 | NONODE, NOTANODE and NULLNODE get their fixed messages, and exactly the other codes get "Unknown Error Occurred!" |
| Nodes.Attach | src/DS/node/node.cpp:338-352 | an lvalue argument is installed itself; an rvalue argument is replaced by a fresh node with the same data and children |
| Nodes.Node.Snapshot | src/DS/node/node.hpp:61-63 | the three fields of a node: data, left and right |
| Nodes.Node.constructor | src/DS/node/node.cpp:107-111 | a node with no children |
| Nodes.Node.WithData | src/DS/node/node.cpp:117-122 | a node with the given data and no children |
| Nodes.Node.WithChildren | src/DS/node/node.cpp:130-168 | the four child-only constructors: each child aliases an lvalue argument or is a fresh copy of an rvalue argument |
| Nodes.Node.WithAll | src/DS/node/node.cpp:176-221 | the four data-and-children constructors: the data set, each child installed as for WithChildren |
| Nodes.Node.Copy | src/DS/node/node.cpp:228-233 | a shallow copy: same data and the very same child references |
| Nodes.Node.Move | src/DS/node/node.cpp:240-251 | takes the source's data and children, and the source is reset to T() with no children |
| Nodes.Node.CopyAssign | src/DS/node/node.cpp:274-279 | the node takes the other's data and child references, and the other is unchanged |
| Nodes.Node.MoveAssign | src/DS/node/node.cpp:286-297 | the source ends reset to T() with no children; a distinct target takes the source's former fields |
| Nodes.Node.AssignData | src/DS/node/node.cpp:304-307 | only the data changes; both children stay |
| Nodes.Node.SetData | src/DS/node/node.cpp:328-331 | only the data changes; both children stay |
| Nodes.Node.SetLeft | src/DS/node/node.cpp:338-352 | only the left child changes: it aliases an lvalue argument or is a fresh copy of an rvalue one |
| Nodes.Node.SetRight | src/DS/node/node.cpp:359-373 | only the right child changes, as for SetLeft |
| Nodes.Node.SetNodes | src/DS/node/node.cpp:381-421 | the data stays; the left child is installed first, then the right, so a right argument that is this node is copied with its new left child |
| Nodes.Node.GetData | src/DS/node/node.cpp:429 | the stored data |
| Nodes.Node.GetLeft | src/DS/node/node.cpp:436-453 | throws NodeExcept(NONODE) exactly when there is no left child, and otherwise yields that very child |
| Nodes.Node.GetRight | src/DS/node/node.cpp:460-477 | throws NodeExcept(NONODE) exactly when there is no right child, and otherwise yields that very child |
| Nodes.Node.IsItMe | src/DS/node/node.cpp:316-318 | reference identity, which implies equal data |
| Nodes.Equal | src/DS/node/node.cpp:487-490 | == holds exactly when the data are equal, whatever the children |
| Nodes.NotEqual | src/DS/node/node.cpp:498-501 | != is exactly the negation of == |
| Nodes.OperatorsDemo | src/DS/node/examples/demo.cpp:250-278 | nodes 100, 100 and 200: the two 100s are equal and not unequal, 100 and 200 are unequal; data assignment gives 500, copy assignment from node 200 gives 200 |
| Nodes.ExceptionDemo | src/DS/node/examples/demo.cpp:193-214 | a node built from data alone throws the NONODE message from both getters |
| Nodes.TreeDemo | src/DS/node/examples/demo.cpp:324-355 | the tree built bottom-up from lvalues reads 25, then 15 and 35, then 10, 20, 30 and 40 through the getters |
| Nodes.CopyMoveDemo | src/DS/node/examples/demo.cpp:150-186 | a copy shares the original's children and can change its own data alone; moving it out resets it to "" with no children |

## Left out

- Integer widths in the sorts: indices are unbounded naturals. `(l + h) / 2` in merge_sort and `2 * root + 1` in heapify cannot overflow here. Only the heap loops' count-down below zero is modelled as size_t wrap-around, because those loops depend on it to stop.
- Floating-point and struct element types in the demos: elements are a generic type ordered by an integer key. Floats are not modelled.
- Element types whose order no integer key can express are outside the model. An example is the heap demo's `std::string` array (src/Algorithms/Heap/examples/demo.cpp:105-120): infinitely many strings lie between "a" and "b" in lexicographic order. The `char` example fits an integer key but is not written out.
- `merge_sort`'s variable-length `temp_array` is a fresh Dafny array.
- `partition_first`'s two do-while loops are the helper methods `ScanRight` and `ScanLeft`. `heap_sort`'s first loop is the method `BuildHeap` and `min_heap_sort`'s is `BuildMinHeap`. This splitting only keeps the proofs small; the code they run is unchanged.
- The heap demo's second partial sort, `heap_sort(arr + 5, full_size - 5)`, is not modelled: it needs pointer arithmetic into the middle of an array.
- The heap demo's `std::vector` example and its floating-point and struct examples are not modelled.
- The `heapSort` declared in src/Algorithms/Heap/heap.hpp is never defined, so it is not modelled.
- `FixedArrays.FixedArray.FromList`: states nothing about the cells from the list's length on. The code leaves them default-initialised, which for a scalar `T` means indeterminate; the model states nothing about them.
- `FixedArrays.FixedArray.constructor`: the cells are unspecified for the same reason.
- The storage trick `T elements[S ? S : 1]` in src/DS/array/array2.cpp is not modelled; only the logical size S is. Unchecked access, and `front()`/`back()` on an empty container, are preconditions, not behaviour.
- Raw pointers, `data()`, `std::reverse_iterator` types, the const and `c`-prefixed overloads, `constexpr` and `noexcept` are not modelled. An iteration is the sequence of cells it visits (`Forward`, `Backward`).
- The containers' element storage is never shared between two containers. `CopyAssign` and `Swap` take this as a precondition, and it also covers the self case.
- `Node`'s instance counter `TOTAL` and `total()` are not modelled: they depend on destructor timing.
- `operator<<` of `Node` is stream output and is not modelled.
- `Node`'s assignment operators and setters return `*this` so that calls can be chained, as in src/DS/node/examples/demo.cpp:151-152. The methods return nothing: a chained call is the same as the calls made one after another on the same node.
- The `new` allocations that the rvalue setters never free are not modelled: the model has no lifetimes or ownership.
- T() has no expression for a type parameter in the model. The move operations take it as the argument `blank`.
- A default-constructed node's data, and the data of the child-only constructors, is unspecified, as in the code.
- `NodeExcept`'s constructor from a custom message is the datatype constructor `NodeExcept(message)`.
- The node demo's comment calls the copy constructor a deep copy, but the code copies shallowly. The model follows the code: `Nodes.Node.Copy` shares the child references.
- `Nodes.Node.MoveAssign`: moving a node into itself leaves it reset. The code copies its fields and then clears the source, which is the same node. This is stated as written.
