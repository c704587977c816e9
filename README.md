# Algorithm visualizer core, modelled in Dafny

The visualizer steps through sorting, searching and shortest-path algorithms. Each
algorithm is a generator that yields a finite trace of steps (compare, swap, overwrite,
highlight, sorted, found, visit, relax). A playback controller holds a current index into one
trace. It rebuilds the array at the current index by replaying the trace's swap steps on a copy
of the input.

This project models that core:

- `steps.dfy` (module `Steps`): the step vocabulary of `src/types/types.ts`. It also holds
  the two replays: the controller's swap replay, and an overwrite replay for merge sort.
- One module per generator, each with three parts:
  - a specification function shaped like the generator's own loops and recursion;
  - an imperative method proved to yield exactly that trace. The sorting methods work on a
    private `array` copy, as the source does. `Linear.LinearSearch`, `Binary.BinarySearch` and
    `ShortestPath.Dijkstra` read their input directly, as the source does;
  - a `…Facts` module with what the trace promises.

  The generators are `Bubble` (`bubble_sort.dfy`), `Merge`/`MergeFacts`/`MergeSorter`
  (`merge_sort.dfy`), `Quick`, `Heap`, `Linear`, `Binary` and `ShortestPath`
  (`dijkstra.dfy`). `ShortestPathExample` (`dijkstra_example.dfy`) runs the test suite's
  four-node graph round by round.
- `algorithm_controller.dfy` (module `Controller`): `class AlgorithmController` with the
  source's fields and methods. The source's interval callback becomes an explicit `Tick`
  method. A ghost field `emitted` logs every state handed to the listener.
  `ControllerFacts` proves what the reported states promise.

The main results:

- Replaying a sorting trace's mutations on the input gives its ascending permutation:
  `BubbleSortSorts`, `MergeSortSorts`, `QuickSortSorts` and `HeapSortSorts`.
- The sorting and search traces name only valid indices (heap sort on the empty array
  excepted, see below), and the sorting traces mark each position sorted as the source
  does.
- The search traces end in found exactly when the target occurs. For binary search this
  needs ascending input, and its trace has logarithmic length.
- Dijkstra visits each node at most once and never the end node. Each visit is a closest
  unvisited node; among equally close ones it is the earliest in `nodes` order.
  Relaxations only lower distances.
- The controller keeps its current index in [-1, |steps| - 1] and has a timer exactly while it
  plays. Its reported array is always a permutation of the input: the input itself at
  -1, and sorted once finished.

Behaviour of the code worth knowing:

- Dijkstra's visit steps carry no path, and no `path` step is ever emitted. When the
  closest unvisited node is the end node, the loop breaks *before* visiting it. The final
  `sorted` step over all node ids is always emitted.
- The controller has no `setAlgorithm` and always generates the bubble sort trace, even
  though `src/pages/VisualizerPage.tsx` calls `setAlgorithm`.
- Heap sort on the empty array emits `sorted [0]`, an index the array does not have
  (`HeapFacts.HeapSortShape` states this).
- Dijkstra's first step is `highlight [startNodeId]` whether or not the start node is a
  node of the graph (`ShortestPathFacts.DijkstraEnds` states it with no condition on the
  start node), so that step can name an id `nodes` lacks.

## Model

| member | source | states |
|---|---|---|
| Steps.Range | src/core/algorithms/quickSort.ts:106 | `Array.from({length}, (_, k) => k + lo)`: the ascending run lo, ..., hi-1, of length hi - lo (empty when hi <= lo) |
| Steps.MarkEach | src/core/algorithms/mergeSort.ts:13-20 | one `sorted [k]` step for each k in lo..hi-1, in that order, and nothing else |
| Steps.SwapAt | src/core/AlgorithmController.ts:93-94 | the destructuring swap exchanges positions i and j and leaves every other position alone |
| Steps.SwapAtPermutes | src/core/AlgorithmController.ts:94 | a swap permutes the array |
| Steps.ReplaySwapsPermutes | src/core/AlgorithmController.ts:89-96 | replaying the swap steps of any trace yields a permutation of the initial array |
| Steps.ReplaySwapsAppend | src/core/AlgorithmController.ts:90-96 | replaying xs + ys is replaying xs, then ys on the result |
| Steps.ReplaySwapsNext | src/core/AlgorithmController.ts:90-96 | replaying up to step k+1 is replaying up to k and then applying step k alone |
| Steps.ReplaySwapsNoSwap | src/core/AlgorithmController.ts:92 | steps that are not swaps leave the replayed array unchanged |
| Steps.ReplayOverwritesFilter | src/core/algorithms/mergeSort.ts:53-58 | only the overwrite steps of a trace matter to the overwrite replay |
| Steps.ReplaysIgnore | src/types/types.ts:1-10 | a trace with no swap and no overwrite changes nothing under either replay |
| Steps.Half | src/core/algorithms/heapSort.ts:77 | `Math.floor(n / 2)` of a natural n: the one h with 2h <= n < 2h + 2 |
| Steps.MidIsFloor | src/core/algorithms/mergeSort.ts:26 | the midpoint equals `Math.floor((lo + hi) / 2)`, lies in [lo, hi], and is below hi when lo < hi |
| Steps.OfKindAppend | src/types/types.ts:1 | selecting the steps of one kind distributes over concatenation |
| Steps.MarksOfMarkEach | src/core/algorithms/mergeSort.ts:13-20 | the indices marked by the run of `sorted` steps lo..hi-1 are exactly lo, ..., hi-1 |
| Steps.MarksAtEnd | src/core/algorithms/mergeSort.ts:9-20 | a body with no `sorted` step followed by the marks 0..n-1 ends with exactly those marks and has no other |
| Bubble.PassRun | src/core/algorithms/bubbleSort.ts:10-30 | the inner loop of a pass keeps the array length |
| Bubble.BubblePass | src/core/algorithms/bubbleSort.ts:9-30 | the imperative inner loop on the private array leaves the array, the swapped flag and the steps that the pass specification gives for the old array |
| Bubble.BubbleSort | src/core/algorithms/bubbleSort.ts:3-62 | the generator on a private copy, with the early exit, yields exactly the bubble sort trace of its input |
| BubbleFacts.PassReplay | src/core/algorithms/bubbleSort.ts:19-29 | replaying a pass's own swap steps on the array it started from gives the array it leaves |
| BubbleFacts.BubbleReplay | src/core/algorithms/bubbleSort.ts:8-52 | replaying the steps of the remaining passes gives the array they leave |
| BubbleFacts.PassBubblesMax | src/core/algorithms/bubbleSort.ts:10-30 | pass i carries the largest of the first n-i elements to position n-i-1, keeping the sorted tail |
| BubbleFacts.PassNoSwap | src/core/algorithms/bubbleSort.ts:39-51 | a pass that swaps nothing leaves the array alone and found every adjacent pair it compared in order |
| BubbleFacts.BubbleRunSorts | src/core/algorithms/bubbleSort.ts:8-52 | with the tail already sorted, the remaining passes leave the whole array ascending |
| BubbleFacts.BubbleSortSorts | src/core/algorithms/bubbleSort.ts:3-62 | replaying the trace's swaps on the input sorts it ascending and permutes it |
| BubbleFacts.PassShape | src/core/algorithms/bubbleSort.ts:10-30 | every step of a pass compares or swaps an adjacent pair [q, q+1] inside the unsorted prefix, each swap right after the compare of its pair |
| BubbleFacts.PassSwapIffInverted | src/core/algorithms/bubbleSort.ts:19-29 | a compare of [q, q+1] is followed by the swap of that pair if and only if the left value is strictly greater on the array as the earlier steps leave it |
| BubbleFacts.PassCompares | src/core/algorithms/bubbleSort.ts:10-17 | pass i emits exactly n - i - 1 compares |
| BubbleFacts.PassAscending | src/core/algorithms/bubbleSort.ts:19 | on ascending input a pass swaps nothing and changes nothing |
| BubbleFacts.SortedInputNoSwaps | src/core/algorithms/bubbleSort.ts:39-51 | an already ascending input of length n >= 2 gets no swap and exactly n - 1 compares (the early exit after one pass) |
| BubbleFacts.BubbleEnds | src/core/algorithms/bubbleSort.ts:8-61 | inputs of length at most 1 yield no step; longer ones end with a `sorted` step |
| BubbleFacts.BubbleShape | src/core/algorithms/bubbleSort.ts:12-37 | every index the trace names is a position of the array, and every compare or swap names a pair [q, q+1] |
| BubbleFacts.BubbleMarksEach | src/core/algorithms/bubbleSort.ts:32-61 | for n >= 2 every position is marked `sorted` exactly once |
| Merge.MergeRun | src/core/algorithms/mergeSort.ts:39-102 | the three loops of `merge` write exactly as many values as the two halves have left |
| Merge.HelperCalls | src/core/algorithms/mergeSort.ts:23-31 | every `merge` call made by `mergeSortHelper(left, right)` has left <= mid < right inside [left, right] |
| MergeFacts.MergeRunPermutes | src/core/algorithms/mergeSort.ts:39-102 | the values a merge writes are those of the two halves from the cursors on |
| MergeFacts.MergeRunSorted | src/core/algorithms/mergeSort.ts:52-74 | merging two ascending halves writes an ascending sequence |
| MergeFacts.MergeRunWrites | src/core/algorithms/mergeSort.ts:53-101 | the overwrite steps of a merge store the merged values at k, k+1, ... in order, one per written position |
| MergeFacts.MergeRunShape | src/core/algorithms/mergeSort.ts:45-74 | each compare names [left+i, mid+1+j] with both cursors inside their halves, is followed by the overwrite of k = left+i+j with the smaller value (the left one on a tie), and the next compare has moved on the cursor that was written |
| MergeFacts.ReplayWritesSplice | src/core/algorithms/mergeSort.ts:53-101 | replaying the overwrite steps of a merge performs exactly its stores |
| MergeFacts.MergeAtReplay | src/core/algorithms/mergeSort.ts:33-103 | replaying the overwrites of `merge(left, mid, right)` on the array it started from gives the array it leaves |
| MergeFacts.MergeAtWrites | src/core/algorithms/mergeSort.ts:33-103 | each merge emits exactly right - left + 1 overwrites, at left, left+1, ..., right in that order |
| MergeFacts.MergeAtSorts | src/core/algorithms/mergeSort.ts:33-103 | merging the ascending runs [left, mid] and [mid+1, right] sorts [left, right], keeps the rest of the array and permutes it |
| MergeFacts.MergeAtShape | src/core/algorithms/mergeSort.ts:45-74 | every step of a merge is a compare of the two halves followed by the overwrite it decides, ties going left, or an overwrite in [left, right] |
| MergeFacts.HelperSplit | src/core/algorithms/mergeSort.ts:24-30 | `mergeSortHelper` on [left, right] with left < right makes the calls of [left, mid], then those of [mid+1, right], then merges the two |
| MergeFacts.RunMergesReplay | src/core/algorithms/mergeSort.ts:28-30 | replaying the overwrites of any run of merges on its input gives the array it leaves |
| MergeFacts.HelperSortsRange | src/core/algorithms/mergeSort.ts:23-31 | `mergeSortHelper(arr, left, right)` sorts [left, right] of arr, permutes it and leaves the rest alone |
| MergeFacts.MergeSortSorts | src/core/algorithms/mergeSort.ts:3-21 | replaying every overwrite of the trace on the input gives its ascending permutation |
| MergeFacts.RunMergesWithin | src/core/algorithms/mergeSort.ts:23-31 | every step of the merges of [lo, hi] names indices within [lo, hi] |
| MergeFacts.MergeSortShape | src/core/algorithms/mergeSort.ts:3-21 | the trace names only indices in [0, n), contains no swap, and ends with `sorted [0]`, ..., `sorted [n-1]`, its only sorted steps |
| MergeSorter.MergeHalves | src/core/algorithms/mergeSort.ts:33-103 | the imperative merge on the private array leaves the array and the steps that the merge specification gives for the old array |
| MergeSorter.MergeSortHelper | src/core/algorithms/mergeSort.ts:23-31 | the recursive helper on the private array does what the run of its merge calls does |
| MergeSorter.MergeSort | src/core/algorithms/mergeSort.ts:3-21 | the generator yields exactly the merge sort trace of its input |
| Quick.PartitionFrom | src/core/algorithms/quickSort.ts:20-60 | the loop of `partition` and the pivot swap keep the array length and return an index in [low, high] |
| Quick.PartitionAt | src/core/algorithms/quickSort.ts:3-61 | `partition` returns an index in [low, high] |
| Quick.QuickRange | src/core/algorithms/quickSort.ts:63-93 | `quickSortRecursive` keeps the array length |
| Quick.Partition | src/core/algorithms/quickSort.ts:3-61 | the imperative partition on the private array leaves the array, the steps and the pivot index that the partition specification gives for the old array |
| Quick.QuickSortRecursive | src/core/algorithms/quickSort.ts:63-93 | the imperative recursion on the private array leaves the array and the steps its specification gives for the old array |
| Quick.QuickSort | src/core/algorithms/quickSort.ts:95-110 | the generator yields exactly the quick sort trace of its input |
| QuickFacts.ScanTakes | src/core/algorithms/quickSort.ts:29-38 | an element below the pivot joins the low block by the swap with position i + 1, keeping the loop invariant |
| QuickFacts.ScanEnds | src/core/algorithms/quickSort.ts:43-50 | the pivot swap after the loop leaves [low, high] partitioned at i + 1, changes nothing outside it and permutes the array |
| QuickFacts.PartitionSplits | src/core/algorithms/quickSort.ts:3-61 | `partition` returns p with the pivot at p, every element of [low, p) below it and every element of (p, high] at least as large; it changes only [low, high] and permutes the array |
| QuickFacts.QuickSortsRange | src/core/algorithms/quickSort.ts:63-93 | `quickSortRecursive(arr, low, high)` sorts [low, high], keeps every other position and permutes the array |
| QuickFacts.PartitionReplay | src/core/algorithms/quickSort.ts:29-50 | replaying the swap steps of `partition` on the array it started from gives the array it leaves |
| QuickFacts.QuickReplay | src/core/algorithms/quickSort.ts:63-93 | every change to the private copy is announced by a swap step: replaying them reproduces the array the recursion leaves |
| QuickFacts.PartitionMarks | src/core/algorithms/quickSort.ts:53-60 | the only `sorted` step of `partition` marks the index it returns |
| QuickFacts.QuickMarks | src/core/algorithms/quickSort.ts:63-93 | every index of [low, high] is marked sorted exactly once, and no index outside it |
| QuickFacts.PartitionBetween | src/core/algorithms/quickSort.ts:3-61 | every step of `partition(arr, low, high)` names indices in [low, high] |
| QuickFacts.QuickBetween | src/core/algorithms/quickSort.ts:63-93 | every step of `quickSortRecursive(arr, low, high)` names indices in [low, high] |
| QuickFacts.PartitionShape | src/core/algorithms/quickSort.ts:3-61 | `partition` emits highlight [high], then exactly the compares [low, high], ..., [high-1, high] in order and one swap per element of arr[low..high) below the pivot, then swap [p, high] and `sorted [p]` |
| QuickFacts.QuickSortSorts | src/core/algorithms/quickSort.ts:95-110 | replaying the swap steps of the trace on the input gives its ascending permutation |
| QuickFacts.QuickSortShape | src/core/algorithms/quickSort.ts:95-110 | the trace names only indices in [0, n); before its last step it marks every index sorted exactly once; its last step is `sorted` over 0, ..., n-1 tagged "Array is fully sorted" |
| Heap.AfterLeft | src/core/algorithms/heapSort.ts:25-35 | after the left child is considered, `largest` is i or the left child, which lies below n |
| Heap.Largest | src/core/algorithms/heapSort.ts:8-48 | after both children are considered, `largest` is i or a child below n |
| Heap.HeapifyRun | src/core/algorithms/heapSort.ts:3-63 | `heapify` keeps the array length |
| Heap.BuildFrom | src/core/algorithms/heapSort.ts:77-79 | the build loop keeps the array length |
| Heap.ExtractFrom | src/core/algorithms/heapSort.ts:82-101 | the extraction loop keeps the array length |
| Heap.Countdown | src/core/algorithms/heapSort.ts:82-97 | the indices the extraction loop marks: i, i-1, ..., 1 |
| Heap.Heapify | src/core/algorithms/heapSort.ts:3-63 | the imperative sift-down on the private array leaves the array and the steps that the heapify specification gives for the old array |
| Heap.HeapSort | src/core/algorithms/heapSort.ts:65-116 | the generator yields exactly the heap sort trace of its input |
| HeapFacts.LargestPicks | src/core/algorithms/heapSort.ts:25-48 | `largest` holds the largest of a[i] and its children below n, and differs from i exactly when some child below n is strictly greater than a[i] |
| HeapFacts.HeapifyKeeps | src/core/algorithms/heapSort.ts:50-62 | `heapify(arr, n, i)` moves elements only within [i, n) and permutes the array |
| HeapFacts.HeapifyReplay | src/core/algorithms/heapSort.ts:50-62 | replaying the swap steps of `heapify` reproduces the array it leaves |
| HeapFacts.HeapifyShape | src/core/algorithms/heapSort.ts:12-62 | `heapify(arr, n, i)` names only indices in [i, n) and emits no `sorted` step |
| HeapFacts.HeapifyDecides | src/core/algorithms/heapSort.ts:17-58 | after the highlight and the compares, `heapify` emits swap [i, largest] if and only if a child below n is strictly greater than a[i] |
| HeapFacts.SiftHeaps | src/core/algorithms/heapSort.ts:50-62 | sifting down from x restores max-heap order |
| HeapFacts.HeapifyHeaps | src/core/algorithms/heapSort.ts:3-63 | `heapify` at i over a heap below i makes a heap from i on |
| HeapFacts.BuildKeeps | src/core/algorithms/heapSort.ts:77-79 | the build loop permutes the array and moves nothing at or beyond n |
| HeapFacts.BuildHeaps | src/core/algorithms/heapSort.ts:77-79 | heapifying i, i-1, ..., 0 over a heap below i + 1 leaves a max-heap on [0, n) |
| HeapFacts.BuiltHeap | src/core/algorithms/heapSort.ts:76-79 | the build loop, from floor(n/2) - 1 down, turns the array into a max-heap of its own elements |
| HeapFacts.BuildReplay | src/core/algorithms/heapSort.ts:77-79 | replaying the build loop's swap steps reproduces the array it leaves |
| HeapFacts.BuildShape | src/core/algorithms/heapSort.ts:77-79 | the build loop names only indices in [0, n) and marks nothing sorted |
| HeapFacts.RootIsMax | src/core/algorithms/heapSort.ts:83-84 | in a max-heap the root is the largest element |
| HeapFacts.RootMoved | src/core/algorithms/heapSort.ts:83-90 | swapping the root to position i puts the heap's maximum at the head of the sorted run |
| HeapFacts.ExtractKeeps | src/core/algorithms/heapSort.ts:82-101 | one round of the extraction loop keeps its invariant (heap on [0, i), ascending maxima after it) and permutes the array |
| HeapFacts.ExtractSorts | src/core/algorithms/heapSort.ts:82-101 | the extraction loop leaves the array ascending and a permutation of what it was given |
| HeapFacts.ExtractReplay | src/core/algorithms/heapSort.ts:82-101 | replaying the extraction loop's swap steps reproduces the array it leaves |
| HeapFacts.ExtractShape | src/core/algorithms/heapSort.ts:82-101 | the extraction loop from i names only indices in [0, i] and marks i, i-1, ..., 1 sorted in that order |
| HeapFacts.HeapSortReplay | src/core/algorithms/heapSort.ts:65-116 | replaying the swap steps of the whole trace yields the array the extraction loop leaves |
| HeapFacts.HeapSortSorts | src/core/algorithms/heapSort.ts:65-116 | replaying the swap steps of the trace on the input yields its ascending permutation |
| HeapFacts.HeapSortShape | src/core/algorithms/heapSort.ts:65-116 | the trace marks n-1, ..., 1, then 0, and ends with `sorted` over every index tagged "Array is fully sorted"; it names only valid indices when n > 0, and for n = 0 its `sorted [0]` names an index the array lacks |
| Linear.LinearSearch | src/core/algorithms/linearSearch.ts:3-30 | the `for` loop with its early return yields exactly the linear search trace |
| LinearFacts.Checks | src/core/algorithms/linearSearch.ts:4-11 | the run of compare [lo], ..., compare [hi-1] |
| LinearFacts.FromFinds | src/core/algorithms/linearSearch.ts:4-21 | from i, when j is the first index holding the target, the loop yields compares i..j and then found [j] |
| LinearFacts.FromMisses | src/core/algorithms/linearSearch.ts:4-29 | from i, when no later index holds the target, the loop yields compares i..n-1 and the "not found" highlight |
| LinearFacts.LinearSearchFinds | src/core/algorithms/linearSearch.ts:13-20 | when i is the first index holding the target, the trace is compare [0], ..., compare [i], found [i]: i + 2 steps |
| LinearFacts.LinearSearchMisses | src/core/algorithms/linearSearch.ts:24-29 | when the target is absent, the trace is one compare per index in order and the "not found" highlight with no indices: n + 1 steps, no found |
| LinearFacts.FirstAt | src/core/algorithms/linearSearch.ts:4-13 | the first index holding the target, or n when there is none |
| LinearFacts.LinearSearchOutcome | src/core/algorithms/linearSearch.ts:3-30 | the trace holds a found step if and only if the target occurs; that step is the last and names the first index holding the target |
| LinearFacts.LinearSearchQuiet | src/core/algorithms/linearSearch.ts:3-30 | the trace has no swap or overwrite step, so replaying it changes nothing |
| Binary.BinaryFrom | src/core/algorithms/binarySearch.ts:7-63 | the loop from [low, high] on yields at least one step |
| Binary.BinaryStep | src/core/algorithms/binarySearch.ts:8-55 | one iteration on a non-empty range yields at least three steps |
| Binary.BinarySearch | src/core/algorithms/binarySearch.ts:3-64 | the `while` loop with its early return yields exactly the binary search trace |
| BinaryFacts.NextRange | src/core/algorithms/binarySearch.ts:8-55 | after a miss the range becomes [mid+1, high] when array[mid] < target and [low, mid-1] otherwise, and holds at most half the elements |
| BinaryFacts.FromBetween | src/core/algorithms/binarySearch.ts:7-56 | every index the search of [low, high] names lies in [low, high] |
| BinaryFacts.BinarySearchBounds | src/core/algorithms/binarySearch.ts:3-64 | every index the trace names is an index of the array |
| BinaryFacts.FromFoundLast | src/core/algorithms/binarySearch.ts:29-36 | a found step names an index holding the target and is the last step |
| BinaryFacts.FromEnds | src/core/algorithms/binarySearch.ts:29-63 | the search of a range ends in found or in the "not found" highlight |
| BinaryFacts.BinarySearchEnds | src/core/algorithms/binarySearch.ts:3-64 | the trace ends in found [m] with array[m] equal to the target or in the "not found" highlight; found occurs at most once; the empty array gives just the "not found" highlight |
| BinaryFacts.FromFinds | src/core/algorithms/binarySearch.ts:7-56 | on ascending input, a target present in [low, high] is found |
| BinaryFacts.BinarySearchDecides | src/core/algorithms/binarySearch.ts:3-64 | on ascending input the trace ends in found if and only if the target occurs, and in the "not found" highlight if and only if it does not |
| BinaryFacts.FromCompares | src/core/algorithms/binarySearch.ts:7-27 | each iteration of the loop highlights exactly low, ..., high and then compares floor((low + high) / 2) |
| BinaryFacts.BinarySearchIterations | src/core/algorithms/binarySearch.ts:8-27 | every range highlight of the trace is followed by the compare of the range's middle index, which lies in the range |
| BinaryFacts.Bits | src/core/algorithms/binarySearch.ts:7 | floor(log2 m) + 1, positive for m >= 1: how often m elements can be halved |
| BinaryFacts.FromLength | src/core/algorithms/binarySearch.ts:7-56 | a range of m elements yields at most 3 * Bits(m) + 1 steps |
| BinaryFacts.BinarySearchLength | src/core/algorithms/binarySearch.ts:3-64 | the trace has at most 3 * Bits(n) + 1 steps: logarithmically many iterations |
| BinaryFacts.FromQuiet | src/core/algorithms/binarySearch.ts:7-63 | the loop emits no swap or overwrite step |
| BinaryFacts.BinarySearchQuiet | src/core/algorithms/binarySearch.ts:3-64 | the trace has no swap or overwrite step, so replaying it changes nothing |
| ShortestPath.Ids | src/core/algorithms/dijkstra.ts:83 | `nodes.map(n => n.id)`: one id per node, in order |
| ShortestPath.AddNew | src/core/algorithms/dijkstra.ts:13 | `Set.add`: the members afterwards are the old ones plus the id |
| ShortestPath.Remove | src/core/algorithms/dijkstra.ts:39 | `Set.delete`: the members afterwards are the old ones except the id, and the Set shrinks when the id was a member |
| ShortestPath.MinFrom | src/core/algorithms/dijkstra.ts:28-33 | the min-scan from position k on settles, if on anything, on a member of the Set |
| ShortestPath.Neighbors | src/core/algorithms/dijkstra.ts:48 | the filter keeps at most the edges it was given |
| ShortestPath.RelaxFrom | src/core/algorithms/dijkstra.ts:50-74 | the neighbour loop leaves the unvisited Set unchanged |
| ShortestPath.FindMin | src/core/algorithms/dijkstra.ts:25-33 | the imperative min-scan returns the node and distance the min-scan specification picks |
| ShortestPath.RelaxAll | src/core/algorithms/dijkstra.ts:48-74 | the imperative neighbour loop leaves the distances, predecessors and steps the specification gives, and loses no entry |
| ShortestPath.Dijkstra | src/core/algorithms/dijkstra.ts:3-86 | the generator, over its mutable records and Set, yields exactly the Dijkstra trace |
| ShortestPathFacts.InitFacts | src/core/algorithms/dijkstra.ts:10-14 | after the initialising loop every node id, and nothing else, has an entry at Infinity with no predecessor, and the Set holds every id exactly once |
| ShortestPathFacts.StartFacts | src/core/algorithms/dijkstra.ts:10-15 | the main loop starts with the start node at 0, every other id at Infinity, no predecessors, and every node id unvisited exactly once |
| ShortestPathFacts.MinFromPicks | src/core/algorithms/dijkstra.ts:28-33 | the scan from k on ends with the first of the closest nodes found so far |
| ShortestPathFacts.MinScanPicks | src/core/algorithms/dijkstra.ts:25-36 | the min-scan returns no node if and only if no distance, if and only if every unvisited node is at Infinity; otherwise the first of the closest unvisited nodes with its distance (strict `<`, so ties go to the earliest) |
| ShortestPathFacts.NeighborsExact | src/core/algorithms/dijkstra.ts:48-51 | the neighbours of u are exactly the edges with u as source or target, with their multiplicity, and u and the neighbour are the two ends of the edge |
| ShortestPathFacts.ConsiderRelaxes | src/core/algorithms/dijkstra.ts:50-73 | a settled neighbour is skipped silently; otherwise compare [u, v] is emitted, then relax [v] with value du + w exactly when du + w is strictly below v's distance, in which case v's distance becomes du + w and its predecessor u |
| ShortestPathFacts.RelaxFromLowers | src/core/algorithms/dijkstra.ts:50-74 | along the neighbour loop no distance grows, only unvisited nodes change, and every node whose distance changed has u as predecessor |
| ShortestPathFacts.RelaxAllLowers | src/core/algorithms/dijkstra.ts:39-74 | the neighbour loop of an iteration visiting u lowers distances only, only of unvisited nodes, leaves settled nodes alone and makes u the predecessor of every node it changed |
| ShortestPathFacts.RelaxFromSteps | src/core/algorithms/dijkstra.ts:54-72 | every step of the neighbour loop is a compare [u, v] or a relax [v] of a still unvisited v |
| ShortestPathFacts.LoopFresh | src/core/algorithms/dijkstra.ts:23-75 | read front to back, the main loop visits only node ids not visited before, and compares and relaxes only unvisited neighbours of the node being visited |
| ShortestPathFacts.DijkstraFresh | src/core/algorithms/dijkstra.ts:3-86 | the whole trace keeps to that discipline, starting with nothing visited |
| ShortestPathFacts.FreshVisits | src/core/algorithms/dijkstra.ts:39-45 | under that discipline the visit steps name distinct node ids not seen before |
| ShortestPathFacts.DijkstraVisitsOnce | src/core/algorithms/dijkstra.ts:23-45 | every visit step names one node id, and no node is visited twice |
| ShortestPathFacts.DijkstraQuiet | src/core/algorithms/dijkstra.ts:3-86 | the trace has no swap or overwrite step, so replaying it changes nothing |
| ShortestPathFacts.DijkstraEnds | src/core/algorithms/dijkstra.ts:17-85 | the first step highlights the start node and the last marks every node id sorted, in `nodes` order |
| ShortestPathFacts.InitOrder | src/core/algorithms/dijkstra.ts:10-14 | the initialising loop leaves the Set holding exactly the node ids, in the order of their first occurrence in `nodes` |
| ShortestPathFacts.StartOrder | src/core/algorithms/dijkstra.ts:10-15 | the main loop starts with the Set in `nodes` order |
| ShortestPathFacts.RemoveOrder | src/core/algorithms/dijkstra.ts:39 | `Set.delete` keeps the remaining ids in `nodes` order |
| ShortestPathFacts.IterateOrder | src/core/algorithms/dijkstra.ts:39-74 | an iteration keeps the Set in `nodes` order: it deletes the visited node and the neighbour loop leaves the Set alone |
| ShortestPathFacts.EarliestTie | src/core/algorithms/dijkstra.ts:28-33 | with the Set in `nodes` order, the first of the closest nodes in Set order comes no later in `nodes` than any node at the same distance |
| ShortestPathFacts.LoopVisitsClosest | src/core/algorithms/dijkstra.ts:23-45 | the loop emits nothing more exactly when every unvisited node is at Infinity or the closest is the end node; otherwise it next visits the first of the closest unvisited nodes, which, with the Set in `nodes` order (kept from the start by StartOrder and IterateOrder), comes no later in `nodes` than any unvisited node at the same distance |
| ShortestPathFacts.VisitsOfIterate | src/core/algorithms/dijkstra.ts:41-74 | the visits of an iteration are u followed by those of the rest of the loop |
| ShortestPathFacts.LoopAvoidsEnd | src/core/algorithms/dijkstra.ts:37 | the main loop never visits the end node |
| ShortestPathFacts.TraceVisits | src/core/algorithms/dijkstra.ts:17-85 | the visit steps of the trace are those of the main loop |
| ShortestPathFacts.DijkstraAvoidsEnd | src/core/algorithms/dijkstra.ts:37 | with an end node the loop stops before visiting it: no visit step names it |
| ShortestPathExample.StartOfTest | src/core/algorithms/dijkstra.test.ts:6-20 | on the test graph the loop starts with distances 0, Infinity, Infinity, Infinity and the Set [0, 1, 2, 3] |
| ShortestPathExample.FirstRelax | src/core/algorithms/dijkstra.test.ts:38-40 | the neighbour loop of node 0 relaxes node 1 to 4 and node 2 to 1 |
| ShortestPathExample.FirstRound | src/core/algorithms/dijkstra.test.ts:38 | the min-scan picks node 0 at distance 0; unless 0 is the end node, node 0 is visited first and the visits go on from the state its neighbour loop leaves |
| ShortestPathExample.SecondRelax | src/core/algorithms/dijkstra.test.ts:39-41 | the neighbour loop of node 2 relaxes node 1 to 3 and node 3 to 6 |
| ShortestPathExample.SecondRound | src/core/algorithms/dijkstra.test.ts:39 | the min-scan picks node 2 at distance 1; unless 2 is the end node, node 2 is visited next |
| ShortestPathExample.ThirdRelax | src/core/algorithms/dijkstra.test.ts:41 | the neighbour loop of node 1 relaxes node 3 to 4 |
| ShortestPathExample.ThirdRound | src/core/algorithms/dijkstra.test.ts:40 | the min-scan picks node 1 at distance 3; unless 1 is the end node, node 1 is visited next |
| ShortestPathExample.LastRelax | src/core/algorithms/dijkstra.test.ts:41 | the neighbour loop of node 3 changes nothing: every neighbour is settled |
| ShortestPathExample.LastRound | src/core/algorithms/dijkstra.test.ts:41-43 | the min-scan picks node 3 at distance 4; node 3 is visited last and the loop ends |
| ShortestPathExample.TestGraphVisitOrder | src/core/algorithms/dijkstra.test.ts:22-47 | from node 0 with no end node the visits are 0, 2, 1, 3, picked by the min-scan at distances 0, 1, 3, 4 |
| ShortestPathExample.TestGraphStopsAtEnd | src/core/algorithms/dijkstra.test.ts:50-88 | with end node 2 only node 0 is visited: the loop stops when 2 would come next |
| Controller.Snapshot | src/core/AlgorithmController.ts:84-106 | the reported state keeps the array length, carries the whole trace as history and the current index as currentStepIndex |
| Controller.AlgorithmController.constructor | src/core/AlgorithmController.ts:13-18 | a new controller holds a copy of the array and its bubble sort trace, has the current index at -1, is paused with no timer at speed 1000, and has reported its state once |
| Controller.AlgorithmController.GenerateSteps | src/core/AlgorithmController.ts:20-26 | the steps become the bubble sort trace of the initial array; nothing else changes |
| Controller.AlgorithmController.EmitState | src/core/AlgorithmController.ts:108-110 | the current state is reported; nothing else changes |
| Controller.AlgorithmController.Play | src/core/AlgorithmController.ts:28-40 | while playing, nothing changes; otherwise the controller plays, reports that, and has a timer with the current speed as period |
| Controller.AlgorithmController.Pause | src/core/AlgorithmController.ts:42-49 | afterwards not playing and no timer, the state otherwise unchanged and reported; on a paused controller the state is exactly the old one, so pausing twice is pausing once |
| Controller.AlgorithmController.Next | src/core/AlgorithmController.ts:51-56 | before the last step the current index moves one on and the state is reported; at the last step nothing changes and nothing is reported |
| Controller.AlgorithmController.Prev | src/core/AlgorithmController.ts:58-63 | from 0 on the current index moves one back and the state is reported; at -1 nothing changes and nothing is reported |
| Controller.AlgorithmController.Tick | src/core/AlgorithmController.ts:33-38 | the timer callback advances one step while one is left, staying in play, and otherwise pauses, clearing the timer |
| Controller.AlgorithmController.SetSpeed | src/core/AlgorithmController.ts:65-72 | the speed changes; a running timer is restarted with the new period, reporting the paused, the playing and the final state; a paused controller reports once |
| Controller.AlgorithmController.Reset | src/core/AlgorithmController.ts:74-82 | ends paused with no timer and the current index at -1; with no array, the array and steps are unchanged, with one, they are that array and its trace; it reports the paused state and then the rewound one |
| Controller.AlgorithmController.GetCurrentState | src/core/AlgorithmController.ts:84-106 | the replay loop on a fresh copy returns the reported state: the initial array with the swaps of steps 0..current index applied, changing no field |
| Controller.AlgorithmController.GetStepsCount | src/core/AlgorithmController.ts:112-114 | the number of steps of the trace |
| ControllerFacts.SnapshotFacts | src/core/AlgorithmController.ts:89-104 | the reported array is a permutation of the initial array, is the initial array itself at -1, and isFinished holds exactly at the last step |
| ControllerFacts.SnapshotAdvance | src/core/AlgorithmController.ts:90-96 | moving the current index one on applies exactly the swap, if any, of the next step |
| ControllerFacts.FinishedIsSorted | src/core/AlgorithmController.ts:89-104 | at the last step of the bubble sort trace the controller reports finished and shows the initial array sorted ascending |

## Left out

- Step `description` strings and `line` numbers are display text and are dropped. A
  small `Note` tag keeps the three wordings callers inspect: "Searching range",
  "not found" and "Array is fully sorted".
- JavaScript numbers are modelled as unbounded `int`. There is no floating point, no
  NaN and no overflow. Dijkstra's `Infinity` is `None`, and `distances[id]` for an id
  without an entry also reads as `None` (the method never looks one up). Edge weights and
  the controller's speed are `int`.
- The unvisited `Set` of Dijkstra is a sequence kept in insertion order. That is the
  order a JavaScript `Set` is iterated in.
- A node's `x` and `y` only place it on screen. They are carried but play no part.
- The sorting generators (bubble, merge, quick, heap) take their input as an immutable
  sequence and copy it into a private `array`. The source's spread copy `[...array]` is
  what makes this faithful. The search generators and Dijkstra only read their input,
  so they take a sequence and make no copy.
- `setInterval` and `clearInterval` and the passage of time are left out. The timer is a
  field holding the period it was started with, and the callback body is `Tick`, which may
  only run while a timer is live.
- The `onStateChange` listener is a ghost log `emitted` of the reported states.
- `AlgorithmController.GetCurrentState` skips a swap step whose indices are missing or out
  of range. JavaScript would write holes into the array instead. The controller's own
  bubble sort trace never has such a step (`BubbleFacts.BubbleShape`).
- `setAlgorithm`, the unused `VizCommand` type (`src/types/types.ts:39-42`) and the
  `graph` field of the reported state are left out. The controller as written has none of
  them.
- The random dataset and graph generators (`Math.random`) are left out, and so is every
  `.tsx` file: rendering, routing and input dialogs.
- `ShortestPathFacts.LoopVisitsClosest` does not state Dijkstra's full correctness, that
  visits come in order of non-decreasing true distance over any graph. It states the
  source's selection rule: each visit is the first of the closest unvisited nodes by the
  current distances, the earliest in `nodes` order among equally close ones. The visit order is checked in full only on the test graph
  (`ShortestPathExample.TestGraphVisitOrder`).
- Bubble sort on an array of length 0 or 1 yields no step at all; `BubbleFacts.BubbleEnds`
  states this.
- Quick sort's `swap [i, j]` step may name the same index twice (i = j). The replay
  treats it as a no-op, as the destructuring swap does.
