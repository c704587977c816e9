/** Heap sort trace generator (src/core/algorithms/heapSort.ts): a max-heap built by
    sift-down from the last parent, then the root repeatedly moved to the end. */
module Heap {
  import opened Steps

  /** The indices `heapify(arr, n, i)` highlights: i, then each child that lies below n. */
  function Family(n: int, i: int): seq<int> {
    [i] + (if 2 * i + 1 < n then [2 * i + 1] else []) + (if 2 * i + 2 < n then [2 * i + 2] else [])
  }

  /** `largest` after the left child has been considered. */
  function AfterLeft(a: seq<int>, n: int, i: int): (l: int)
    requires 0 <= i < n <= |a|
    ensures l == i || l == 2 * i + 1 < n
  {
    if 2 * i + 1 < n && a[2 * i + 1] > a[i] then 2 * i + 1 else i
  }

  /** `largest` after both children have been considered. */
  function Largest(a: seq<int>, n: int, i: int): (l: int)
    requires 0 <= i < n <= |a|
    ensures l == i || l == 2 * i + 1 < n || l == 2 * i + 2 < n
  {
    var l := AfterLeft(a, n, i);
    if 2 * i + 2 < n && a[2 * i + 2] > a[l] then 2 * i + 2 else l
  }

  /** The steps `heapify(arr, n, i)` emits before it decides whether to swap: the
      highlight of i and its children, compare [left, i] when left < n, and compare
      [right, largest] when right < n. */
  function Probe(a: seq<int>, n: int, i: int): seq<Step>
    requires 0 <= i < n <= |a|
  {
    [Mk(Highlight, Family(n, i))] +
    (if 2 * i + 1 < n then [Mk(Compare, [2 * i + 1, i])] else []) +
    (if 2 * i + 2 < n then [Mk(Compare, [2 * i + 2, AfterLeft(a, n, i)])] else [])
  }

  /** `heapify(arr, n, i)`: the probe, then, when a child is larger, swap [i, largest]
      and sift down from largest. */
  function HeapifyRun(a: seq<int>, n: int, i: int): (r: SortRun)
    requires 0 <= i < n <= |a|
    ensures |r.arr| == |a|
    decreases n - i
  {
    var l := Largest(a, n, i);
    if l == i then SortRun(a, Probe(a, n, i))
    else
      var rest := HeapifyRun(SwapAt(a, i, l), n, l);
      SortRun(rest.arr, Probe(a, n, i) + [Mk(Swap, [i, l])] + rest.steps)
  }

  /** The build loop of `heapSort` from i down to 0: heapify(arr, n, i), ...,
      heapify(arr, n, 0). */
  function BuildFrom(a: seq<int>, n: int, i: int): (r: SortRun)
    requires n <= |a| && -1 <= i < n
    ensures |r.arr| == |a|
    decreases i + 1
  {
    if i < 0 then SortRun(a, [])
    else
      var h := HeapifyRun(a, n, i);
      var rest := BuildFrom(h.arr, n, i - 1);
      SortRun(rest.arr, h.steps + rest.steps)
  }

  /** The extraction loop of `heapSort` from i down to 1: swap [0, i] moving the root
      to the end, `sorted [i]`, then heapify(arr, i, 0) on the shortened heap. */
  function ExtractFrom(a: seq<int>, i: int): (r: SortRun)
    requires -1 <= i < |a|
    ensures |r.arr| == |a|
    decreases i
  {
    if i <= 0 then SortRun(a, [])
    else
      var h := HeapifyRun(SwapAt(a, 0, i), i, 0);
      var rest := ExtractFrom(h.arr, i - 1);
      SortRun(rest.arr, [Mk(Swap, [0, i]), Mk(Sorted, [i])] + h.steps + rest.steps)
  }

  /** The array after the build loop. */
  function Built(a: seq<int>): (r: SortRun)
    ensures |r.arr| == |a|
  {
    BuildFrom(a, |a|, Half(|a|) - 1)
  }

  /** The trace `heapSort(array)` yields: highlight every index, build the heap,
      extract, then `sorted [0]` and one `sorted` step over every index, tagged
      "Array is fully sorted". */
  function HeapSortTrace(a: seq<int>): seq<Step> {
    var b := Built(a);
    var e := ExtractFrom(b.arr, |a| - 1);
    [Mk(Highlight, Range(0, |a|))] + b.steps + e.steps + [Mk(Sorted, [0]), Noted(Sorted, Range(0, |a|), FullySorted)]
  }

  /** i, i-1, ..., 1: the indices the extraction loop marks sorted, in order. */
  function Countdown(i: int): (r: seq<int>)
    ensures |r| == if i > 0 then i else 0
    ensures forall k :: 0 <= k < |r| ==> r[k] == i - k
    decreases i
  {
    if i <= 0 then [] else [i] + Countdown(i - 1)
  }

  /** A run with steps s emitted before it. */
  function After(s: seq<Step>, r: SortRun): SortRun {
    SortRun(r.arr, s + r.steps)
  }

  lemma AfterAppend(s: seq<Step>, t: seq<Step>, r: SortRun)
    ensures After(s, SortRun(r.arr, t + r.steps)) == After(s + t, r)
  {
    assert s + (t + r.steps) == (s + t) + r.steps;
  }

  /** `heapify` on the private array. */
  method Heapify(arr: array<int>, n: int, i: int) returns (steps: seq<Step>)
    requires 0 <= i < n <= arr.Length
    modifies arr
    ensures HeapifyRun(old(arr[..]), n, i) == SortRun(arr[..], steps)
    decreases n - i
  {
    ghost var a0 := arr[..];
    var largest := i;
    var left := 2 * i + 1;
    var right := 2 * i + 2;
    var family := [i];
    if left < n {
      family := family + [left];
    }
    if right < n {
      family := family + [right];
    }
    steps := [Mk(Highlight, family)];
    if left < n {
      steps := steps + [Mk(Compare, [left, largest])];
      if arr[left] > arr[largest] {
        largest := left;
      }
    }
    assert family == Family(n, i);
    assert largest == AfterLeft(a0, n, i);
    assert steps == [Mk(Highlight, Family(n, i))] + (if left < n then [Mk(Compare, [left, i])] else []);
    if right < n {
      steps := steps + [Mk(Compare, [right, largest])];
      if arr[right] > arr[largest] {
        largest := right;
      }
    }
    assert steps == Probe(a0, n, i);
    if largest != i {
      arr[i], arr[largest] := arr[largest], arr[i];
      assert arr[..] == SwapAt(a0, i, largest);
      steps := steps + [Mk(Swap, [i, largest])];
      var rest := Heapify(arr, n, largest);
      steps := steps + rest;
    }
  }

  lemma BuildStep(s: seq<Step>, cur: seq<int>, n: int, i: int, arr: seq<int>, h: seq<Step>)
    requires n <= |cur| && 0 <= i < n && HeapifyRun(cur, n, i) == SortRun(arr, h)
    ensures After(s, BuildFrom(cur, n, i)) == After(s + h, BuildFrom(arr, n, i - 1))
  {
    AfterAppend(s, h, BuildFrom(arr, n, i - 1));
  }

  lemma ExtractStep(s: seq<Step>, cur: seq<int>, i: int, arr: seq<int>, h: seq<Step>)
    requires 0 < i < |cur| && HeapifyRun(SwapAt(cur, 0, i), i, 0) == SortRun(arr, h)
    ensures After(s, ExtractFrom(cur, i)) == After(s + [Mk(Swap, [0, i]), Mk(Sorted, [i])] + h, ExtractFrom(arr, i - 1))
  {
    var rest := ExtractFrom(arr, i - 1);
    assert s + ([Mk(Swap, [0, i]), Mk(Sorted, [i])] + h + rest.steps) == (s + [Mk(Swap, [0, i]), Mk(Sorted, [i])] + h) + rest.steps;
  }

  /** The generator: build the heap, extract, then the closing `sorted` steps. */
  method HeapSort(input: seq<int>) returns (steps: seq<Step>)
    ensures steps == HeapSortTrace(input)
  {
    var arr := new int[|input|](k requires 0 <= k < |input| => input[k]);
    assert arr[..] == input;
    var n := arr.Length;
    steps := [Mk(Highlight, Range(0, n))];
    ghost var head := steps;
    var i := n / 2 - 1;
    assert i == Half(n) - 1;
    while i >= 0
      invariant -1 <= i < n && arr.Length == n
      invariant After(steps, BuildFrom(arr[..], n, i)) == After(head, Built(input))
      decreases i + 1
    {
      ghost var s0, cur := steps, arr[..];
      var h := Heapify(arr, n, i);
      steps := steps + h;
      BuildStep(s0, cur, n, i, arr[..], h);
      i := i - 1;
    }
    assert BuildFrom(arr[..], n, i) == SortRun(arr[..], []);
    ghost var built := steps;
    ghost var b := arr[..];
    assert built == head + Built(input).steps && b == Built(input).arr;
    i := n - 1;
    while i > 0
      invariant -1 <= i < n && arr.Length == n
      invariant After(steps, ExtractFrom(arr[..], i)) == After(built, ExtractFrom(b, n - 1))
      decreases i
    {
      ghost var s0, cur := steps, arr[..];
      arr[0], arr[i] := arr[i], arr[0];
      assert arr[..] == SwapAt(cur, 0, i);
      steps := steps + [Mk(Swap, [0, i]), Mk(Sorted, [i])];
      var h := Heapify(arr, i, 0);
      steps := steps + h;
      ExtractStep(s0, cur, i, arr[..], h);
      i := i - 1;
    }
    assert ExtractFrom(arr[..], i) == SortRun(arr[..], []);
    assert steps == built + ExtractFrom(b, n - 1).steps;
    steps := steps + [Mk(Sorted, [0])];
    steps := steps + [Noted(Sorted, Range(0, n), FullySorted)];
    assert steps == (head + Built(input).steps + ExtractFrom(b, n - 1).steps) + [Mk(Sorted, [0]), Noted(Sorted, Range(0, n), FullySorted)];
  }
}

module HeapFacts {
  import opened Steps
  import opened Heap

  /** `largest` is i or a child below n, holds the largest of the three values, and
      differs from i exactly when some child below n is strictly greater than a[i]. */
  lemma LargestPicks(a: seq<int>, n: int, i: int)
    requires 0 <= i < n <= |a|
    ensures a[Largest(a, n, i)] >= a[i]
    ensures 2 * i + 1 < n ==> a[Largest(a, n, i)] >= a[2 * i + 1]
    ensures 2 * i + 2 < n ==> a[Largest(a, n, i)] >= a[2 * i + 2]
    ensures Largest(a, n, i) != i <==> (2 * i + 1 < n && a[2 * i + 1] > a[i]) || (2 * i + 2 < n && a[2 * i + 2] > a[i])
  {
  }

  /** `heapify(arr, n, i)` moves elements only within [i, n) and permutes the array. */
  lemma {:induction false} HeapifyKeeps(a: seq<int>, n: int, i: int)
    requires 0 <= i < n <= |a|
    ensures SameOutside(a, HeapifyRun(a, n, i).arr, i, n - 1)
    ensures multiset(HeapifyRun(a, n, i).arr) == multiset(a)
    decreases n - i
  {
    var l := Largest(a, n, i);
    if l != i {
      var b := SwapAt(a, i, l);
      SwapAtPermutes(a, i, l);
      HeapifyKeeps(b, n, l);
    }
  }

  lemma ProbeFacts(a: seq<int>, n: int, i: int)
    requires 0 <= i < n <= |a|
    ensures forall p :: 0 <= p < |Probe(a, n, i)| ==> Probe(a, n, i)[p].kind != Swap && Probe(a, n, i)[p].kind != Sorted
    ensures IndicesBetween(Probe(a, n, i), i, n - 1)
  {
    var x := Mk(Highlight, Family(n, i));
    var l := if 2 * i + 1 < n then [Mk(Compare, [2 * i + 1, i])] else [];
    var r := if 2 * i + 2 < n then [Mk(Compare, [2 * i + 2, AfterLeft(a, n, i)])] else [];
    assert IndicesBetween([x], i, n - 1);
    assert IndicesBetween(l, i, n - 1) && IndicesBetween(r, i, n - 1);
    IndicesBetweenAppend([x], l, i, n - 1);
    IndicesBetweenAppend([x] + l, r, i, n - 1);
  }

  /** Replaying the swap steps of `heapify` reproduces the array it leaves. */
  lemma {:induction false} HeapifyReplay(a: seq<int>, n: int, i: int)
    requires 0 <= i < n <= |a|
    ensures ReplaySwaps(a, HeapifyRun(a, n, i).steps) == HeapifyRun(a, n, i).arr
    decreases n - i
  {
    var l := Largest(a, n, i);
    var probe := Probe(a, n, i);
    ProbeFacts(a, n, i);
    ReplaySwapsNoSwap(a, probe);
    if l != i {
      var b := SwapAt(a, i, l);
      var rest := HeapifyRun(b, n, l);
      HeapifyReplay(b, n, l);
      ReplaySwapsAppend(a, probe, [Mk(Swap, [i, l])]);
      ReplaySwapsOne(a, Mk(Swap, [i, l]));
      ReplaySwapsAppend(a, probe + [Mk(Swap, [i, l])], rest.steps);
    }
  }

  /** `heapify(arr, n, i)` names only indices in [i, n) and emits no `sorted` step. */
  lemma {:induction false} HeapifyShape(a: seq<int>, n: int, i: int)
    requires 0 <= i < n <= |a|
    ensures IndicesBetween(HeapifyRun(a, n, i).steps, i, n - 1)
    ensures Marks(HeapifyRun(a, n, i).steps) == []
    decreases n - i
  {
    var l := Largest(a, n, i);
    var probe := Probe(a, n, i);
    ProbeFacts(a, n, i);
    MarksNone(probe);
    if l != i {
      var b := SwapAt(a, i, l);
      HeapifyShape(b, n, l);
      SwapChain(probe, i, l, HeapifyRun(b, n, l).steps, n);
    }
  }

  lemma SwapChain(probe: seq<Step>, i: int, l: int, rest: seq<Step>, n: int)
    requires 0 <= i <= l < n && IndicesBetween(probe, i, n - 1) && Marks(probe) == []
    requires IndicesBetween(rest, l, n - 1) && Marks(rest) == []
    ensures IndicesBetween(probe + [Mk(Swap, [i, l])] + rest, i, n - 1)
    ensures Marks(probe + [Mk(Swap, [i, l])] + rest) == []
  {
    var x := Mk(Swap, [i, l]);
    assert IndicesBetween([x], i, n - 1);
    IndicesBetweenWiden(rest, l, n - 1, i, n - 1);
    IndicesBetweenAppend(probe, [x], i, n - 1);
    IndicesBetweenAppend(probe + [x], rest, i, n - 1);
    MarksAppend(probe, [x]);
    MarksNone([x]);
    MarksAppend(probe + [x], rest);
  }

  /** After its probe, `heapify(arr, n, i)` emits swap [i, largest] exactly when
      largest differs from i, that is when a child below n is strictly greater. */
  lemma HeapifyDecides(a: seq<int>, n: int, i: int)
    requires 0 <= i < n <= |a|
    ensures HeapifyRun(a, n, i).steps[..|Probe(a, n, i)|] == Probe(a, n, i)
    ensures |HeapifyRun(a, n, i).steps| > |Probe(a, n, i)| <==> Largest(a, n, i) != i
    ensures Largest(a, n, i) != i ==> HeapifyRun(a, n, i).steps[|Probe(a, n, i)|] == Mk(Swap, [i, Largest(a, n, i)])
  {
    var l := Largest(a, n, i);
    var probe := Probe(a, n, i);
    if l != i {
      var rest := HeapifyRun(SwapAt(a, i, l), n, l);
      var s := probe + [Mk(Swap, [i, l])] + rest.steps;
      assert s[..|probe|] == probe;
    } else {
      assert probe[..|probe|] == probe;
    }
  }

  /** Max-heap order on [0, n) for every parent from lo on: no child below n is larger
      than its parent. */
  ghost predicate HeapFrom(a: seq<int>, n: int, lo: int) {
    0 <= lo && n <= |a| &&
    (forall k :: lo <= k && 2 * k + 1 < n ==> a[2 * k + 1] <= a[k]) &&
    (forall k :: lo <= k && 2 * k + 2 < n ==> a[2 * k + 2] <= a[k])
  }

  /** The sift-down invariant: heap order from lo on except at the parent x, whose
      children are nevertheless no larger than x's own parent. */
  ghost predicate HeapBut(a: seq<int>, n: int, lo: int, x: int) {
    0 <= lo <= x < n <= |a| &&
    (forall k :: lo <= k && k != x && 2 * k + 1 < n ==> a[2 * k + 1] <= a[k]) &&
    (forall k :: lo <= k && k != x && 2 * k + 2 < n ==> a[2 * k + 2] <= a[k]) &&
    (forall k :: lo <= k < x && (2 * k + 1 == x || 2 * k + 2 == x) ==>
      (2 * x + 1 < n ==> a[2 * x + 1] <= a[k]) && (2 * x + 2 < n ==> a[2 * x + 2] <= a[k]))
  }

  lemma SiftStep(a: seq<int>, n: int, lo: int, x: int)
    requires HeapBut(a, n, lo, x) && Largest(a, n, x) != x
    ensures HeapBut(SwapAt(a, x, Largest(a, n, x)), n, lo, Largest(a, n, x))
  {
    LargestPicks(a, n, x);
    SwapDown(a, n, lo, x, Largest(a, n, x));
  }

  /** Swapping x with a child l that holds the largest of the three moves the defect
      down to l. */
  lemma SwapDown(a: seq<int>, n: int, lo: int, x: int, l: int)
    requires HeapBut(a, n, lo, x) && (l == 2 * x + 1 || l == 2 * x + 2) && l < n
    requires a[l] >= a[x] && (2 * x + 1 < n ==> a[l] >= a[2 * x + 1]) && (2 * x + 2 < n ==> a[l] >= a[2 * x + 2])
    ensures HeapBut(SwapAt(a, x, l), n, lo, l)
  {
    SwapDownLeft(a, n, lo, x, l);
    SwapDownRight(a, n, lo, x, l);
  }

  lemma SwapDownLeft(a: seq<int>, n: int, lo: int, x: int, l: int)
    requires HeapBut(a, n, lo, x) && (l == 2 * x + 1 || l == 2 * x + 2) && l < n
    requires a[l] >= a[x] && (2 * x + 1 < n ==> a[l] >= a[2 * x + 1]) && (2 * x + 2 < n ==> a[l] >= a[2 * x + 2])
    ensures forall k :: lo <= k && k != l && 2 * k + 1 < n ==> SwapAt(a, x, l)[2 * k + 1] <= SwapAt(a, x, l)[k]
  {
    var b := SwapAt(a, x, l);
    forall k | lo <= k && k != l && 2 * k + 1 < n ensures b[2 * k + 1] <= b[k] {
      if k != x && 2 * k + 1 == x {
        assert b[x] == a[l] && b[k] == a[k];
      }
    }
  }

  lemma SwapDownRight(a: seq<int>, n: int, lo: int, x: int, l: int)
    requires HeapBut(a, n, lo, x) && (l == 2 * x + 1 || l == 2 * x + 2) && l < n
    requires a[l] >= a[x] && (2 * x + 1 < n ==> a[l] >= a[2 * x + 1]) && (2 * x + 2 < n ==> a[l] >= a[2 * x + 2])
    ensures forall k :: lo <= k && k != l && 2 * k + 2 < n ==> SwapAt(a, x, l)[2 * k + 2] <= SwapAt(a, x, l)[k]
  {
    var b := SwapAt(a, x, l);
    forall k | lo <= k && k != l && 2 * k + 2 < n ensures b[2 * k + 2] <= b[k] {
      if k != x && 2 * k + 2 == x {
        assert b[x] == a[l] && b[k] == a[k];
      }
    }
  }

  lemma SiftDone(a: seq<int>, n: int, lo: int, x: int)
    requires HeapBut(a, n, lo, x) && Largest(a, n, x) == x
    ensures HeapFrom(a, n, lo)
  {
    LargestPicks(a, n, x);
  }

  /** Sifting down from x restores heap order from lo on. */
  lemma {:induction false} SiftHeaps(a: seq<int>, n: int, lo: int, x: int)
    requires HeapBut(a, n, lo, x)
    ensures HeapFrom(HeapifyRun(a, n, x).arr, n, lo)
    decreases n - x
  {
    var l := Largest(a, n, x);
    if l == x {
      SiftDone(a, n, lo, x);
    } else {
      SiftStep(a, n, lo, x);
      SiftHeaps(SwapAt(a, x, l), n, lo, l);
    }
  }

  /** `heapify(arr, n, i)` on a heap below i makes a heap from i on. */
  lemma HeapifyHeaps(a: seq<int>, n: int, i: int)
    requires 0 <= i < n <= |a| && HeapFrom(a, n, i + 1)
    ensures HeapFrom(HeapifyRun(a, n, i).arr, n, i)
  {
    assert HeapBut(a, n, i, i);
    SiftHeaps(a, n, i, i);
  }

  /** The build loop permutes the array and moves nothing at or beyond n. */
  lemma {:induction false} BuildKeeps(a: seq<int>, n: int, i: int)
    requires n <= |a| && -1 <= i < n
    ensures SameOutside(a, BuildFrom(a, n, i).arr, 0, n - 1)
    ensures multiset(BuildFrom(a, n, i).arr) == multiset(a)
    decreases i + 1
  {
    if i >= 0 {
      var h := HeapifyRun(a, n, i);
      HeapifyKeeps(a, n, i);
      BuildKeeps(h.arr, n, i - 1);
    }
  }

  /** Heapifying i, i-1, ..., 0 over a heap below i + 1 leaves a heap on [0, n). */
  lemma {:induction false} BuildHeaps(a: seq<int>, n: int, i: int)
    requires n <= |a| && -1 <= i < n && HeapFrom(a, n, i + 1)
    ensures HeapFrom(BuildFrom(a, n, i).arr, n, 0)
    decreases i + 1
  {
    if i >= 0 {
      HeapifyHeaps(a, n, i);
      BuildHeaps(HeapifyRun(a, n, i).arr, n, i - 1);
    }
  }

  /** The build loop of `heapSort` turns the array into a max-heap of its own
      elements: heapifying from the last parent down needs nothing of the leaves. */
  lemma BuiltHeap(a: seq<int>)
    ensures HeapFrom(Built(a).arr, |a|, 0)
    ensures multiset(Built(a).arr) == multiset(a)
  {
    var n := |a|;
    assert HeapFrom(a, n, Half(n));
    BuildHeaps(a, n, Half(n) - 1);
    BuildKeeps(a, n, Half(n) - 1);
  }

  lemma {:induction false} BuildReplay(a: seq<int>, n: int, i: int)
    requires n <= |a| && -1 <= i < n
    ensures ReplaySwaps(a, BuildFrom(a, n, i).steps) == BuildFrom(a, n, i).arr
    decreases i + 1
  {
    if i >= 0 {
      var h := HeapifyRun(a, n, i);
      HeapifyReplay(a, n, i);
      BuildReplay(h.arr, n, i - 1);
      ReplaySwapsAppend(a, h.steps, BuildFrom(h.arr, n, i - 1).steps);
    }
  }

  /** The build loop names only indices in [0, n) and marks nothing sorted. */
  lemma {:induction false} BuildShape(a: seq<int>, n: int, i: int)
    requires n <= |a| && -1 <= i < n
    ensures IndicesBetween(BuildFrom(a, n, i).steps, 0, n - 1)
    ensures Marks(BuildFrom(a, n, i).steps) == []
    decreases i + 1
  {
    if i >= 0 {
      var h := HeapifyRun(a, n, i);
      HeapifyShape(a, n, i);
      BuildShape(h.arr, n, i - 1);
      QuietChain(h.steps, BuildFrom(h.arr, n, i - 1).steps, i, n);
    }
  }

  lemma QuietChain(h: seq<Step>, rest: seq<Step>, i: int, n: int)
    requires 0 <= i && IndicesBetween(h, i, n - 1) && Marks(h) == []
    requires IndicesBetween(rest, 0, n - 1) && Marks(rest) == []
    ensures IndicesBetween(h + rest, 0, n - 1) && Marks(h + rest) == []
  {
    IndicesBetweenWiden(h, i, n - 1, 0, n - 1);
    IndicesBetweenAppend(h, rest, 0, n - 1);
    MarksAppend(h, rest);
  }

  /** In a max-heap on [0, m) the root is the largest element. */
  lemma {:induction false} RootIsMax(a: seq<int>, m: int, k: int)
    requires HeapFrom(a, m, 0) && 0 <= k < m
    ensures a[k] <= a[0]
    decreases k
  {
    if k > 0 {
      var p := (k - 1) / 2;
      assert 2 * p + 1 == k || 2 * p + 2 == k;
      RootIsMax(a, m, p);
    }
  }

  /** Every element of [0, i] is at most every element after i. */
  ghost predicate PrefixBelow(a: seq<int>, i: int) {
    forall k, m :: 0 <= k <= i < m < |a| ==> a[k] <= a[m]
  }

  /** The extraction loop's invariant with i still to go: a max-heap on [0, i], the
      ascending run of extracted maxima after it, none smaller than the heap. */
  ghost predicate ExtractInv(a: seq<int>, i: int) {
    0 <= i < |a| && HeapFrom(a, i + 1, 0) && SortedSlice(a, i + 1, |a| - 1) && PrefixBelow(a, i)
  }

  /** Swapping the root to position i puts the heap's maximum at the head of the
      sorted run and leaves a heap below the root on [0, i). */
  lemma RootMoved(a: seq<int>, i: int)
    requires ExtractInv(a, i) && i > 0
    ensures HeapFrom(SwapAt(a, 0, i), i, 1)
    ensures SortedSlice(SwapAt(a, 0, i), i, |a| - 1)
    ensures forall k :: 0 <= k < i ==> SwapAt(a, 0, i)[k] <= SwapAt(a, 0, i)[i]
  {
    forall k | 0 <= k <= i ensures a[k] <= a[0] {
      RootIsMax(a, i + 1, k);
    }
  }

  /** Rearranging [0, i) under the maximum b[i] keeps the run from i sorted and every
      element before i at most every element from i on. */
  lemma Settled(b: seq<int>, h: seq<int>, i: int)
    requires 0 < i < |b| && SortedSlice(b, i, |b| - 1)
    requires forall k :: 0 <= k < i ==> b[k] <= b[i]
    requires SameOutside(b, h, 0, i - 1) && multiset(h) == multiset(b)
    ensures SortedSlice(h, i, |h| - 1) && PrefixBelow(h, i - 1)
  {
    PermutedRange(b, h, 0, i - 1);
  }

  /** One round of the extraction loop keeps its invariant and permutes the array. */
  lemma ExtractKeeps(a: seq<int>, i: int)
    requires ExtractInv(a, i) && i > 0
    ensures ExtractInv(HeapifyRun(SwapAt(a, 0, i), i, 0).arr, i - 1)
    ensures multiset(HeapifyRun(SwapAt(a, 0, i), i, 0).arr) == multiset(a)
  {
    var b := SwapAt(a, 0, i);
    RootMoved(a, i);
    HeapifyHeaps(b, i, 0);
    HeapifyKeeps(b, i, 0);
    SwapAtPermutes(a, 0, i);
    Settled(b, HeapifyRun(b, i, 0).arr, i);
  }

  /** The extraction loop, started on its invariant, leaves the array ascending and a
      permutation of what it was given. */
  lemma {:induction false} ExtractSorts(a: seq<int>, i: int)
    requires ExtractInv(a, i)
    ensures Ascending(ExtractFrom(a, i).arr)
    ensures multiset(ExtractFrom(a, i).arr) == multiset(a)
    decreases i
  {
    if i == 0 {
      assert Ascending(a);
    } else {
      ExtractKeeps(a, i);
      ExtractSorts(HeapifyRun(SwapAt(a, 0, i), i, 0).arr, i - 1);
    }
  }

  lemma {:induction false} ExtractReplay(a: seq<int>, i: int)
    requires -1 <= i < |a|
    ensures ReplaySwaps(a, ExtractFrom(a, i).steps) == ExtractFrom(a, i).arr
    decreases i
  {
    if i > 0 {
      var b := SwapAt(a, 0, i);
      var h := HeapifyRun(b, i, 0);
      HeapifyReplay(b, i, 0);
      ExtractReplay(h.arr, i - 1);
      ReplaySwapsThen(a, 0, i, Mk(Sorted, [i]));
      ReplayThree(a, [Mk(Swap, [0, i]), Mk(Sorted, [i])], b, h.steps, h.arr, ExtractFrom(h.arr, i - 1).steps, ExtractFrom(h.arr, i - 1).arr);
    }
  }

  lemma ReplayThree(a: seq<int>, s1: seq<Step>, b1: seq<int>, s2: seq<Step>, b2: seq<int>, s3: seq<Step>, b3: seq<int>)
    requires ReplaySwaps(a, s1) == b1 && ReplaySwaps(b1, s2) == b2 && ReplaySwaps(b2, s3) == b3
    ensures ReplaySwaps(a, s1 + s2 + s3) == b3
  {
    ReplaySwapsAppend(a, s1, s2);
    ReplaySwapsAppend(a, s1 + s2, s3);
  }

  /** The extraction loop from i names only indices in [0, i] and marks i, i-1, ..., 1
      sorted, in that order. */
  lemma {:induction false} ExtractShape(a: seq<int>, i: int)
    requires -1 <= i < |a|
    ensures IndicesBetween(ExtractFrom(a, i).steps, 0, i)
    ensures Marks(ExtractFrom(a, i).steps) == Countdown(i)
    decreases i
  {
    if i > 0 {
      var h := HeapifyRun(SwapAt(a, 0, i), i, 0);
      HeapifyShape(SwapAt(a, 0, i), i, 0);
      ExtractShape(h.arr, i - 1);
      ExtractChain(h.steps, ExtractFrom(h.arr, i - 1).steps, i);
    }
  }

  lemma ExtractChain(h: seq<Step>, rest: seq<Step>, i: int)
    requires 0 < i && IndicesBetween(h, 0, i - 1) && Marks(h) == []
    requires IndicesBetween(rest, 0, i - 1) && Marks(rest) == Countdown(i - 1)
    ensures IndicesBetween([Mk(Swap, [0, i]), Mk(Sorted, [i])] + h + rest, 0, i)
    ensures Marks([Mk(Swap, [0, i]), Mk(Sorted, [i])] + h + rest) == Countdown(i)
  {
    var x := [Mk(Swap, [0, i]), Mk(Sorted, [i])];
    assert IndicesBetween(x, 0, i);
    IndicesBetweenWiden(h, 0, i - 1, 0, i);
    IndicesBetweenWiden(rest, 0, i - 1, 0, i);
    IndicesBetweenAppend(x, h, 0, i);
    IndicesBetweenAppend(x + h, rest, 0, i);
    assert x == [Mk(Swap, [0, i])] + [Mk(Sorted, [i])];
    MarksOne(Mk(Swap, [0, i]));
    MarksOne(Mk(Sorted, [i]));
    MarksAppend([Mk(Swap, [0, i])], [Mk(Sorted, [i])]);
    MarksAppend(x, h);
    MarksAppend(x + h, rest);
  }

  /** Replaying the swap steps of the whole trace yields the array the extraction loop
      leaves. */
  lemma HeapSortReplay(a: seq<int>)
    ensures ReplaySwaps(a, HeapSortTrace(a)) == ExtractFrom(Built(a).arr, |a| - 1).arr
  {
    var b := Built(a);
    var e := ExtractFrom(b.arr, |a| - 1);
    BuildReplay(a, |a|, Half(|a|) - 1);
    ExtractReplay(b.arr, |a| - 1);
    QuietEnds(a, HeapSortTrace(a), Mk(Highlight, Range(0, |a|)), b.steps, b.arr, e.steps, e.arr,
      Mk(Sorted, [0]), Noted(Sorted, Range(0, |a|), FullySorted));
  }

  lemma QuietEnds(a: seq<int>, t: seq<Step>, x: Step, s1: seq<Step>, b1: seq<int>, s2: seq<Step>, b2: seq<int>, y: Step, z: Step)
    requires x.kind != Swap && y.kind != Swap && z.kind != Swap
    requires ReplaySwaps(a, s1) == b1 && ReplaySwaps(b1, s2) == b2
    requires t == [x] + s1 + s2 + [y, z]
    ensures ReplaySwaps(a, t) == b2
  {
    ReplaySwapsOne(a, x);
    ReplayThree(a, [x], a, s1, b1, s2, b2);
    ReplaySwapsAppend(a, [x] + s1 + s2, [y, z]);
    ReplaySwapsAppend(b2, [y], [z]);
    ReplaySwapsOne(b2, y);
    ReplaySwapsOne(b2, z);
    assert [y] + [z] == [y, z];
  }

  /** Replaying the swap steps of the heap sort trace on the input yields its ascending
      permutation. */
  lemma HeapSortSorts(a: seq<int>)
    ensures Ascending(ReplaySwaps(a, HeapSortTrace(a)))
    ensures multiset(ReplaySwaps(a, HeapSortTrace(a))) == multiset(a)
  {
    var b := Built(a);
    HeapSortReplay(a);
    BuiltHeap(a);
    if |a| > 0 {
      assert ExtractInv(b.arr, |a| - 1);
      ExtractSorts(b.arr, |a| - 1);
    }
  }

  /** The heap sort trace marks |a|-1, ..., 1 sorted during extraction, then 0, and its
      last step is `sorted` over all indices, tagged "Array is fully sorted". For a
      non-empty input it names only indices in [0, |a|); for the empty input its
      `sorted [0]` step names an index the array does not have. */
  lemma HeapSortShape(a: seq<int>)
    ensures |a| > 0 ==> IndicesIn(HeapSortTrace(a), |a|)
    ensures |a| == 0 ==> !IndicesIn(HeapSortTrace(a), 0)
    ensures Marks(HeapSortTrace(a)[..|HeapSortTrace(a)| - 1]) == Countdown(|a| - 1) + [0]
    ensures HeapSortTrace(a)[|HeapSortTrace(a)| - 1] == Noted(Sorted, Range(0, |a|), FullySorted)
  {
    var n := |a|;
    var b := Built(a);
    var e := ExtractFrom(b.arr, n - 1);
    BuildShape(a, n, Half(n) - 1);
    ExtractShape(b.arr, n - 1);
    TraceShape(HeapSortTrace(a), b.steps, e.steps, n);
  }

  lemma TraceShape(t: seq<Step>, bs: seq<Step>, es: seq<Step>, n: nat)
    requires IndicesBetween(bs, 0, n - 1) && Marks(bs) == []
    requires IndicesBetween(es, 0, n - 1) && Marks(es) == Countdown(n - 1)
    requires t == [Mk(Highlight, Range(0, n))] + bs + es + [Mk(Sorted, [0]), Noted(Sorted, Range(0, n), FullySorted)]
    ensures n > 0 ==> IndicesIn(t, n)
    ensures n == 0 ==> !IndicesIn(t, 0)
    ensures Marks(t[..|t| - 1]) == Countdown(n - 1) + [0]
    ensures t[|t| - 1] == Noted(Sorted, Range(0, n), FullySorted)
  {
    TraceMarks(t, bs, es, n);
    if n > 0 {
      BodyIndices(Mk(Highlight, Range(0, n)), bs, es, [Mk(Sorted, [0]), Noted(Sorted, Range(0, n), FullySorted)], n);
    } else {
      NamesZero(t, |t| - 2);
    }
  }

  lemma TraceMarks(t: seq<Step>, bs: seq<Step>, es: seq<Step>, n: nat)
    requires Marks(bs) == [] && Marks(es) == Countdown(n - 1)
    requires t == [Mk(Highlight, Range(0, n))] + bs + es + [Mk(Sorted, [0]), Noted(Sorted, Range(0, n), FullySorted)]
    ensures Marks(t[..|t| - 1]) == Countdown(n - 1) + [0]
  {
    var hl, s0 := Mk(Highlight, Range(0, n)), Mk(Sorted, [0]);
    assert t[..|t| - 1] == [hl] + bs + es + [s0];
    BodyMarks(hl, bs, es, s0, n);
  }

  lemma NamesZero(t: seq<Step>, p: int)
    requires 0 <= p < |t| && t[p] == Mk(Sorted, [0])
    ensures !IndicesIn(t, 0)
  {
    assert t[p].indices[0] == 0;
  }

  lemma BodyMarks(x: Step, bs: seq<Step>, es: seq<Step>, s0: Step, n: int)
    requires x.kind != Sorted && s0 == Mk(Sorted, [0]) && Marks(bs) == [] && Marks(es) == Countdown(n - 1)
    ensures Marks([x] + bs + es + [s0]) == Countdown(n - 1) + [0]
  {
    MarksOne(x);
    MarksOne(s0);
    MarksAppend([x], bs);
    MarksAppend([x] + bs, es);
    MarksAppend([x] + bs + es, [s0]);
  }

  lemma BodyIndices(x: Step, bs: seq<Step>, es: seq<Step>, tail: seq<Step>, n: int)
    requires IndicesBetween([x], 0, n - 1) && IndicesBetween(bs, 0, n - 1)
    requires IndicesBetween(es, 0, n - 1) && IndicesBetween(tail, 0, n - 1)
    ensures IndicesIn([x] + bs + es + tail, n)
  {
    IndicesBetweenAppend([x], bs, 0, n - 1);
    IndicesBetweenAppend([x] + bs, es, 0, n - 1);
    IndicesBetweenAppend([x] + bs + es, tail, 0, n - 1);
  }
}
