/** Quick sort trace generator (src/core/algorithms/quickSort.ts): Lomuto partition
    with the last element of the range as pivot. */
module Quick {
  import opened Steps

  /** What `partition` leaves: the array, its steps and the returned pivot index. */
  datatype Part = Part(arr: seq<int>, steps: seq<Step>, pi: int)

  /** The iterations j, ..., high - 1 of the `for` loop of `partition(arr, low, high)`
      and what follows it, from array a with boundary i: per iteration a compare
      [j, high] and, when a[j] < pivot, i++ and a swap [i, j]; after the loop the
      pivot swapped to i + 1 with a swap step [i + 1, high] and `sorted [i + 1]`. */
  function PartitionFrom(a: seq<int>, low: int, high: int, pivot: int, i: int, j: int): (r: Part)
    requires 0 <= low <= j <= high < |a| && low - 1 <= i < j
    ensures |r.arr| == |a| && low <= r.pi <= high
    decreases high - j
  {
    if j == high then
      Part(SwapAt(a, i + 1, high), [Mk(Swap, [i + 1, high]), Mk(Sorted, [i + 1])], i + 1)
    else if a[j] < pivot then
      var r := PartitionFrom(SwapAt(a, i + 1, j), low, high, pivot, i + 1, j + 1);
      Part(r.arr, [Mk(Compare, [j, high]), Mk(Swap, [i + 1, j])] + r.steps, r.pi)
    else
      var r := PartitionFrom(a, low, high, pivot, i, j + 1);
      Part(r.arr, [Mk(Compare, [j, high])] + r.steps, r.pi)
  }

  /** `partition(arr, low, high)`: the pivot a[high] highlighted, then the loop from
      j = low with i = low - 1. */
  function PartitionAt(a: seq<int>, low: int, high: int): (r: Part)
    requires 0 <= low <= high < |a|
    ensures |r.arr| == |a| && low <= r.pi <= high
  {
    var r := PartitionFrom(a, low, high, a[high], low - 1, low);
    Part(r.arr, [Mk(Highlight, [high])] + r.steps, r.pi)
  }

  /** `quickSortRecursive(arr, low, high)`: for low < high a highlight with no indices,
      the partition, then both sides; a single element is marked sorted; an empty
      range emits nothing. */
  function QuickRange(a: seq<int>, low: int, high: int): (r: SortRun)
    requires 0 <= low && high < |a| && low <= high + 1
    ensures |r.arr| == |a|
    decreases high - low, 1
  {
    if low < high then QuickSplit(a, low, high)
    else if low == high then SortRun(a, [Mk(Sorted, [low])])
    else SortRun(a, [])
  }

  function QuickSplit(a: seq<int>, low: int, high: int): (r: SortRun)
    requires 0 <= low < high < |a|
    ensures |r.arr| == |a|
    decreases high - low, 0
  {
    var p := PartitionAt(a, low, high);
    var left := QuickRange(p.arr, low, p.pi - 1);
    var right := QuickRange(left.arr, p.pi + 1, high);
    SortRun(right.arr, [Mk(Highlight, [])] + p.steps + left.steps + right.steps)
  }

  /** A partition result with steps s emitted before it. */
  function Prepend(s: seq<Step>, r: Part): Part {
    Part(r.arr, s + r.steps, r.pi)
  }

  lemma PrependOne(s: seq<Step>, x: Step, r: Part)
    ensures Prepend(s, Part(r.arr, [x] + r.steps, r.pi)) == Prepend(s + [x], r)
  {
    assert s + ([x] + r.steps) == (s + [x]) + r.steps;
  }

  lemma PrependPair(s: seq<Step>, x: Step, y: Step, r: Part)
    ensures Prepend(s, Part(r.arr, [x, y] + r.steps, r.pi)) == Prepend(s + [x] + [y], r)
  {
    assert s + ([x, y] + r.steps) == (s + [x] + [y]) + r.steps;
  }

  /** The trace `quickSort(array)` yields: the recursion over [0, n-1], then one
      `sorted` step over every index, tagged "Array is fully sorted". */
  function QuickSortTrace(a: seq<int>): seq<Step> {
    QuickRange(a, 0, |a| - 1).steps + [Noted(Sorted, Range(0, |a|), FullySorted)]
  }

  /** `partition` on the private array. */
  method Partition(arr: array<int>, low: int, high: int) returns (pi: int, steps: seq<Step>)
    requires 0 <= low <= high < arr.Length
    modifies arr
    ensures PartitionAt(old(arr[..]), low, high) == Part(arr[..], steps, pi)
  {
    ghost var a0 := arr[..];
    var pivot := arr[high];
    steps := [Mk(Highlight, [high])];
    var i := low - 1;
    for j := low to high
      invariant low - 1 <= i < j
      invariant PartitionAt(a0, low, high) == Prepend(steps, PartitionFrom(arr[..], low, high, pivot, i, j))
    {
      ghost var cur := arr[..];
      ghost var s0 := steps;
      steps := steps + [Mk(Compare, [j, high])];
      if arr[j] < pivot {
        i := i + 1;
        arr[i], arr[j] := arr[j], arr[i];
        assert arr[..] == SwapAt(cur, i, j);
        steps := steps + [Mk(Swap, [i, j])];
        PrependPair(s0, Mk(Compare, [j, high]), Mk(Swap, [i, j]), PartitionFrom(arr[..], low, high, pivot, i, j + 1));
      } else {
        PrependOne(s0, Mk(Compare, [j, high]), PartitionFrom(arr[..], low, high, pivot, i, j + 1));
      }
    }
    ghost var cur := arr[..];
    arr[i + 1], arr[high] := arr[high], arr[i + 1];
    assert arr[..] == SwapAt(cur, i + 1, high);
    steps := steps + [Mk(Swap, [i + 1, high])];
    steps := steps + [Mk(Sorted, [i + 1])];
    pi := i + 1;
  }

  /** `quickSortRecursive` on the private array. */
  method QuickSortRecursive(arr: array<int>, low: int, high: int) returns (steps: seq<Step>)
    requires 0 <= low && high < arr.Length && low <= high + 1
    modifies arr
    ensures QuickRange(old(arr[..]), low, high) == SortRun(arr[..], steps)
    decreases high - low
  {
    if low < high {
      ghost var a0 := arr[..];
      steps := [Mk(Highlight, [])];
      var pi, partSteps := Partition(arr, low, high);
      ghost var a1 := arr[..];
      steps := steps + partSteps;
      var leftSteps := QuickSortRecursive(arr, low, pi - 1);
      ghost var a2 := arr[..];
      steps := steps + leftSteps;
      var rightSteps := QuickSortRecursive(arr, pi + 1, high);
      steps := steps + rightSteps;
    } else if low == high {
      steps := [Mk(Sorted, [low])];
    } else {
      steps := [];
    }
  }

  /** The generator: sort a private copy, then mark the whole range sorted. */
  method QuickSort(input: seq<int>) returns (steps: seq<Step>)
    ensures steps == QuickSortTrace(input)
  {
    var arr := new int[|input|](k requires 0 <= k < |input| => input[k]);
    assert arr[..] == input;
    steps := QuickSortRecursive(arr, 0, arr.Length - 1);
    steps := steps + [Noted(Sorted, Range(0, arr.Length), FullySorted)];
  }
}

module QuickFacts {
  import opened Steps
  import opened Quick

  /** b is split around position p by pivot: [low, p) below it, b[p] the pivot itself,
      (p, high] not below it. */
  ghost predicate Partitioned(b: seq<int>, low: int, high: int, p: int, pivot: int) {
    0 <= low <= p <= high < |b| && b[p] == pivot &&
    (forall k :: low <= k < p ==> b[k] < pivot) &&
    (forall k :: p < k <= high ==> b[k] >= pivot)
  }

  /** What the `for` loop of `partition` keeps, relative to the array a0 it started
      from: [low, i] below the pivot, (i, j) not below it, the pivot still at high,
      and a0 permuted within [low, high]. */
  ghost predicate ScanInv(a0: seq<int>, a: seq<int>, low: int, high: int, pivot: int, i: int, j: int) {
    0 <= low <= j <= high < |a| && low - 1 <= i < j && a[high] == pivot &&
    (forall k :: low <= k <= i ==> a[k] < pivot) &&
    (forall k :: i < k < j ==> a[k] >= pivot) &&
    SameOutside(a0, a, low, high) && multiset(a) == multiset(a0)
  }

  /** An element below the pivot joins [low, i] by the swap with position i + 1. */
  lemma ScanTakes(a0: seq<int>, a: seq<int>, low: int, high: int, pivot: int, i: int, j: int)
    requires ScanInv(a0, a, low, high, pivot, i, j) && j < high && a[j] < pivot
    ensures ScanInv(a0, SwapAt(a, i + 1, j), low, high, pivot, i + 1, j + 1)
  {
    var b := SwapAt(a, i + 1, j);
    SwapAtPermutes(a, i + 1, j);
    assert forall k :: i + 1 < k < j + 1 ==> b[k] >= pivot by {
      forall k | i + 1 < k < j + 1 ensures b[k] >= pivot {
        if k == j {
          assert b[j] == a[i + 1];
        }
      }
    }
  }

  /** The pivot swap after the loop leaves [low, high] partitioned at i + 1. */
  lemma ScanEnds(a0: seq<int>, a: seq<int>, low: int, high: int, pivot: int, i: int)
    requires ScanInv(a0, a, low, high, pivot, i, high)
    ensures Partitioned(SwapAt(a, i + 1, high), low, high, i + 1, pivot)
    ensures SameOutside(a0, SwapAt(a, i + 1, high), low, high)
    ensures multiset(SwapAt(a, i + 1, high)) == multiset(a0)
  {
    var b := SwapAt(a, i + 1, high);
    SwapAtPermutes(a, i + 1, high);
    assert forall k :: i + 1 < k <= high ==> b[k] >= pivot by {
      forall k | i + 1 < k <= high ensures b[k] >= pivot {
        if k == high {
          assert b[high] == a[i + 1];
        }
      }
    }
  }

  lemma {:induction false} PartitionFromSplits(a0: seq<int>, a: seq<int>, low: int, high: int, pivot: int, i: int, j: int)
    requires ScanInv(a0, a, low, high, pivot, i, j)
    ensures Partitioned(PartitionFrom(a, low, high, pivot, i, j).arr, low, high, PartitionFrom(a, low, high, pivot, i, j).pi, pivot)
    ensures SameOutside(a0, PartitionFrom(a, low, high, pivot, i, j).arr, low, high)
    ensures multiset(PartitionFrom(a, low, high, pivot, i, j).arr) == multiset(a0)
    decreases high - j
  {
    if j == high {
      ScanEnds(a0, a, low, high, pivot, i);
    } else if a[j] < pivot {
      ScanTakes(a0, a, low, high, pivot, i, j);
      PartitionFromSplits(a0, SwapAt(a, i + 1, j), low, high, pivot, i + 1, j + 1);
    } else {
      PartitionFromSplits(a0, a, low, high, pivot, i, j + 1);
    }
  }

  /** `partition` returns p in [low, high] with the pivot at p, everything before it in
      [low, p) smaller and everything in (p, high] at least as large; it moves elements
      only within [low, high] and permutes the array. */
  lemma PartitionSplits(a: seq<int>, low: int, high: int)
    requires 0 <= low <= high < |a|
    ensures Partitioned(PartitionAt(a, low, high).arr, low, high, PartitionAt(a, low, high).pi, a[high])
    ensures SameOutside(a, PartitionAt(a, low, high).arr, low, high)
    ensures multiset(PartitionAt(a, low, high).arr) == multiset(a)
  {
    PartitionFromSplits(a, a, low, high, a[high], low - 1, low);
  }

  /** Bounds on every element of [lo, hi] survive a permutation of [lo, hi]. */
  lemma BoundsKept(a: seq<int>, b: seq<int>, lo: int, hi: int, pivot: int)
    requires 0 <= lo <= hi + 1 <= |a| && SameOutside(a, b, lo, hi) && multiset(b) == multiset(a)
    ensures (forall k :: lo <= k <= hi ==> a[k] < pivot) ==> (forall k :: lo <= k <= hi ==> b[k] < pivot)
    ensures (forall k :: lo <= k <= hi ==> a[k] >= pivot) ==> (forall k :: lo <= k <= hi ==> b[k] >= pivot)
  {
    PermutedRange(a, b, lo, hi);
  }

  /** Partitioning [low, high] at p, sorting [low, p-1] and then [p+1, high] sorts
      [low, high] and keeps the rest. */
  lemma QuickCompose(a: seq<int>, b1: seq<int>, b2: seq<int>, b3: seq<int>, low: int, p: int, high: int, pivot: int)
    requires Partitioned(b1, low, high, p, pivot) && SameOutside(a, b1, low, high) && multiset(b1) == multiset(a)
    requires SortsRange(b1, b2, low, p - 1) && SortsRange(b2, b3, p + 1, high)
    ensures SortsRange(a, b3, low, high)
  {
    BoundsKept(b1, b2, low, p - 1, pivot);
    assert forall k :: p < k <= high ==> b2[k] >= pivot by {
      forall k | p < k <= high ensures b2[k] >= pivot {
        assert b2[k] == b1[k];
      }
    }
    BoundsKept(b2, b3, p + 1, high, pivot);
    assert forall k :: low <= k < p ==> b3[k] < pivot;
    assert forall k :: p < k <= high ==> b3[k] >= pivot;
    assert b3[p] == pivot;
    forall x, y | low <= x < y <= high ensures b3[x] <= b3[y] {
      if y < p {
        assert b3[x] == b2[x] && b3[y] == b2[y];
      }
    }
  }

  /** `quickSortRecursive(arr, low, high)` sorts [low, high] in place, keeps every other
      position and permutes the array. */
  lemma {:induction false} QuickSortsRange(a: seq<int>, low: int, high: int)
    requires 0 <= low && high < |a| && low <= high + 1
    ensures SortsRange(a, QuickRange(a, low, high).arr, low, high)
    decreases high - low
  {
    if low < high {
      var p := PartitionAt(a, low, high);
      PartitionSplits(a, low, high);
      QuickSortsRange(p.arr, low, p.pi - 1);
      var left := QuickRange(p.arr, low, p.pi - 1);
      var right := QuickRange(left.arr, p.pi + 1, high);
      QuickSortsRange(left.arr, p.pi + 1, high);
      QuickCompose(a, p.arr, left.arr, right.arr, low, p.pi, high, a[high]);
      assert QuickRange(a, low, high).arr == right.arr;
    }
  }

  /** Replaying the swap steps of the loop and the pivot swap reproduces the array
      `partition` leaves. */
  lemma {:induction false} PartitionFromReplay(a: seq<int>, low: int, high: int, pivot: int, i: int, j: int)
    requires 0 <= low <= j <= high < |a| && low - 1 <= i < j
    ensures ReplaySwaps(a, PartitionFrom(a, low, high, pivot, i, j).steps) == PartitionFrom(a, low, high, pivot, i, j).arr
    decreases high - j
  {
    var c := Mk(Compare, [j, high]);
    if j == high {
      ReplaySwapsThen(a, i + 1, high, Mk(Sorted, [i + 1]));
    } else if a[j] < pivot {
      var b := SwapAt(a, i + 1, j);
      var r := PartitionFrom(b, low, high, pivot, i + 1, j + 1);
      PartitionFromReplay(b, low, high, pivot, i + 1, j + 1);
      ReplaySwapsPair(a, c, i + 1, j);
      ReplaySwapsAppend(a, [c, Mk(Swap, [i + 1, j])], r.steps);
    } else {
      var r := PartitionFrom(a, low, high, pivot, i, j + 1);
      PartitionFromReplay(a, low, high, pivot, i, j + 1);
      ReplaySwapsOne(a, c);
      ReplaySwapsAppend(a, [c], r.steps);
    }
  }

  lemma PartitionReplay(a: seq<int>, low: int, high: int)
    requires 0 <= low <= high < |a|
    ensures ReplaySwaps(a, PartitionAt(a, low, high).steps) == PartitionAt(a, low, high).arr
  {
    var h := Mk(Highlight, [high]);
    var r := PartitionFrom(a, low, high, a[high], low - 1, low);
    PartitionFromReplay(a, low, high, a[high], low - 1, low);
    ReplaySwapsOne(a, h);
    ReplaySwapsAppend(a, [h], r.steps);
  }

  /** A step that is not a swap, then three runs each replaying onto the next array. */
  lemma ReplayChain(a: seq<int>, x: Step, s1: seq<Step>, b1: seq<int>, s2: seq<Step>, b2: seq<int>, s3: seq<Step>, b3: seq<int>)
    requires x.kind != Swap
    requires ReplaySwaps(a, s1) == b1 && ReplaySwaps(b1, s2) == b2 && ReplaySwaps(b2, s3) == b3
    ensures ReplaySwaps(a, [x] + s1 + s2 + s3) == b3
  {
    ReplaySwapsOne(a, x);
    ReplaySwapsAppend(a, [x], s1);
    ReplaySwapsAppend(a, [x] + s1, s2);
    ReplaySwapsAppend(a, [x] + s1 + s2, s3);
  }

  /** Replaying the swap steps of `quickSortRecursive(arr, low, high)` reproduces the
      array it leaves: every change to the copy is announced by a swap step. */
  lemma {:induction false} QuickReplay(a: seq<int>, low: int, high: int)
    requires 0 <= low && high < |a| && low <= high + 1
    ensures ReplaySwaps(a, QuickRange(a, low, high).steps) == QuickRange(a, low, high).arr
    decreases high - low
  {
    if low < high {
      var p := PartitionAt(a, low, high);
      PartitionReplay(a, low, high);
      var left := QuickRange(p.arr, low, p.pi - 1);
      QuickReplay(p.arr, low, p.pi - 1);
      var right := QuickRange(left.arr, p.pi + 1, high);
      QuickReplay(left.arr, p.pi + 1, high);
      ReplayChain(a, Mk(Highlight, []), p.steps, p.arr, left.steps, left.arr, right.steps, right.arr);
    } else if low == high {
      ReplaySwapsOne(a, Mk(Sorted, [low]));
    }
  }

  lemma {:induction false} PartitionFromMarks(a: seq<int>, low: int, high: int, pivot: int, i: int, j: int)
    requires 0 <= low <= j <= high < |a| && low - 1 <= i < j
    ensures Marks(PartitionFrom(a, low, high, pivot, i, j).steps) == [PartitionFrom(a, low, high, pivot, i, j).pi]
    decreases high - j
  {
    var c := Mk(Compare, [j, high]);
    if j == high {
      var x, y := Mk(Swap, [i + 1, high]), Mk(Sorted, [i + 1]);
      assert [x, y] == [x] + [y];
      MarksAppend([x], [y]);
      assert [y][1..] == [] && [x][1..] == [];
    } else if a[j] < pivot {
      var r := PartitionFrom(SwapAt(a, i + 1, j), low, high, pivot, i + 1, j + 1);
      PartitionFromMarks(SwapAt(a, i + 1, j), low, high, pivot, i + 1, j + 1);
      var x := Mk(Swap, [i + 1, j]);
      assert [c, x][1..] == [x];
      MarksAppend([c, x], r.steps);
    } else {
      var r := PartitionFrom(a, low, high, pivot, i, j + 1);
      PartitionFromMarks(a, low, high, pivot, i, j + 1);
      MarksAppend([c], r.steps);
    }
  }

  /** The only `sorted` step of `partition` marks the index it returns. */
  lemma PartitionMarks(a: seq<int>, low: int, high: int)
    requires 0 <= low <= high < |a|
    ensures Marks(PartitionAt(a, low, high).steps) == [PartitionAt(a, low, high).pi]
  {
    var r := PartitionFrom(a, low, high, a[high], low - 1, low);
    PartitionFromMarks(a, low, high, a[high], low - 1, low);
    MarksAppend([Mk(Highlight, [high])], r.steps);
  }

  /** The `sorted` steps of steps mark exactly the indices of [lo, hi], one step per
      index, so each of them once. */
  ghost predicate MarksOnce(steps: seq<Step>, lo: int, hi: int) {
    |Marks(steps)| == hi - lo + 1 && forall k :: k in Marks(steps) <==> lo <= k <= hi
  }

  lemma MarksChain(x: Step, s1: seq<Step>, s2: seq<Step>, s3: seq<Step>, lo: int, p: int, hi: int)
    requires x.kind != Sorted && lo <= p <= hi && Marks(s1) == [p]
    requires MarksOnce(s2, lo, p - 1) && MarksOnce(s3, p + 1, hi)
    ensures MarksOnce([x] + s1 + s2 + s3, lo, hi)
  {
    MarksAppend([x], s1);
    MarksAppend([x] + s1, s2);
    MarksAppend([x] + s1 + s2, s3);
    assert Marks([x]) == [] by {
      assert [x][1..] == [];
    }
    var m2, m3 := Marks(s2), Marks(s3);
    var m := Marks([x] + s1 + s2 + s3);
    assert m == [p] + m2 + m3;
    forall k ensures k in m <==> lo <= k <= hi {
      assert k in m <==> k == p || k in m2 || k in m3;
    }
  }

  /** Every index of [low, high] is marked sorted exactly once: the pivots by their
      partitions, the single-element ranges by `sorted [low]`. */
  lemma {:induction false} QuickMarks(a: seq<int>, low: int, high: int)
    requires 0 <= low && high < |a| && low <= high + 1
    ensures MarksOnce(QuickRange(a, low, high).steps, low, high)
    decreases high - low
  {
    if low < high {
      var p := PartitionAt(a, low, high);
      PartitionMarks(a, low, high);
      var left := QuickRange(p.arr, low, p.pi - 1);
      QuickMarks(p.arr, low, p.pi - 1);
      var right := QuickRange(left.arr, p.pi + 1, high);
      QuickMarks(left.arr, p.pi + 1, high);
      MarksChain(Mk(Highlight, []), p.steps, left.steps, right.steps, low, p.pi, high);
    } else if low == high {
      assert Marks([Mk(Sorted, [low])]) == [low] by {
        assert [Mk(Sorted, [low])][1..] == [];
      }
    }
  }

  lemma BetweenPair(x: Step, y: Step, lo: int, hi: int)
    requires IndicesBetween([x], lo, hi) && IndicesBetween([y], lo, hi)
    ensures IndicesBetween([x, y], lo, hi)
  {
    assert [x, y] == [x] + [y];
    IndicesBetweenAppend([x], [y], lo, hi);
  }

  lemma {:induction false} PartitionFromBetween(a: seq<int>, low: int, high: int, pivot: int, i: int, j: int)
    requires 0 <= low <= j <= high < |a| && low - 1 <= i < j
    ensures IndicesBetween(PartitionFrom(a, low, high, pivot, i, j).steps, low, high)
    decreases high - j
  {
    var c := Mk(Compare, [j, high]);
    assert IndicesBetween([c], low, high);
    if j == high {
      var x, y := Mk(Swap, [i + 1, high]), Mk(Sorted, [i + 1]);
      assert IndicesBetween([x], low, high) && IndicesBetween([y], low, high);
      BetweenPair(x, y, low, high);
    } else if a[j] < pivot {
      var r := PartitionFrom(SwapAt(a, i + 1, j), low, high, pivot, i + 1, j + 1);
      PartitionFromBetween(SwapAt(a, i + 1, j), low, high, pivot, i + 1, j + 1);
      var x := Mk(Swap, [i + 1, j]);
      assert IndicesBetween([x], low, high);
      BetweenPair(c, x, low, high);
      IndicesBetweenAppend([c, x], r.steps, low, high);
    } else {
      var r := PartitionFrom(a, low, high, pivot, i, j + 1);
      PartitionFromBetween(a, low, high, pivot, i, j + 1);
      IndicesBetweenAppend([c], r.steps, low, high);
    }
  }

  /** Every compare, swap, highlight and sorted step of `partition(arr, low, high)`
      names indices in [low, high]. */
  lemma PartitionBetween(a: seq<int>, low: int, high: int)
    requires 0 <= low <= high < |a|
    ensures IndicesBetween(PartitionAt(a, low, high).steps, low, high)
  {
    var h := Mk(Highlight, [high]);
    var r := PartitionFrom(a, low, high, a[high], low - 1, low);
    PartitionFromBetween(a, low, high, a[high], low - 1, low);
    assert IndicesBetween([h], low, high);
    IndicesBetweenAppend([h], r.steps, low, high);
  }

  lemma BetweenChain(x: Step, s1: seq<Step>, s2: seq<Step>, s3: seq<Step>, lo: int, p: int, hi: int)
    requires x.indices == [] && lo <= p <= hi && IndicesBetween(s1, lo, hi)
    requires IndicesBetween(s2, lo, p - 1) && IndicesBetween(s3, p + 1, hi)
    ensures IndicesBetween([x] + s1 + s2 + s3, lo, hi)
  {
    assert IndicesBetween([x], lo, hi);
    assert IndicesBetween(s2, lo, hi) && IndicesBetween(s3, lo, hi);
    IndicesBetweenAppend([x], s1, lo, hi);
    IndicesBetweenAppend([x] + s1, s2, lo, hi);
    IndicesBetweenAppend([x] + s1 + s2, s3, lo, hi);
  }

  /** `quickSortRecursive(arr, low, high)` names only indices in [low, high]. */
  lemma {:induction false} QuickBetween(a: seq<int>, low: int, high: int)
    requires 0 <= low && high < |a| && low <= high + 1
    ensures IndicesBetween(QuickRange(a, low, high).steps, low, high)
    decreases high - low
  {
    if low < high {
      var p := PartitionAt(a, low, high);
      PartitionBetween(a, low, high);
      var left := QuickRange(p.arr, low, p.pi - 1);
      QuickBetween(p.arr, low, p.pi - 1);
      var right := QuickRange(left.arr, p.pi + 1, high);
      QuickBetween(left.arr, p.pi + 1, high);
      BetweenChain(Mk(Highlight, []), p.steps, left.steps, right.steps, low, p.pi, high);
    } else if low == high {
      assert IndicesBetween([Mk(Sorted, [low])], low, high);
    }
  }

  /** compare [lo, hi], compare [lo + 1, hi], ..., compare [hi - 1, hi]. */
  function CompareEach(lo: int, hi: int): (r: seq<Step>)
    ensures |r| == if lo <= hi then hi - lo else 0
    ensures forall k :: 0 <= k < |r| ==> r[k] == Mk(Compare, [lo + k, hi])
    decreases hi - lo
  {
    if lo >= hi then [] else [Mk(Compare, [lo, hi])] + CompareEach(lo + 1, hi)
  }

  /** How many elements of s are below pivot. */
  function CountBelow(s: seq<int>, pivot: int): (c: nat)
    ensures c <= |s|
  {
    if s == [] then 0 else (if s[0] < pivot then 1 else 0) + CountBelow(s[1..], pivot)
  }

  /** The steps of the loop of `partition` and of the pivot swap after it: compares and
      swaps only, then swap [p, high] and `sorted [p]`. */
  ghost predicate ScanShape(steps: seq<Step>, p: int, high: int) {
    |steps| >= 2 && steps[|steps| - 2] == Mk(Swap, [p, high]) && steps[|steps| - 1] == Mk(Sorted, [p]) &&
    forall t :: 0 <= t < |steps| - 2 ==> steps[t].kind == Compare || steps[t].kind == Swap
  }

  lemma ShapeCons(x: Step, rest: seq<Step>, p: int, high: int)
    requires ScanShape(rest, p, high) && (x.kind == Compare || x.kind == Swap)
    ensures ScanShape([x] + rest, p, high)
  {
    var s := [x] + rest;
    forall t | 1 <= t < |s| ensures s[t] == rest[t - 1] {
    }
  }

  lemma {:induction false} PartitionFromShape(a: seq<int>, low: int, high: int, pivot: int, i: int, j: int)
    requires 0 <= low <= j <= high < |a| && low - 1 <= i < j
    ensures ScanShape(PartitionFrom(a, low, high, pivot, i, j).steps, PartitionFrom(a, low, high, pivot, i, j).pi, high)
    decreases high - j
  {
    var c := Mk(Compare, [j, high]);
    if j < high && a[j] < pivot {
      var r := PartitionFrom(SwapAt(a, i + 1, j), low, high, pivot, i + 1, j + 1);
      PartitionFromShape(SwapAt(a, i + 1, j), low, high, pivot, i + 1, j + 1);
      var x := Mk(Swap, [i + 1, j]);
      ShapeCons(x, r.steps, r.pi, high);
      ShapeCons(c, [x] + r.steps, r.pi, high);
      assert [c] + ([x] + r.steps) == [c, x] + r.steps;
    } else if j < high {
      var r := PartitionFrom(a, low, high, pivot, i, j + 1);
      PartitionFromShape(a, low, high, pivot, i, j + 1);
      ShapeCons(c, r.steps, r.pi, high);
    }
  }

  lemma OfKindPair(x: Step, y: Step, rest: seq<Step>, k: Kind)
    ensures OfKind([x, y] + rest, k) == OfKind([x], k) + OfKind([y], k) + OfKind(rest, k)
  {
    assert [x, y] == [x] + [y];
    OfKindAppend([x, y], rest, k);
    OfKindAppend([x], [y], k);
  }

  lemma OfKindOne(x: Step, k: Kind)
    ensures OfKind([x], k) == if x.kind == k then [x] else []
  {
    assert [x][1..] == [];
  }

  /** From position j on, the loop of `partition` emits compare [j, high], ...,
      compare [high - 1, high], and one swap per element of a[j..high) below the pivot
      plus the pivot swap. */
  lemma {:induction false} PartitionFromCounts(a: seq<int>, low: int, high: int, pivot: int, i: int, j: int)
    requires 0 <= low <= j <= high < |a| && low - 1 <= i < j
    ensures OfKind(PartitionFrom(a, low, high, pivot, i, j).steps, Compare) == CompareEach(j, high)
    ensures |OfKind(PartitionFrom(a, low, high, pivot, i, j).steps, Swap)| == CountBelow(a[j..high], pivot) + 1
    decreases high - j
  {
    var c := Mk(Compare, [j, high]);
    OfKindOne(c, Compare);
    OfKindOne(c, Swap);
    if j == high {
      var x, y := Mk(Swap, [i + 1, high]), Mk(Sorted, [i + 1]);
      OfKindPair(x, y, [], Compare);
      OfKindPair(x, y, [], Swap);
      OfKindOne(x, Compare);
      OfKindOne(x, Swap);
      OfKindOne(y, Compare);
      OfKindOne(y, Swap);
      assert [x, y] + [] == [x, y];
    } else {
      assert a[j..high] == [a[j]] + a[j + 1..high];
      if a[j] < pivot {
        var b := SwapAt(a, i + 1, j);
        var r := PartitionFrom(b, low, high, pivot, i + 1, j + 1);
        PartitionFromCounts(b, low, high, pivot, i + 1, j + 1);
        assert b[j + 1..high] == a[j + 1..high];
        var x := Mk(Swap, [i + 1, j]);
        OfKindPair(c, x, r.steps, Compare);
        OfKindPair(c, x, r.steps, Swap);
        OfKindOne(x, Compare);
        OfKindOne(x, Swap);
      } else {
        var r := PartitionFrom(a, low, high, pivot, i, j + 1);
        PartitionFromCounts(a, low, high, pivot, i, j + 1);
        OfKindAppend([c], r.steps, Compare);
        OfKindAppend([c], r.steps, Swap);
      }
    }
  }

  /** `partition(arr, low, high)` emits highlight [high], then compares and swaps among
      which exactly the compares [low, high], ..., [high - 1, high] in that order and one
      swap per element of arr[low..high) below the pivot, then swap [p, high] and
      `sorted [p]` for the index p it returns. */
  lemma PartitionShape(a: seq<int>, low: int, high: int)
    requires 0 <= low <= high < |a|
    ensures PartitionAt(a, low, high).steps[0] == Mk(Highlight, [high])
    ensures ScanShape(PartitionAt(a, low, high).steps[1..], PartitionAt(a, low, high).pi, high)
    ensures OfKind(PartitionAt(a, low, high).steps, Compare) == CompareEach(low, high)
    ensures |OfKind(PartitionAt(a, low, high).steps, Swap)| == CountBelow(a[low..high], a[high]) + 1
  {
    var h := Mk(Highlight, [high]);
    var r := PartitionFrom(a, low, high, a[high], low - 1, low);
    PartitionFromShape(a, low, high, a[high], low - 1, low);
    PartitionFromCounts(a, low, high, a[high], low - 1, low);
    assert ([h] + r.steps)[1..] == r.steps;
    OfKindOne(h, Compare);
    OfKindOne(h, Swap);
    OfKindAppend([h], r.steps, Compare);
    OfKindAppend([h], r.steps, Swap);
  }

  lemma SortedThenFinal(a: seq<int>, body: seq<Step>, b: seq<int>, last: Step)
    requires ReplaySwaps(a, body) == b && SortsRange(a, b, 0, |a| - 1) && last.kind != Swap
    ensures Ascending(ReplaySwaps(a, body + [last])) && multiset(ReplaySwaps(a, body + [last])) == multiset(a)
  {
    ReplaySwapsAppend(a, body, [last]);
    ReplaySwapsOne(b, last);
  }

  /** Replaying the swap steps of the quick sort trace on the input yields its ascending
      permutation. */
  lemma QuickSortSorts(a: seq<int>)
    ensures Ascending(ReplaySwaps(a, QuickSortTrace(a)))
    ensures multiset(ReplaySwaps(a, QuickSortTrace(a))) == multiset(a)
  {
    var r := QuickRange(a, 0, |a| - 1);
    QuickReplay(a, 0, |a| - 1);
    QuickSortsRange(a, 0, |a| - 1);
    SortedThenFinal(a, r.steps, r.arr, Noted(Sorted, Range(0, |a|), FullySorted));
  }

  lemma ShapeThenFinal(body: seq<Step>, n: nat)
    requires IndicesBetween(body, 0, n - 1) && MarksOnce(body, 0, n - 1)
    ensures IndicesIn(body + [Noted(Sorted, Range(0, n), FullySorted)], n)
    ensures MarksOnce((body + [Noted(Sorted, Range(0, n), FullySorted)])[..|body|], 0, n - 1)
  {
    var last := Noted(Sorted, Range(0, n), FullySorted);
    assert IndicesIn(body, n);
    assert IndicesIn([last], n);
    IndicesInAppend(body, [last], n);
    assert (body + [last])[..|body|] == body;
  }

  /** The quick sort trace names only indices in [0, n); before its last step it marks
      every index sorted exactly once, and its last step is `sorted` over all indices
      0, ..., n-1, tagged "Array is fully sorted". */
  lemma QuickSortShape(a: seq<int>)
    ensures IndicesIn(QuickSortTrace(a), |a|)
    ensures MarksOnce(QuickSortTrace(a)[..|QuickSortTrace(a)| - 1], 0, |a| - 1)
    ensures QuickSortTrace(a)[|QuickSortTrace(a)| - 1] == Noted(Sorted, Range(0, |a|), FullySorted)
  {
    var r := QuickRange(a, 0, |a| - 1);
    QuickBetween(a, 0, |a| - 1);
    QuickMarks(a, 0, |a| - 1);
    ShapeThenFinal(r.steps, |a|);
  }
}
