/** Bubble sort trace generator (src/core/algorithms/bubbleSort.ts). */
module Bubble {
  import opened Steps

  /** What the inner loop of pass i does from position j on: the array after it,
      whether it swapped anything, and the steps it emitted. */
  datatype PassResult = PassResult(arr: seq<int>, swapped: bool, steps: seq<Step>)

  /** The inner loop of pass i, from j to n - i - 2: compare [j, j+1], and swap the
      pair when arr[j] > arr[j+1]. */
  function PassRun(a: seq<int>, i: nat, j: nat): (r: PassResult)
    requires i + 1 < |a| && j <= |a| - i - 1
    ensures |r.arr| == |a|
    decreases |a| - i - 1 - j
  {
    if j == |a| - i - 1 then PassResult(a, false, [])
    else if a[j] > a[j + 1] then
      var rest := PassRun(SwapAt(a, j, j + 1), i, j + 1);
      PassResult(rest.arr, true, [Mk(Compare, [j, j + 1]), Mk(Swap, [j, j + 1])] + rest.steps)
    else
      var rest := PassRun(a, i, j + 1);
      PassResult(rest.arr, rest.swapped, [Mk(Compare, [j, j + 1])] + rest.steps)
  }

  /** The outer loop from pass i on; `swapped` is the flag left by the previous pass. */
  function BubbleRun(a: seq<int>, i: nat, swapped: bool): (r: SortRun)
    ensures |r.arr| == |a|
    decreases |a| - i
  {
    var n := |a|;
    if i + 1 >= n then SortRun(a, if swapped then [Mk(Sorted, [0])] else [])
    else
      var p := PassRun(a, i, 0);
      var marked := p.steps + [Mk(Sorted, [n - i - 1])];
      if !p.swapped then SortRun(p.arr, marked + MarkEach(0, n - i - 1))
      else
        var rest := BubbleRun(p.arr, i + 1, true);
        SortRun(rest.arr, marked + rest.steps)
  }

  /** The trace `bubbleSort(array)` yields. */
  function BubbleTrace(a: seq<int>): seq<Step> {
    BubbleRun(a, 0, false).steps
  }

  /** The inner loop (`for j`) of pass i on the private copy: returns whether it
      swapped anything and the steps it emitted. */
  method BubblePass(arr: array<int>, i: nat) returns (swapped: bool, steps: seq<Step>)
    requires i + 1 < arr.Length
    modifies arr
    ensures PassRun(old(arr[..]), i, 0) == PassResult(arr[..], swapped, steps)
  {
    var n := arr.Length;
    swapped := false;
    steps := [];
    var j := 0;
    while j < n - i - 1
      invariant 0 <= j <= n - i - 1
      invariant PassRun(old(arr[..]), i, 0) == PassResult(PassRun(arr[..], i, j).arr, swapped || PassRun(arr[..], i, j).swapped, steps + PassRun(arr[..], i, j).steps)
      decreases n - i - 1 - j
    {
      ghost var before := arr[..];
      steps := steps + [Mk(Compare, [j, j + 1])];
      if arr[j] > arr[j + 1] {
        arr[j], arr[j + 1] := arr[j + 1], arr[j];
        assert arr[..] == SwapAt(before, j, j + 1);
        swapped := true;
        steps := steps + [Mk(Swap, [j, j + 1])];
      }
      j := j + 1;
    }
  }

  /** The generator: passes over a private copy, with the early-exit flag. */
  method BubbleSort(input: seq<int>) returns (steps: seq<Step>)
    ensures steps == BubbleTrace(input)
  {
    var arr := new int[|input|](k requires 0 <= k < |input| => input[k]);
    assert arr[..] == input;
    var n := arr.Length;
    var swapped := false;
    steps := [];
    var i := 0;
    while i < n - 1
      invariant 0 <= i && (n >= 1 ==> i <= n - 1)
      invariant BubbleTrace(input) == steps + BubbleRun(arr[..], i, swapped).steps
      decreases n - i
    {
      ghost var p := PassRun(arr[..], i, 0);
      ghost var s0 := steps;
      ghost var tail := if !p.swapped then MarkEach(0, n - i - 1) else BubbleRun(p.arr, i + 1, true).steps;
      assert BubbleRun(arr[..], i, swapped).steps == (p.steps + [Mk(Sorted, [n - i - 1])]) + tail;
      var passSteps;
      swapped, passSteps := BubblePass(arr, i);
      assert p.arr == arr[..] && p.swapped == swapped && p.steps == passSteps;
      steps := steps + (passSteps + [Mk(Sorted, [n - i - 1])]);
      Assoc(s0, passSteps + [Mk(Sorted, [n - i - 1])], tail);
      if !swapped {
        ghost var s1 := steps;
        var k := 0;
        while k < n - i - 1
          invariant 0 <= k <= n - i - 1
          invariant steps == s1 + MarkEach(0, k)
        {
          MarkEachSnoc(0, k);
          Assoc(s1, MarkEach(0, k), [Mk(Sorted, [k])]);
          steps := steps + [Mk(Sorted, [k])];
          k := k + 1;
        }
        break;
      }
      i := i + 1;
    }
    if swapped {
      steps := steps + [Mk(Sorted, [0])];
    }
  }
}

/** What the bubble sort trace promises. */
module BubbleFacts {
  import opened Steps
  import opened Bubble

  /** Positions m.. hold the largest elements in ascending order. */
  ghost predicate SortedTail(a: seq<int>, m: int) {
    0 <= m <= |a| &&
    (forall p, q :: m <= p < q < |a| ==> a[p] <= a[q]) &&
    (forall p, q :: 0 <= p < m <= q < |a| ==> a[p] <= a[q])
  }

  /** Replaying a pass's own steps on its starting array gives the array the pass leaves. */
  lemma {:induction false} PassReplay(a: seq<int>, i: nat, j: nat)
    requires i + 1 < |a| && j <= |a| - i - 1
    ensures ReplaySwaps(a, PassRun(a, i, j).steps) == PassRun(a, i, j).arr
    decreases |a| - i - 1 - j
  {
    if j < |a| - i - 1 {
      var cmp := Mk(Compare, [j, j + 1]);
      if a[j] > a[j + 1] {
        var b := SwapAt(a, j, j + 1);
        PassReplay(b, i, j + 1);
        ReplaySwapsAppend(a, [cmp, Mk(Swap, [j, j + 1])], PassRun(b, i, j + 1).steps);
        ReplaySwapsPair(a, cmp, j, j + 1);
      } else {
        PassReplay(a, i, j + 1);
        ReplaySwapsAppend(a, [cmp], PassRun(a, i, j + 1).steps);
        ReplaySwapsOne(a, cmp);
      }
    }
  }

  lemma {:induction false} BubbleReplay(a: seq<int>, i: nat, sw: bool)
    ensures ReplaySwaps(a, BubbleRun(a, i, sw).steps) == BubbleRun(a, i, sw).arr
    decreases |a| - i
  {
    var n := |a|;
    if i + 1 >= n {
      if sw {
        ReplaySwapsOne(a, Mk(Sorted, [0]));
      }
    } else {
      var p := PassRun(a, i, 0);
      var mark := [Mk(Sorted, [n - i - 1])];
      PassReplay(a, i, 0);
      ReplaySwapsAppend(a, p.steps, mark);
      ReplaySwapsOne(p.arr, mark[0]);
      assert ReplaySwaps(a, p.steps + mark) == p.arr;
      if !p.swapped {
        var tail := MarkEach(0, n - i - 1);
        assert BubbleRun(a, i, sw) == SortRun(p.arr, (p.steps + mark) + tail);
        ReplaySwapsAppend(a, p.steps + mark, tail);
        ReplaySwapsNoSwap(p.arr, tail);
      } else {
        var rest := BubbleRun(p.arr, i + 1, true);
        assert BubbleRun(a, i, sw) == SortRun(rest.arr, (p.steps + mark) + rest.steps);
        ReplaySwapsAppend(a, p.steps + mark, rest.steps);
        BubbleReplay(p.arr, i + 1, true);
      }
    }
  }

  /** One compare-and-swap of pass i keeps the element at j + 1 at least every element
      before it, and keeps the sorted tail. */
  lemma PassStepKeeps(a: seq<int>, i: nat, j: nat, b: seq<int>)
    requires i + 1 < |a| && j < |a| - i - 1
    requires b == if a[j] > a[j + 1] then SwapAt(a, j, j + 1) else a
    requires forall p :: 0 <= p < j ==> a[p] <= a[j]
    requires SortedTail(a, |a| - i)
    ensures forall p :: 0 <= p < j + 1 ==> b[p] <= b[j + 1]
    ensures SortedTail(b, |a| - i)
  {
    var n := |a|;
    forall p | 0 <= p < j + 1 ensures b[p] <= b[j + 1] {
      if p < j {
        assert b[p] == a[p];
      }
    }
    forall p, q | 0 <= p < n - i <= q < n ensures b[p] <= b[q] {
      assert b[q] == a[q];
      assert b[p] == a[p] || b[p] == a[j] || b[p] == a[j + 1];
    }
  }

  /** Pass i carries the largest element of a[..n-i] up to position n-i-1. */
  lemma {:induction false} PassBubblesMax(a: seq<int>, i: nat, j: nat)
    requires i + 1 < |a| && j <= |a| - i - 1
    requires forall p :: 0 <= p < j ==> a[p] <= a[j]
    requires SortedTail(a, |a| - i)
    ensures SortedTail(PassRun(a, i, j).arr, |a| - i - 1)
    decreases |a| - i - 1 - j
  {
    if j < |a| - i - 1 {
      var b := if a[j] > a[j + 1] then SwapAt(a, j, j + 1) else a;
      assert PassRun(a, i, j).arr == PassRun(b, i, j + 1).arr;
      PassStepKeeps(a, i, j, b);
      PassBubblesMax(b, i, j + 1);
    }
  }

  /** A pass that swaps nothing leaves the array as it was, with every adjacent pair
      it compared in order. */
  lemma {:induction false} PassNoSwap(a: seq<int>, i: nat, j: nat)
    requires i + 1 < |a| && j <= |a| - i - 1
    requires !PassRun(a, i, j).swapped
    ensures PassRun(a, i, j).arr == a
    ensures forall q :: j <= q < |a| - i - 1 ==> a[q] <= a[q + 1]
    decreases |a| - i - 1 - j
  {
    if j < |a| - i - 1 {
      PassNoSwap(a, i, j + 1);
    }
  }

  lemma {:induction false} BubbleRunSorts(a: seq<int>, i: nat, sw: bool)
    requires i <= |a| && SortedTail(a, |a| - i)
    ensures Ascending(BubbleRun(a, i, sw).arr)
    decreases |a| - i
  {
    var n := |a|;
    if i + 1 < n {
      var p := PassRun(a, i, 0);
      PassBubblesMax(a, i, 0);
      if !p.swapped {
        PassNoSwap(a, i, 0);
        AdjacentAscending(a, n - i);
      } else {
        BubbleRunSorts(p.arr, i + 1, true);
      }
    }
  }

  /** Replaying the swap steps of the trace, in order, on the input gives the input
      sorted ascending; the replayed array is a permutation of the input. */
  lemma BubbleSortSorts(a: seq<int>)
    ensures Ascending(ReplaySwaps(a, BubbleTrace(a)))
    ensures multiset(ReplaySwaps(a, BubbleTrace(a))) == multiset(a)
  {
    BubbleReplay(a, 0, false);
    BubbleRunSorts(a, 0, false);
    ReplaySwapsPermutes(a, BubbleTrace(a));
  }

  /** Every step compares or swaps an adjacent pair [q, q+1] with lo <= q and
      q + 1 <= hi. */
  ghost predicate PairSteps(steps: seq<Step>, lo: int, hi: int) {
    forall k :: 0 <= k < |steps| ==>
      (steps[k].kind == Compare || steps[k].kind == Swap) && steps[k] == Mk(steps[k].kind, steps[k].indices) &&
      |steps[k].indices| == 2 && lo <= steps[k].indices[0] &&
      steps[k].indices[1] == steps[k].indices[0] + 1 && steps[k].indices[1] <= hi
  }

  /** A swap always directly follows the compare of the same pair. */
  ghost predicate SwapAfterCompare(steps: seq<Step>) {
    forall k :: 0 <= k < |steps| && steps[k].kind == Swap ==> 0 < k && steps[k - 1] == Mk(Compare, steps[k].indices)
  }

  /** The steps of pass i from j on are compares and swaps of pairs [q, q+1] with
      j <= q and q + 1 <= n - i - 1, each swap right after the compare of its pair. */
  lemma {:induction false} PassShape(a: seq<int>, i: nat, j: nat)
    requires i + 1 < |a| && j <= |a| - i - 1
    ensures PairSteps(PassRun(a, i, j).steps, j, |a| - i - 1)
    ensures SwapAfterCompare(PassRun(a, i, j).steps)
    decreases |a| - i - 1 - j
  {
    if j < |a| - i - 1 {
      var S := PassRun(a, i, j).steps;
      var cmp := Mk(Compare, [j, j + 1]);
      var sw := Mk(Swap, [j, j + 1]);
      if a[j] > a[j + 1] {
        var b := SwapAt(a, j, j + 1);
        var R := PassRun(b, i, j + 1).steps;
        PassShape(b, i, j + 1);
        assert S == [cmp, sw] + R;
        forall k | 2 <= k < |S| ensures S[k] == R[k - 2] {
        }
      } else {
        var R := PassRun(a, i, j + 1).steps;
        PassShape(a, i, j + 1);
        assert S == [cmp] + R;
        forall k | 1 <= k < |S| ensures S[k] == R[k - 1] {
        }
      }
    }
  }

  /** Whether a compare is followed by the swap of the same pair, given the array the
      steps before it leave. */
  ghost predicate SwapIffInverted(a: seq<int>, steps: seq<Step>, k: int)
    requires 0 <= k < |steps|
  {
    var s := steps[k];
    s.kind == Compare && |s.indices| == 2 && 0 <= s.indices[0] < |a| && 0 <= s.indices[1] < |a| ==>
      var x := ReplaySwaps(a, steps[..k]);
      ((k + 1 < |steps| && steps[k + 1] == Mk(Swap, s.indices)) <==> x[s.indices[0]] > x[s.indices[1]])
  }

  /** Step k of a pass that starts by swapping [j, j+1] is step k - 2 of the rest of
      the pass, run on the swapped array. */
  lemma SwapIffAfterSwap(a: seq<int>, b: seq<int>, j: int, R: seq<Step>, S: seq<Step>, k: int)
    requires 0 <= j && j + 1 < |a| && b == SwapAt(a, j, j + 1)
    requires S == [Mk(Compare, [j, j + 1]), Mk(Swap, [j, j + 1])] + R
    requires 2 <= k < |S| && SwapIffInverted(b, R, k - 2)
    ensures SwapIffInverted(a, S, k)
  {
    var cmp := Mk(Compare, [j, j + 1]);
    var sw := Mk(Swap, [j, j + 1]);
    assert S[..k] == [cmp, sw] + R[..k - 2];
    assert S[k] == R[k - 2] && (k + 1 < |S| ==> S[k + 1] == R[k - 1]);
    ReplaySwapsAppend(a, [cmp, sw], R[..k - 2]);
    ReplaySwapsPair(a, cmp, j, j + 1);
  }

  /** Step k of a pass that starts with a compare and no swap is step k - 1 of the rest. */
  lemma SwapIffAfterCompare(a: seq<int>, j: int, R: seq<Step>, S: seq<Step>, k: int)
    requires S == [Mk(Compare, [j, j + 1])] + R
    requires 1 <= k < |S| && SwapIffInverted(a, R, k - 1)
    ensures SwapIffInverted(a, S, k)
  {
    var cmp := Mk(Compare, [j, j + 1]);
    assert S[..k] == [cmp] + R[..k - 1];
    assert S[k] == R[k - 1] && (k + 1 < |S| ==> S[k + 1] == R[k]);
    ReplaySwapsAppend(a, [cmp], R[..k - 1]);
    ReplaySwapsOne(a, cmp);
  }

  /** A compare of [q, q+1] is followed by the swap of that pair exactly when, on the
      array as the earlier steps leave it, the left value is strictly greater. */
  lemma {:induction false} PassSwapIffInverted(a: seq<int>, i: nat, j: nat)
    requires i + 1 < |a| && j <= |a| - i - 1
    ensures forall k :: 0 <= k < |PassRun(a, i, j).steps| ==> SwapIffInverted(a, PassRun(a, i, j).steps, k)
    decreases |a| - i - 1 - j
  {
    var S := PassRun(a, i, j).steps;
    if j < |a| - i - 1 {
      var cmp := Mk(Compare, [j, j + 1]);
      var sw := Mk(Swap, [j, j + 1]);
      if a[j] > a[j + 1] {
        var b := SwapAt(a, j, j + 1);
        var R := PassRun(b, i, j + 1).steps;
        assert S == [cmp, sw] + R;
        PassSwapIffInverted(b, i, j + 1);
        forall k | 0 <= k < |S| ensures SwapIffInverted(a, S, k) {
          if k == 0 {
            assert S[..0] == [];
          } else if k >= 2 {
            SwapIffAfterSwap(a, b, j, R, S, k);
          }
        }
      } else {
        var R := PassRun(a, i, j + 1).steps;
        assert S == [cmp] + R;
        PassSwapIffInverted(a, i, j + 1);
        PassShape(a, i, j + 1);
        forall k | 0 <= k < |S| ensures SwapIffInverted(a, S, k) {
          if k == 0 {
            assert S[..0] == [];
            assert 1 < |S| ==> S[1] == R[0] && R[0].kind == Compare;
          } else {
            SwapIffAfterCompare(a, j, R, S, k);
          }
        }
      }
    }
  }

  /** Pass i compares exactly n - i - 1 adjacent pairs. */
  lemma {:induction false} PassCompares(a: seq<int>, i: nat, j: nat)
    requires i + 1 < |a| && j <= |a| - i - 1
    ensures |OfKind(PassRun(a, i, j).steps, Compare)| == |a| - i - 1 - j
    decreases |a| - i - 1 - j
  {
    if j < |a| - i - 1 {
      var cmp := Mk(Compare, [j, j + 1]);
      if a[j] > a[j + 1] {
        var b := SwapAt(a, j, j + 1);
        PassCompares(b, i, j + 1);
        OfKindAppend([cmp, Mk(Swap, [j, j + 1])], PassRun(b, i, j + 1).steps, Compare);
        assert OfKind([cmp, Mk(Swap, [j, j + 1])], Compare) == [cmp] by {
          assert [cmp, Mk(Swap, [j, j + 1])][1..] == [Mk(Swap, [j, j + 1])];
          assert [Mk(Swap, [j, j + 1])][1..] == [];
        }
      } else {
        PassCompares(a, i, j + 1);
        OfKindAppend([cmp], PassRun(a, i, j + 1).steps, Compare);
        assert [cmp][1..] == [];
      }
    }
  }

  /** On ascending input a pass swaps nothing. */
  lemma {:induction false} PassAscending(a: seq<int>, i: nat, j: nat)
    requires i + 1 < |a| && j <= |a| - i - 1 && Ascending(a)
    ensures !PassRun(a, i, j).swapped && PassRun(a, i, j).arr == a
    ensures OfKind(PassRun(a, i, j).steps, Swap) == []
    decreases |a| - i - 1 - j
  {
    if j < |a| - i - 1 {
      PassAscending(a, i, j + 1);
      assert PassRun(a, i, j).steps == [Mk(Compare, [j, j + 1])] + PassRun(a, i, j + 1).steps;
      OfKindAppend([Mk(Compare, [j, j + 1])], PassRun(a, i, j + 1).steps, Swap);
      assert [Mk(Compare, [j, j + 1])][1..] == [];
    }
  }

  /** A `sorted` mark and the early-exit marks add nothing of any other kind. */
  lemma OfKindMarked(steps: seq<Step>, x: int, m: int, k: Kind)
    requires k != Sorted
    ensures OfKind((steps + [Mk(Sorted, [x])]) + MarkEach(0, m), k) == OfKind(steps, k)
  {
    OfKindAppend(steps + [Mk(Sorted, [x])], MarkEach(0, m), k);
    OfKindAppend(steps, [Mk(Sorted, [x])], k);
    OfKindNone([Mk(Sorted, [x])], k);
    OfKindNone(MarkEach(0, m), k);
  }

  /** An already sorted input of length n >= 2 is settled by the first pass: no swap
      steps and exactly n - 1 compares (the early exit). */
  lemma SortedInputNoSwaps(a: seq<int>)
    requires Ascending(a) && |a| >= 2
    ensures OfKind(BubbleTrace(a), Swap) == []
    ensures |OfKind(BubbleTrace(a), Compare)| == |a| - 1
  {
    var n := |a|;
    var p := PassRun(a, 0, 0);
    PassAscending(a, 0, 0);
    PassCompares(a, 0, 0);
    BubbleRunStep(a, 0, false);
    OfKindMarked(p.steps, n - 1, n - 1, Swap);
    OfKindMarked(p.steps, n - 1, n - 1, Compare);
  }

  lemma {:induction false} BubbleRunEndsSorted(a: seq<int>, i: nat, sw: bool)
    requires i + 1 < |a| || (sw && i + 1 == |a|)
    ensures var S := BubbleRun(a, i, sw).steps; |S| > 0 && S[|S| - 1].kind == Sorted
    decreases |a| - i
  {
    var n := |a|;
    if i + 1 < n {
      var p := PassRun(a, i, 0);
      if p.swapped {
        BubbleRunEndsSorted(p.arr, i + 1, true);
      }
    }
  }

  /** Inputs of length at most 1 yield no steps; longer inputs end with a `sorted` step. */
  lemma BubbleEnds(a: seq<int>)
    ensures |a| <= 1 ==> BubbleTrace(a) == []
    ensures |a| >= 2 ==> |BubbleTrace(a)| > 0 && BubbleTrace(a)[|BubbleTrace(a)| - 1].kind == Sorted
  {
    if |a| >= 2 {
      BubbleRunEndsSorted(a, 0, false);
    }
  }

  /** Every step names positions inside the array, and compares and swaps name an
      adjacent pair. */
  ghost predicate AdjacentPairs(steps: seq<Step>) {
    forall k :: 0 <= k < |steps| && (steps[k].kind == Compare || steps[k].kind == Swap) ==>
      |steps[k].indices| == 2 && steps[k].indices[1] == steps[k].indices[0] + 1
  }

  lemma AdjacentPairsAppend(xs: seq<Step>, ys: seq<Step>)
    requires AdjacentPairs(xs) && AdjacentPairs(ys)
    ensures AdjacentPairs(xs + ys)
  {
    forall p | 0 <= p < |xs + ys| ensures (xs + ys)[p] == if p < |xs| then xs[p] else ys[p - |xs|] {
    }
  }

  lemma PassPairs(steps: seq<Step>, n: int)
    requires PairSteps(steps, 0, n - 1)
    ensures IndicesIn(steps, n) && AdjacentPairs(steps)
  {
  }

  /** A pass emits no `sorted` step. */
  lemma PassNoMarks(a: seq<int>, i: nat)
    requires i + 1 < |a|
    ensures Marks(PassRun(a, i, 0).steps) == []
  {
    PassShape(a, i, 0);
    MarksNone(PassRun(a, i, 0).steps);
  }

  lemma PassInRange(a: seq<int>, i: nat)
    requires i + 1 < |a|
    ensures IndicesIn(PassRun(a, i, 0).steps + [Mk(Sorted, [|a| - i - 1])], |a|)
    ensures AdjacentPairs(PassRun(a, i, 0).steps + [Mk(Sorted, [|a| - i - 1])])
  {
    var S := PassRun(a, i, 0).steps;
    PassShape(a, i, 0);
    PassPairs(S, |a|);
    IndicesInAppend(S, [Mk(Sorted, [|a| - i - 1])], |a|);
    AdjacentPairsAppend(S, [Mk(Sorted, [|a| - i - 1])]);
  }

  /** One outer iteration: the pass, its `sorted` mark, then either the early-exit
      marks or the remaining passes. */
  lemma BubbleRunStep(a: seq<int>, i: nat, sw: bool)
    requires i + 1 < |a|
    ensures var p := PassRun(a, i, 0);
      BubbleRun(a, i, sw).steps ==
        (p.steps + [Mk(Sorted, [|a| - i - 1])]) +
        (if !p.swapped then MarkEach(0, |a| - i - 1) else BubbleRun(p.arr, i + 1, true).steps)
  {
  }

  lemma ShapeAfterPass(a: seq<int>, i: nat, sw: bool)
    requires i + 1 < |a|
    requires PassRun(a, i, 0).swapped ==>
      IndicesIn(BubbleRun(PassRun(a, i, 0).arr, i + 1, true).steps, |a|) &&
      AdjacentPairs(BubbleRun(PassRun(a, i, 0).arr, i + 1, true).steps)
    ensures IndicesIn(BubbleRun(a, i, sw).steps, |a|) && AdjacentPairs(BubbleRun(a, i, sw).steps)
  {
    var n := |a|;
    var p := PassRun(a, i, 0);
    var head := p.steps + [Mk(Sorted, [n - i - 1])];
    PassInRange(a, i);
    BubbleRunStep(a, i, sw);
    if p.swapped {
      IndicesInAppend(head, BubbleRun(p.arr, i + 1, true).steps, n);
      AdjacentPairsAppend(head, BubbleRun(p.arr, i + 1, true).steps);
    } else {
      IndicesInAppend(head, MarkEach(0, n - i - 1), n);
      AdjacentPairsAppend(head, MarkEach(0, n - i - 1));
    }
  }

  lemma {:induction false} BubbleRunShape(a: seq<int>, i: nat, sw: bool)
    requires sw ==> |a| >= 1
    ensures IndicesIn(BubbleRun(a, i, sw).steps, |a|) && AdjacentPairs(BubbleRun(a, i, sw).steps)
    decreases |a| - i
  {
    if i + 1 < |a| {
      var p := PassRun(a, i, 0);
      if p.swapped {
        BubbleRunShape(p.arr, i + 1, true);
      }
      ShapeAfterPass(a, i, sw);
    }
  }

  /** Every index named by the trace is a position of the array, and every compare
      and swap names a pair [q, q+1]. */
  lemma BubbleShape(a: seq<int>)
    ensures IndicesIn(BubbleTrace(a), |a|) && AdjacentPairs(BubbleTrace(a))
  {
    BubbleRunShape(a, 0, false);
  }

  lemma MarksCombine(marks: seq<int>, rest: seq<int>, m: nat)
    requires marks == [m] + rest && multiset(rest) == multiset(Range(0, m))
    ensures multiset(marks) == multiset(Range(0, m + 1))
  {
    RangeSnoc(0, m);
  }

  /** The marks of one outer iteration: n - i - 1 first, then those of the rest. */
  lemma MarksStep(a: seq<int>, i: nat, sw: bool)
    requires i + 1 < |a|
    ensures var p := PassRun(a, i, 0);
      Marks(BubbleRun(a, i, sw).steps) ==
        [|a| - i - 1] + (if !p.swapped then Range(0, |a| - i - 1) else Marks(BubbleRun(p.arr, i + 1, true).steps))
  {
    var n := |a|;
    var p := PassRun(a, i, 0);
    var mark := [Mk(Sorted, [n - i - 1])];
    PassNoMarks(a, i);
    assert mark[1..] == [];
    MarksAppend(p.steps, mark);
    BubbleRunStep(a, i, sw);
    if !p.swapped {
      MarksAppend(p.steps + mark, MarkEach(0, n - i - 1));
      MarksOfMarkEach(0, n - i - 1);
    } else {
      MarksAppend(p.steps + mark, BubbleRun(p.arr, i + 1, true).steps);
    }
  }

  lemma MarksAfterPass(a: seq<int>, i: nat, sw: bool)
    requires i + 1 < |a|
    requires PassRun(a, i, 0).swapped ==>
      multiset(Marks(BubbleRun(PassRun(a, i, 0).arr, i + 1, true).steps)) == multiset(Range(0, |a| - i - 1))
    ensures multiset(Marks(BubbleRun(a, i, sw).steps)) == multiset(Range(0, |a| - i))
  {
    var p := PassRun(a, i, 0);
    MarksStep(a, i, sw);
    var rest := if !p.swapped then Range(0, |a| - i - 1) else Marks(BubbleRun(p.arr, i + 1, true).steps);
    MarksCombine(Marks(BubbleRun(a, i, sw).steps), rest, |a| - i - 1);
  }

  lemma {:induction false} BubbleRunMarks(a: seq<int>, i: nat, sw: bool)
    requires i + 1 < |a| || (sw && i + 1 == |a|)
    ensures multiset(Marks(BubbleRun(a, i, sw).steps)) == multiset(Range(0, |a| - i))
    decreases |a| - i
  {
    if i + 1 >= |a| {
      assert [Mk(Sorted, [0])][1..] == [];
    } else {
      var p := PassRun(a, i, 0);
      if p.swapped {
        BubbleRunMarks(p.arr, i + 1, true);
      }
      MarksAfterPass(a, i, sw);
    }
  }

  /** For n >= 2 every position is marked sorted exactly once. */
  lemma BubbleMarksEach(a: seq<int>)
    requires |a| >= 2
    ensures multiset(Marks(BubbleTrace(a))) == multiset(Range(0, |a|))
  {
    BubbleRunMarks(a, 0, false);
    assert BubbleTrace(a) == BubbleRun(a, 0, false).steps;
  }
}
