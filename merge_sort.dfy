/** Merge sort trace generator (src/core/algorithms/mergeSort.ts). */
module Merge {
  import opened Steps

  /** What `merge` produces from cursor (i, j) on: the values it writes, in order,
      and the steps it emits. */
  datatype MergeResult = MergeResult(merged: seq<int>, steps: seq<Step>)

  /** Whether the next value written comes from the left half: in the main loop
      when L[i] <= R[j] (so a tie takes the left one), and in the tail loops when
      only the left half has elements left. */
  predicate TakesLeft(L: seq<int>, R: seq<int>, i: nat, j: nat)
    requires i <= |L| && j <= |R|
  {
    i < |L| && (j == |R| || L[i] <= R[j])
  }

  /** The three `while` loops of `merge` from cursors i into L and j into R: while both
      halves have elements, compare [left+i, mid+1+j] and write the smaller one at
      k = left+i+j; then copy what is left of L, then what is left of R. */
  function MergeRun(L: seq<int>, R: seq<int>, left: int, mid: int, i: nat, j: nat): (r: MergeResult)
    requires i <= |L| && j <= |R|
    ensures |r.merged| == |L| - i + |R| - j
    decreases |L| - i + |R| - j
  {
    if i == |L| && j == |R| then MergeResult([], [])
    else
      var takeLeft := TakesLeft(L, R, i, j);
      var v := if takeLeft then L[i] else R[j];
      var compare := if i < |L| && j < |R| then [Mk(Compare, [left + i, mid + 1 + j])] else [];
      var rest := MergeRun(L, R, left, mid, if takeLeft then i + 1 else i, if takeLeft then j else j + 1);
      MergeResult([v] + rest.merged, compare + [Write(left + i + j, v)] + rest.steps)
  }

  /** `merge(arr, left, mid, right)`: the halves are copied out with `slice`, then
      written back over [left, right]. */
  function MergeAt(a: seq<int>, left: int, mid: int, right: int): (r: SortRun)
    requires 0 <= left <= mid < right < |a|
    ensures |r.arr| == |a|
  {
    var m := MergeRun(a[left..mid + 1], a[mid + 1..right + 1], left, mid, 0, 0);
    SortRun(Splice(a, left, m.merged), m.steps)
  }

  /** The array after `arr[k] = vs[0]; arr[k+1] = vs[1]; ...`, one store at a time. */
  function Splice(a: seq<int>, k: int, vs: seq<int>): (r: seq<int>)
    requires 0 <= k && k + |vs| <= |a|
    ensures |r| == |a|
    decreases |vs|
  {
    if vs == [] then a else Splice(a[k := vs[0]], k + 1, vs[1..])
  }

  /** A call `merge(arr, left, mid, right)`. */
  datatype Call = Call(left: int, mid: int, right: int)

  predicate CallIn(c: Call, lo: int, hi: int) {
    lo <= c.left <= c.mid < c.right <= hi
  }

  predicate CallsIn(cs: seq<Call>, lo: int, hi: int) {
    forall p :: 0 <= p < |cs| ==> CallIn(cs[p], lo, hi)
  }

  /** The `merge` calls `mergeSortHelper(arr, left, right)` makes, in the order it makes
      them: those of the left half [left, mid], then those of the right half
      [mid+1, right], then the merge of the two. */
  function HelperCalls(left: int, right: int): (r: seq<Call>)
    ensures CallsIn(r, left, right)
    decreases right - left
  {
    if left >= right then []
    else
      var mid := Mid(left, right);
      HelperCalls(left, mid) + HelperCalls(mid + 1, right) + [Call(left, mid, right)]
  }

  /** The array and the steps after running the merge calls cs, in order, on a. */
  function RunMerges(a: seq<int>, cs: seq<Call>): (r: SortRun)
    requires CallsIn(cs, 0, |a| - 1)
    ensures |r.arr| == |a|
    decreases |cs|
  {
    if cs == [] then SortRun(a, [])
    else
      var m := MergeAt(a, cs[0].left, cs[0].mid, cs[0].right);
      var rest := RunMerges(m.arr, cs[1..]);
      SortRun(rest.arr, m.steps + rest.steps)
  }

  /** The overwrite steps that store vs[0], vs[1], ... at k, k+1, ... */
  function Writes(k: int, vs: seq<int>): (r: seq<Step>)
    ensures |r| == |vs|
    decreases |vs|
  {
    if vs == [] then [] else [Write(k, vs[0])] + Writes(k + 1, vs[1..])
  }

  lemma {:induction false} WritesAt(k: int, vs: seq<int>, t: int)
    requires 0 <= t < |vs|
    ensures Writes(k, vs)[t] == Write(k + t, vs[t])
    decreases |vs|
  {
    if t > 0 {
      WritesAt(k + 1, vs[1..], t - 1);
    }
  }

  /** The trace `mergeSort(array)` yields: the merges of `mergeSortHelper(arr, 0, n-1)`, then `sorted [i]` for
      every index. */
  function MergeSortTrace(a: seq<int>): seq<Step> {
    RunMerges(a, HelperCalls(0, |a| - 1)).steps + MarkEach(0, |a|)
  }
}

/** What the merge sort trace promises. */
module MergeFacts {
  import opened Steps
  import opened Merge

  /** The compare step the main loop emits at cursor (i, j), if both halves have
      elements left. */
  function CompareAt(L: seq<int>, R: seq<int>, left: int, mid: int, i: nat, j: nat): seq<Step> {
    if i < |L| && j < |R| then [Mk(Compare, [left + i, mid + 1 + j])] else []
  }

  /** One iteration of `merge` taking the left element. */
  lemma MergeRunLeft(L: seq<int>, R: seq<int>, left: int, mid: int, i: nat, j: nat)
    requires i <= |L| && j <= |R| && TakesLeft(L, R, i, j)
    ensures var rest := MergeRun(L, R, left, mid, i + 1, j);
      MergeRun(L, R, left, mid, i, j) ==
        MergeResult([L[i]] + rest.merged, CompareAt(L, R, left, mid, i, j) + [Write(left + i + j, L[i])] + rest.steps)
  {
  }

  /** One iteration of `merge` taking the right element. */
  lemma MergeRunRight(L: seq<int>, R: seq<int>, left: int, mid: int, i: nat, j: nat)
    requires i <= |L| && j < |R| && !TakesLeft(L, R, i, j)
    ensures var rest := MergeRun(L, R, left, mid, i, j + 1);
      MergeRun(L, R, left, mid, i, j) ==
        MergeResult([R[j]] + rest.merged, CompareAt(L, R, left, mid, i, j) + [Write(left + i + j, R[j])] + rest.steps)
  {
  }

  /** A merge from cursor (i, j) on writes exactly the values left in both halves. */
  ghost predicate SameValues(L: seq<int>, R: seq<int>, left: int, mid: int, i: nat, j: nat)
    requires i <= |L| && j <= |R|
  {
    multiset(MergeRun(L, R, left, mid, i, j).merged) == multiset(L[i..]) + multiset(R[j..])
  }

  lemma PermutesLeft(L: seq<int>, R: seq<int>, left: int, mid: int, i: nat, j: nat)
    requires i <= |L| && j <= |R| && TakesLeft(L, R, i, j)
    requires SameValues(L, R, left, mid, i + 1, j)
    ensures SameValues(L, R, left, mid, i, j)
  {
    MergeRunLeft(L, R, left, mid, i, j);
    assert L[i..] == [L[i]] + L[i + 1..];
  }

  lemma PermutesRight(L: seq<int>, R: seq<int>, left: int, mid: int, i: nat, j: nat)
    requires i <= |L| && j < |R| && !TakesLeft(L, R, i, j)
    requires SameValues(L, R, left, mid, i, j + 1)
    ensures SameValues(L, R, left, mid, i, j)
  {
    MergeRunRight(L, R, left, mid, i, j);
    assert R[j..] == [R[j]] + R[j + 1..];
  }

  lemma {:induction false} MergeRunSameValues(L: seq<int>, R: seq<int>, left: int, mid: int, i: nat, j: nat)
    requires i <= |L| && j <= |R|
    ensures SameValues(L, R, left, mid, i, j)
    decreases |L| - i + |R| - j
  {
    if TakesLeft(L, R, i, j) {
      MergeRunSameValues(L, R, left, mid, i + 1, j);
      PermutesLeft(L, R, left, mid, i, j);
    } else if j < |R| {
      MergeRunSameValues(L, R, left, mid, i, j + 1);
      PermutesRight(L, R, left, mid, i, j);
    }
  }

  /** The values of a merge are those of the two halves from the cursors on. */
  lemma MergeRunPermutes(L: seq<int>, R: seq<int>, left: int, mid: int, i: nat, j: nat)
    requires i <= |L| && j <= |R|
    ensures multiset(MergeRun(L, R, left, mid, i, j).merged) == multiset(L[i..]) + multiset(R[j..])
  {
    MergeRunSameValues(L, R, left, mid, i, j);
  }

  /** Every value written from cursor (i, j) on is at least `bound` when the remaining
      elements of both halves are. */
  lemma MergeRunBound(L: seq<int>, R: seq<int>, left: int, mid: int, i: nat, j: nat, bound: int)
    requires i <= |L| && j <= |R|
    requires forall p :: i <= p < |L| ==> bound <= L[p]
    requires forall p :: j <= p < |R| ==> bound <= R[p]
    ensures forall p :: 0 <= p < |MergeRun(L, R, left, mid, i, j).merged| ==> bound <= MergeRun(L, R, left, mid, i, j).merged[p]
  {
    var m := MergeRun(L, R, left, mid, i, j).merged;
    MergeRunPermutes(L, R, left, mid, i, j);
    forall p | 0 <= p < |m| ensures bound <= m[p] {
      assert m[p] in multiset(L[i..]) + multiset(R[j..]) by {
        assert m[p] in multiset(m);
      }
      if m[p] in multiset(L[i..]) {
        var q :| 0 <= q < |L[i..]| && L[i..][q] == m[p];
        assert L[i + q] == m[p];
      } else {
        assert m[p] in multiset(R[j..]);
        var q :| 0 <= q < |R[j..]| && R[j..][q] == m[p];
        assert R[j + q] == m[p];
      }
    }
  }

  /** Merging two ascending halves gives an ascending sequence. */
  lemma {:induction false} MergeRunSorted(L: seq<int>, R: seq<int>, left: int, mid: int, i: nat, j: nat)
    requires i <= |L| && j <= |R| && Ascending(L) && Ascending(R)
    ensures Ascending(MergeRun(L, R, left, mid, i, j).merged)
    decreases |L| - i + |R| - j
  {
    if TakesLeft(L, R, i, j) {
      MergeRunSorted(L, R, left, mid, i + 1, j);
      MergeRunBound(L, R, left, mid, i + 1, j, L[i]);
    } else if j < |R| {
      MergeRunSorted(L, R, left, mid, i, j + 1);
      MergeRunBound(L, R, left, mid, i, j + 1, R[j]);
    }
  }

  lemma WritesHead(L: seq<int>, R: seq<int>, left: int, mid: int, i: nat, j: nat, v: int)
    ensures OfKind(CompareAt(L, R, left, mid, i, j) + [Write(left + i + j, v)], Overwrite) == [Write(left + i + j, v)]
  {
    var c := CompareAt(L, R, left, mid, i, j);
    OfKindAppend(c, [Write(left + i + j, v)], Overwrite);
    OfKindNone(c, Overwrite);
    assert [Write(left + i + j, v)][1..] == [];
  }

  /** The overwrites of a merge from cursor (i, j) on store its merged values at
      left+i+j, left+i+j+1, ... in order. */
  ghost predicate WritesInOrder(L: seq<int>, R: seq<int>, left: int, mid: int, i: nat, j: nat)
    requires i <= |L| && j <= |R|
  {
    OfKind(MergeRun(L, R, left, mid, i, j).steps, Overwrite) == Writes(left + i + j, MergeRun(L, R, left, mid, i, j).merged)
  }

  lemma WritesLeft(L: seq<int>, R: seq<int>, left: int, mid: int, i: nat, j: nat)
    requires i <= |L| && j <= |R| && TakesLeft(L, R, i, j)
    requires WritesInOrder(L, R, left, mid, i + 1, j)
    ensures WritesInOrder(L, R, left, mid, i, j)
  {
    var rest := MergeRun(L, R, left, mid, i + 1, j);
    MergeRunLeft(L, R, left, mid, i, j);
    OfKindAppend(CompareAt(L, R, left, mid, i, j) + [Write(left + i + j, L[i])], rest.steps, Overwrite);
    WritesHead(L, R, left, mid, i, j, L[i]);
    assert ([L[i]] + rest.merged)[1..] == rest.merged;
  }

  lemma WritesRight(L: seq<int>, R: seq<int>, left: int, mid: int, i: nat, j: nat)
    requires i <= |L| && j < |R| && !TakesLeft(L, R, i, j)
    requires WritesInOrder(L, R, left, mid, i, j + 1)
    ensures WritesInOrder(L, R, left, mid, i, j)
  {
    var rest := MergeRun(L, R, left, mid, i, j + 1);
    MergeRunRight(L, R, left, mid, i, j);
    OfKindAppend(CompareAt(L, R, left, mid, i, j) + [Write(left + i + j, R[j])], rest.steps, Overwrite);
    WritesHead(L, R, left, mid, i, j, R[j]);
    assert ([R[j]] + rest.merged)[1..] == rest.merged;
  }

  lemma {:induction false} MergeRunWritesInOrder(L: seq<int>, R: seq<int>, left: int, mid: int, i: nat, j: nat)
    requires i <= |L| && j <= |R|
    ensures WritesInOrder(L, R, left, mid, i, j)
    decreases |L| - i + |R| - j
  {
    if TakesLeft(L, R, i, j) {
      MergeRunWritesInOrder(L, R, left, mid, i + 1, j);
      WritesLeft(L, R, left, mid, i, j);
    } else if j < |R| {
      MergeRunWritesInOrder(L, R, left, mid, i, j + 1);
      WritesRight(L, R, left, mid, i, j);
    }
  }

  /** The overwrite steps of a merge store the merged values at k = left+i+j, k+1, ...
      in that order: one per written position and nothing else. */
  lemma MergeRunWrites(L: seq<int>, R: seq<int>, left: int, mid: int, i: nat, j: nat)
    requires i <= |L| && j <= |R|
    ensures OfKind(MergeRun(L, R, left, mid, i, j).steps, Overwrite) == Writes(left + i + j, MergeRun(L, R, left, mid, i, j).merged)
  {
    MergeRunWritesInOrder(L, R, left, mid, i, j);
  }

  /** A compare step at position p of steps emitted from cursor (i, j) on: it names
      [left+x, mid+1+y] for cursors x >= i and y >= j still inside both halves, the
      next step overwrites k = left+x+y with the smaller value, the left one on a tie,
      and a compare two steps later has moved on the cursor whose value was written. */
  ghost predicate CompareOK(L: seq<int>, R: seq<int>, left: int, mid: int, i: nat, j: nat, steps: seq<Step>, p: int)
    requires 0 <= p < |steps|
  {
    |steps[p].indices| == 2 &&
    var x := steps[p].indices[0] - left;
    var y := steps[p].indices[1] - (mid + 1);
    i <= x < |L| && j <= y < |R| && p + 1 < |steps| &&
    steps[p + 1] == Write(left + x + y, if L[x] <= R[y] then L[x] else R[y]) &&
    (p + 2 < |steps| && steps[p + 2].kind == Compare ==>
      steps[p + 2].indices == if L[x] <= R[y] then [left + x + 1, mid + 1 + y] else [left + x, mid + 1 + y + 1])
  }

  /** Every step is such a compare or an overwrite of one index in [left+i+j, left+|L|+|R|). */
  ghost predicate StepOK(L: seq<int>, R: seq<int>, left: int, mid: int, i: nat, j: nat, steps: seq<Step>, p: int)
    requires 0 <= p < |steps|
  {
    (steps[p].kind == Compare && CompareOK(L, R, left, mid, i, j, steps, p)) ||
    (steps[p].kind == Overwrite && |steps[p].indices| == 1 &&
     left + i + j <= steps[p].indices[0] < left + |L| + |R|)
  }

  /** The shape of what `merge` emits from cursor (i, j) on; a first compare names
      [left+i, mid+1+j]. */
  ghost predicate MergeShape(L: seq<int>, R: seq<int>, left: int, mid: int, i: nat, j: nat)
    requires i <= |L| && j <= |R|
  {
    var steps := MergeRun(L, R, left, mid, i, j).steps;
    (|steps| > 0 && steps[0].kind == Compare ==> steps[0].indices == [left + i, mid + 1 + j]) &&
    forall p :: 0 <= p < |steps| ==> StepOK(L, R, left, mid, i, j, steps, p)
  }

  lemma StepShift(L: seq<int>, R: seq<int>, left: int, mid: int, i: nat, j: nat, i2: nat, j2: nat,
                  pre: seq<Step>, rest: seq<Step>, p: int)
    requires i <= i2 && j <= j2 && 0 <= p < |rest|
    requires StepOK(L, R, left, mid, i2, j2, rest, p)
    ensures StepOK(L, R, left, mid, i, j, pre + rest, p + |pre|)
  {
    var S := pre + rest;
    assert S[p + |pre|] == rest[p];
    if p + 1 < |rest| {
      assert S[p + 1 + |pre|] == rest[p + 1];
    }
    if p + 2 < |rest| {
      assert S[p + 2 + |pre|] == rest[p + 2];
    }
  }

  /** The compare and overwrite one iteration of the main loop emits when it takes
      the left element. */
  lemma HeadLeft(L: seq<int>, R: seq<int>, left: int, mid: int, i: nat, j: nat, rest: seq<Step>)
    requires i < |L| && j < |R| && L[i] <= R[j]
    requires |rest| > 0 && rest[0].kind == Compare ==> rest[0].indices == [left + i + 1, mid + 1 + j]
    ensures var S := [Mk(Compare, [left + i, mid + 1 + j]), Write(left + i + j, L[i])] + rest;
      StepOK(L, R, left, mid, i, j, S, 0) && StepOK(L, R, left, mid, i, j, S, 1)
  {
    var S := [Mk(Compare, [left + i, mid + 1 + j]), Write(left + i + j, L[i])] + rest;
    assert S[1] == Write(left + i + j, L[i]);
    if 2 < |S| {
      assert S[2] == rest[0];
    }
    assert CompareOK(L, R, left, mid, i, j, S, 0);
  }

  lemma HeadRight(L: seq<int>, R: seq<int>, left: int, mid: int, i: nat, j: nat, rest: seq<Step>)
    requires i < |L| && j < |R| && !(L[i] <= R[j])
    requires |rest| > 0 && rest[0].kind == Compare ==> rest[0].indices == [left + i, mid + 1 + j + 1]
    ensures var S := [Mk(Compare, [left + i, mid + 1 + j]), Write(left + i + j, R[j])] + rest;
      StepOK(L, R, left, mid, i, j, S, 0) && StepOK(L, R, left, mid, i, j, S, 1)
  {
    var S := [Mk(Compare, [left + i, mid + 1 + j]), Write(left + i + j, R[j])] + rest;
    assert S[1] == Write(left + i + j, R[j]);
    if 2 < |S| {
      assert S[2] == rest[0];
    }
    assert CompareOK(L, R, left, mid, i, j, S, 0);
  }

  /** The shape is kept by one iteration that takes the left element. */
  lemma ShapeLeft(L: seq<int>, R: seq<int>, left: int, mid: int, i: nat, j: nat)
    requires i <= |L| && j <= |R| && TakesLeft(L, R, i, j)
    requires MergeShape(L, R, left, mid, i + 1, j)
    ensures MergeShape(L, R, left, mid, i, j)
  {
    var rest := MergeRun(L, R, left, mid, i + 1, j).steps;
    MergeRunLeft(L, R, left, mid, i, j);
    var w := Write(left + i + j, L[i]);
    var pre := CompareAt(L, R, left, mid, i, j) + [w];
    var S := MergeRun(L, R, left, mid, i, j).steps;
    assert S == pre + rest;
    if j < |R| {
      assert pre == [Mk(Compare, [left + i, mid + 1 + j]), w];
      HeadLeft(L, R, left, mid, i, j, rest);
    } else {
      assert pre == [w];
    }
    forall p | 0 <= p < |S| ensures StepOK(L, R, left, mid, i, j, S, p) {
      if p < |pre| {
        assert S[p] == pre[p];
      } else {
        StepShift(L, R, left, mid, i, j, i + 1, j, pre, rest, p - |pre|);
      }
    }
  }

  /** The shape is kept by one iteration that takes the right element. */
  lemma ShapeRight(L: seq<int>, R: seq<int>, left: int, mid: int, i: nat, j: nat)
    requires i <= |L| && j < |R| && !TakesLeft(L, R, i, j)
    requires MergeShape(L, R, left, mid, i, j + 1)
    ensures MergeShape(L, R, left, mid, i, j)
  {
    var rest := MergeRun(L, R, left, mid, i, j + 1).steps;
    MergeRunRight(L, R, left, mid, i, j);
    var w := Write(left + i + j, R[j]);
    var pre := CompareAt(L, R, left, mid, i, j) + [w];
    var S := MergeRun(L, R, left, mid, i, j).steps;
    assert S == pre + rest;
    if i < |L| {
      assert pre == [Mk(Compare, [left + i, mid + 1 + j]), w];
      HeadRight(L, R, left, mid, i, j, rest);
    } else {
      assert pre == [w];
    }
    forall p | 0 <= p < |S| ensures StepOK(L, R, left, mid, i, j, S, p) {
      if p < |pre| {
        assert S[p] == pre[p];
      } else {
        StepShift(L, R, left, mid, i, j, i, j + 1, pre, rest, p - |pre|);
      }
    }
  }

  lemma {:induction false} MergeRunShape(L: seq<int>, R: seq<int>, left: int, mid: int, i: nat, j: nat)
    requires i <= |L| && j <= |R|
    ensures MergeShape(L, R, left, mid, i, j)
    decreases |L| - i + |R| - j
  {
    if TakesLeft(L, R, i, j) {
      MergeRunShape(L, R, left, mid, i + 1, j);
      ShapeLeft(L, R, left, mid, i, j);
    } else if j < |R| {
      MergeRunShape(L, R, left, mid, i, j + 1);
      ShapeRight(L, R, left, mid, i, j);
    }
  }

  /** Storing vs at k, k+1, ... over b: the positions [k, k+|vs|) receive vs and
      nothing else changes. */
  lemma {:induction false} SpliceAt(b: seq<int>, k: int, vs: seq<int>)
    requires 0 <= k && k + |vs| <= |b|
    ensures forall p :: 0 <= p < |b| ==>
      Splice(b, k, vs)[p] == if k <= p < k + |vs| then vs[p - k] else b[p]
    decreases |vs|
  {
    if vs != [] {
      SpliceAt(b[k := vs[0]], k + 1, vs[1..]);
    }
  }

  lemma SpliceConcat(b: seq<int>, k: int, vs: seq<int>)
    requires 0 <= k && k + |vs| <= |b|
    ensures Splice(b, k, vs) == b[..k] + vs + b[k + |vs|..]
  {
    SpliceAt(b, k, vs);
  }

  /** Replaying the overwrite steps Writes(k, vs) performs exactly the stores of Splice. */
  lemma {:induction false} ReplayWritesSplice(b: seq<int>, k: int, vs: seq<int>)
    requires 0 <= k && k + |vs| <= |b|
    ensures ReplayOverwrites(b, Writes(k, vs)) == Splice(b, k, vs)
    decreases |vs|
  {
    if vs != [] {
      assert Writes(k, vs) == [Write(k, vs[0])] + Writes(k + 1, vs[1..]);
      assert Writes(k, vs)[1..] == Writes(k + 1, vs[1..]);
      ReplayWritesSplice(b[k := vs[0]], k + 1, vs[1..]);
    }
  }

  /** Applying the overwrite steps of `merge(left, mid, right)` to the array it started
      from gives the array it leaves: each overwrite's index and value are the write
      made to the private copy. */
  lemma MergeAtReplay(a: seq<int>, left: int, mid: int, right: int)
    requires 0 <= left <= mid < right < |a|
    ensures ReplayOverwrites(a, MergeAt(a, left, mid, right).steps) == MergeAt(a, left, mid, right).arr
  {
    var L := a[left..mid + 1];
    var R := a[mid + 1..right + 1];
    var m := MergeRun(L, R, left, mid, 0, 0);
    ReplayOverwritesFilter(a, m.steps);
    MergeRunWrites(L, R, left, mid, 0, 0);
    ReplayWritesSplice(a, left, m.merged);
  }

  /** Each `merge(left, mid, right)` emits exactly right - left + 1 overwrites, at
      left, left+1, ..., right in that order. */
  lemma MergeAtWrites(a: seq<int>, left: int, mid: int, right: int)
    requires 0 <= left <= mid < right < |a|
    ensures |OfKind(MergeAt(a, left, mid, right).steps, Overwrite)| == right - left + 1
    ensures forall t :: 0 <= t <= right - left ==>
      OfKind(MergeAt(a, left, mid, right).steps, Overwrite)[t].indices == [left + t]
  {
    var m := MergeRun(a[left..mid + 1], a[mid + 1..right + 1], left, mid, 0, 0);
    MergeRunWrites(a[left..mid + 1], a[mid + 1..right + 1], left, mid, 0, 0);
    var W := OfKind(m.steps, Overwrite);
    assert W == Writes(left, m.merged);
    forall t | 0 <= t <= right - left ensures W[t].indices == [left + t] {
      WritesAt(left, m.merged, t);
    }
  }

  /** Merging two adjacent ascending runs [left, mid] and [mid+1, right] sorts
      [left, right]. */
  lemma MergeAtSorted(a: seq<int>, left: int, mid: int, right: int)
    requires 0 <= left <= mid < right < |a|
    requires SortedSlice(a, left, mid) && SortedSlice(a, mid + 1, right)
    ensures SortedSlice(MergeAt(a, left, mid, right).arr, left, right)
  {
    var L := a[left..mid + 1];
    var R := a[mid + 1..right + 1];
    var m := MergeRun(L, R, left, mid, 0, 0);
    AscendingSlice(a, left, mid);
    AscendingSlice(a, mid + 1, right);
    MergeRunSorted(L, R, left, mid, 0, 0);
    SpliceAt(a, left, m.merged);
  }

  /** Putting a permutation of [lo, hi] back in place keeps the rest and permutes the whole. */
  lemma KeepsOutside(a: seq<int>, b: seq<int>, lo: int, hi: int, vs: seq<int>)
    requires 0 <= lo <= hi < |a| && |vs| == hi - lo + 1
    requires b == a[..lo] + vs + a[hi + 1..] && multiset(vs) == multiset(a[lo..hi + 1])
    ensures SameOutside(a, b, lo, hi) && multiset(b) == multiset(a)
  {
    assert a == a[..lo] + a[lo..hi + 1] + a[hi + 1..];
    assert forall p :: 0 <= p < |a| && !(lo <= p <= hi) ==> a[p] == b[p] by {
      forall p | 0 <= p < |a| && !(lo <= p <= hi) ensures a[p] == b[p] {
        if p < lo {
          assert b[p] == a[..lo][p];
        } else {
          assert b[p] == a[hi + 1..][p - hi - 1];
        }
      }
    }
  }

  /** A merge changes only [left, right] and permutes the array. */
  lemma MergeAtKeeps(a: seq<int>, left: int, mid: int, right: int)
    requires 0 <= left <= mid < right < |a|
    ensures SameOutside(a, MergeAt(a, left, mid, right).arr, left, right)
    ensures multiset(MergeAt(a, left, mid, right).arr) == multiset(a)
  {
    var L := a[left..mid + 1];
    var R := a[mid + 1..right + 1];
    var m := MergeRun(L, R, left, mid, 0, 0);
    MergeRunPermutes(L, R, left, mid, 0, 0);
    assert L[0..] == L && R[0..] == R;
    assert a[left..right + 1] == L + R;
    SpliceConcat(a, left, m.merged);
    KeepsOutside(a, Splice(a, left, m.merged), left, right, m.merged);
  }

  /** Merging two adjacent ascending runs [left, mid] and [mid+1, right] sorts
      [left, right], keeps the rest of the array, and permutes it. */
  lemma MergeAtSorts(a: seq<int>, left: int, mid: int, right: int)
    requires 0 <= left <= mid < right < |a|
    requires SortedSlice(a, left, mid) && SortedSlice(a, mid + 1, right)
    ensures SortsRange(a, MergeAt(a, left, mid, right).arr, left, right)
  {
    MergeAtSorted(a, left, mid, right);
    MergeAtKeeps(a, left, mid, right);
  }

  /** Sorting [lo, mid], then [mid+1, hi], then sorting [lo, hi] in place, sorts
      [lo, hi] of the original and keeps the rest. */
  lemma SortsCompose(a: seq<int>, b1: seq<int>, b2: seq<int>, b3: seq<int>, lo: int, mid: int, hi: int)
    requires 0 <= lo <= mid < hi < |a|
    requires SortsRange(a, b1, lo, mid) && SortsRange(b1, b2, mid + 1, hi) && SortsRange(b2, b3, lo, hi)
    ensures SortsRange(a, b3, lo, hi)
  {
  }

  /** Sorting [mid+1, hi] leaves a sorted [lo, mid] sorted. */
  lemma SortedLeftKept(b1: seq<int>, b2: seq<int>, lo: int, mid: int, hi: int)
    requires 0 <= lo <= mid < hi < |b1|
    requires SortedSlice(b1, lo, mid) && SameOutside(b1, b2, mid + 1, hi)
    ensures SortedSlice(b2, lo, mid)
  {
    forall p, q | lo <= p < q <= mid ensures b2[p] <= b2[q] {
      assert b2[p] == b1[p] && b2[q] == b1[q];
    }
  }

  lemma CallsWiden(cs: seq<Call>, lo: int, hi: int, lo2: int, hi2: int)
    requires CallsIn(cs, lo, hi) && lo2 <= lo && hi <= hi2
    ensures CallsIn(cs, lo2, hi2)
  {
  }

  /** Running c1 and then c2 is running c1 + c2. */
  lemma {:induction false} RunMergesAppend(a: seq<int>, c1: seq<Call>, c2: seq<Call>)
    requires CallsIn(c1, 0, |a| - 1) && CallsIn(c2, 0, |a| - 1)
    ensures CallsIn(c1 + c2, 0, |a| - 1)
    ensures var r1 := RunMerges(a, c1);
      var r2 := RunMerges(r1.arr, c2);
      RunMerges(a, c1 + c2) == SortRun(r2.arr, r1.steps + r2.steps)
    decreases |c1|
  {
    if c1 == [] {
      assert c1 + c2 == c2;
    } else {
      var c := c1[0];
      var m := MergeAt(a, c.left, c.mid, c.right);
      assert (c1 + c2)[0] == c && (c1 + c2)[1..] == c1[1..] + c2;
      RunMergesAppend(m.arr, c1[1..], c2);
      var r1 := RunMerges(m.arr, c1[1..]);
      var r2 := RunMerges(r1.arr, c2);
      Assoc(m.steps, r1.steps, r2.steps);
    }
  }

  lemma RunMergesOne(a: seq<int>, c: Call)
    requires CallIn(c, 0, |a| - 1)
    ensures RunMerges(a, [c]) == MergeAt(a, c.left, c.mid, c.right)
  {
    var m := MergeAt(a, c.left, c.mid, c.right);
    assert [c][0] == c && [c][1..] == [];
    assert RunMerges(m.arr, []) == SortRun(m.arr, []);
    assert m.steps + [] == m.steps;
  }

  /** One call of `mergeSortHelper` on [left, right] with left < right. */
  lemma HelperSplit(left: int, right: int)
    requires left < right
    ensures HelperCalls(left, right) ==
      HelperCalls(left, Mid(left, right)) + HelperCalls(Mid(left, right) + 1, right) + [Call(left, Mid(left, right), right)]
  {
  }

  /** Replaying the overwrite steps of any run of merges on its input gives its array. */
  lemma {:induction false} RunMergesReplay(a: seq<int>, cs: seq<Call>)
    requires CallsIn(cs, 0, |a| - 1)
    ensures ReplayOverwrites(a, RunMerges(a, cs).steps) == RunMerges(a, cs).arr
    decreases |cs|
  {
    if cs != [] {
      var c := cs[0];
      var m := MergeAt(a, c.left, c.mid, c.right);
      MergeAtReplay(a, c.left, c.mid, c.right);
      RunMergesReplay(m.arr, cs[1..]);
      ReplayOverwritesAppend(a, m.steps, RunMerges(m.arr, cs[1..]).steps);
    }
  }

  ghost predicate HelperSorts(a: seq<int>, left: int, right: int)
    requires 0 <= left && right < |a|
  {
    SortsRange(a, RunMerges(a, HelperCalls(left, right)).arr, left, right)
  }

  /** The merges of both halves, then the merge of the two, sort [left, right]. */
  lemma SortStep(a: seq<int>, left: int, mid: int, right: int, c1: seq<Call>, c2: seq<Call>, whole: seq<Call>)
    requires 0 <= left <= mid < right < |a|
    requires CallsIn(c1, 0, |a| - 1) && CallsIn(c2, 0, |a| - 1) && whole == c1 + c2 + [Call(left, mid, right)]
    requires SortsRange(a, RunMerges(a, c1).arr, left, mid)
    requires SortsRange(RunMerges(a, c1).arr, RunMerges(RunMerges(a, c1).arr, c2).arr, mid + 1, right)
    ensures CallsIn(whole, 0, |a| - 1)
    ensures SortsRange(a, RunMerges(a, whole).arr, left, right)
  {
    var c := Call(left, mid, right);
    var b1 := RunMerges(a, c1).arr;
    var b2 := RunMerges(b1, c2).arr;
    var b3 := MergeAt(b2, left, mid, right).arr;
    RunMergesAppend(a, c1, c2);
    RunMergesAppend(a, c1 + c2, [c]);
    RunMergesOne(b2, c);
    SortedLeftKept(b1, b2, left, mid, right);
    MergeAtSorts(b2, left, mid, right);
    SortsCompose(a, b1, b2, b3, left, mid, right);
  }

  /** `mergeSortHelper(arr, left, right)` sorts [left, right] of arr and leaves the
      rest of it alone. */
  lemma {:induction false} HelperSortsRange(a: seq<int>, left: int, right: int)
    requires 0 <= left && right < |a|
    ensures HelperSorts(a, left, right)
    decreases right - left
  {
    if left < right {
      var mid := Mid(left, right);
      var c1 := HelperCalls(left, mid);
      var c2 := HelperCalls(mid + 1, right);
      CallsWiden(c1, left, mid, 0, |a| - 1);
      CallsWiden(c2, mid + 1, right, 0, |a| - 1);
      HelperSortsRange(a, left, mid);
      HelperSortsRange(RunMerges(a, c1).arr, mid + 1, right);
      HelperSplit(left, right);
      SortStep(a, left, mid, right, c1, c2, HelperCalls(left, right));
    }
  }

  /** After `mergeSortHelper(0, n-1)` the private array is the ascending permutation of
      the input, so replaying every overwrite step of the trace on the input sorts it. */
  lemma MergeSortSorts(a: seq<int>)
    ensures Ascending(ReplayOverwrites(a, MergeSortTrace(a)))
    ensures multiset(ReplayOverwrites(a, MergeSortTrace(a))) == multiset(a)
  {
    var cs := HelperCalls(0, |a| - 1);
    var r := RunMerges(a, cs);
    RunMergesReplay(a, cs);
    HelperSortsRange(a, 0, |a| - 1);
    SortedThenMarks(a, r.steps, r.arr, MergeSortTrace(a));
  }

  lemma SortedThenMarks(a: seq<int>, body: seq<Step>, b: seq<int>, trace: seq<Step>)
    requires ReplayOverwrites(a, body) == b && SortsRange(a, b, 0, |a| - 1)
    requires trace == body + MarkEach(0, |a|)
    ensures Ascending(ReplayOverwrites(a, trace)) && multiset(ReplayOverwrites(a, trace)) == multiset(a)
  {
    ReplayOverwritesAppend(a, body, MarkEach(0, |a|));
    ReplayOverwritesNoWrite(b, MarkEach(0, |a|));
  }

  /** What step p of `merge(left, mid, right)` on a is: an overwrite of one index in
      [left, right], or a compare [x, y] with left <= x <= mid < y <= right followed by
      the overwrite of k = left + (x - left) + (y - mid - 1) with the smaller of a[x] and
      a[y] (a[x] on a tie), after which a further compare has moved on x (when a[x] was
      written) or y. */
  ghost predicate MergeStep(a: seq<int>, left: int, mid: int, right: int, steps: seq<Step>, p: int)
    requires 0 <= left <= mid < right < |a| && 0 <= p < |steps|
  {
    (steps[p].kind == Overwrite && |steps[p].indices| == 1 && left <= steps[p].indices[0] <= right) ||
    (steps[p].kind == Compare && |steps[p].indices| == 2 &&
     var x := steps[p].indices[0];
     var y := steps[p].indices[1];
     left <= x <= mid < y <= right && p + 1 < |steps| &&
     steps[p + 1] == Write(x + y - (mid + 1), if a[x] <= a[y] then a[x] else a[y]) &&
     (p + 2 < |steps| && steps[p + 2].kind == Compare ==>
       steps[p + 2].indices == if a[x] <= a[y] then [x + 1, y] else [x, y + 1]))
  }

  lemma MergeStepOf(a: seq<int>, left: int, mid: int, right: int, steps: seq<Step>, p: int)
    requires 0 <= left <= mid < right < |a| && 0 <= p < |steps|
    requires StepOK(a[left..mid + 1], a[mid + 1..right + 1], left, mid, 0, 0, steps, p)
    ensures MergeStep(a, left, mid, right, steps, p)
  {
    var L := a[left..mid + 1];
    var R := a[mid + 1..right + 1];
    if steps[p].kind == Compare {
      var x := steps[p].indices[0];
      var y := steps[p].indices[1];
      assert L[x - left] == a[x] && R[y - (mid + 1)] == a[y];
    }
  }

  /** Every step of `merge(left, mid, right)` is a compare of the two halves followed by
      the overwrite it decides, ties going to the left half, or an overwrite in
      [left, right]. */
  lemma MergeAtShape(a: seq<int>, left: int, mid: int, right: int)
    requires 0 <= left <= mid < right < |a|
    ensures forall p :: 0 <= p < |MergeAt(a, left, mid, right).steps| ==>
      MergeStep(a, left, mid, right, MergeAt(a, left, mid, right).steps, p)
  {
    var steps := MergeAt(a, left, mid, right).steps;
    MergeRunShape(a[left..mid + 1], a[mid + 1..right + 1], left, mid, 0, 0);
    forall p | 0 <= p < |steps| ensures MergeStep(a, left, mid, right, steps, p) {
      MergeStepOf(a, left, mid, right, steps, p);
    }
  }

  /** s is a compare of two indices or an overwrite of one, all in [lo, hi]. */
  predicate StepIn(s: Step, lo: int, hi: int) {
    (s.kind == Compare && |s.indices| == 2 && lo <= s.indices[0] <= hi && lo <= s.indices[1] <= hi) ||
    (s.kind == Overwrite && |s.indices| == 1 && lo <= s.indices[0] <= hi)
  }

  ghost predicate Within(steps: seq<Step>, lo: int, hi: int) {
    forall p :: 0 <= p < |steps| ==> StepIn(steps[p], lo, hi)
  }

  lemma WithinAppend(xs: seq<Step>, ys: seq<Step>, lo: int, hi: int)
    requires Within(xs, lo, hi) && Within(ys, lo, hi)
    ensures Within(xs + ys, lo, hi)
  {
    forall p | 0 <= p < |xs + ys| ensures (xs + ys)[p] == if p < |xs| then xs[p] else ys[p - |xs|] {
    }
  }

  lemma WithinWiden(steps: seq<Step>, lo: int, hi: int, lo2: int, hi2: int)
    requires Within(steps, lo, hi) && lo2 <= lo && hi <= hi2
    ensures Within(steps, lo2, hi2)
  {
  }

  lemma MergeAtWithin(a: seq<int>, left: int, mid: int, right: int)
    requires 0 <= left <= mid < right < |a|
    ensures Within(MergeAt(a, left, mid, right).steps, left, right)
  {
    var steps := MergeAt(a, left, mid, right).steps;
    MergeAtShape(a, left, mid, right);
    forall p | 0 <= p < |steps| ensures StepIn(steps[p], left, right) {
      assert MergeStep(a, left, mid, right, steps, p);
    }
  }

  /** Every step of a run of merges within [lo, hi] stays within [lo, hi]. */
  lemma {:induction false} RunMergesWithin(a: seq<int>, cs: seq<Call>, lo: int, hi: int)
    requires CallsIn(cs, 0, |a| - 1) && CallsIn(cs, lo, hi)
    ensures Within(RunMerges(a, cs).steps, lo, hi)
    decreases |cs|
  {
    if cs != [] {
      var c := cs[0];
      var m := MergeAt(a, c.left, c.mid, c.right);
      MergeAtWithin(a, c.left, c.mid, c.right);
      WithinWiden(m.steps, c.left, c.right, lo, hi);
      RunMergesWithin(m.arr, cs[1..], lo, hi);
      WithinAppend(m.steps, RunMerges(m.arr, cs[1..]).steps, lo, hi);
    }
  }

  /** The merge sort trace names only indices in [0, n), contains no swap, and ends with
      `sorted [0]`, ..., `sorted [n-1]`, the only sorted steps it has. */
  lemma MergeSortShape(a: seq<int>)
    ensures IndicesIn(MergeSortTrace(a), |a|)
    ensures OfKind(MergeSortTrace(a), Swap) == []
    ensures EndsWithMarks(MergeSortTrace(a), |a|)
  {
    var body := RunMerges(a, HelperCalls(0, |a| - 1)).steps;
    RunMergesWithin(a, HelperCalls(0, |a| - 1), 0, |a| - 1);
    ShapeThenMarks(body, MergeSortTrace(a), |a|);
  }

  /** Compares and overwrites within [0, n), followed by `sorted [0]`, ..., `sorted [n-1]`. */
  lemma ShapeThenMarks(body: seq<Step>, trace: seq<Step>, n: nat)
    requires Within(body, 0, n - 1) && trace == body + MarkEach(0, n)
    ensures IndicesIn(trace, n) && OfKind(trace, Swap) == [] && EndsWithMarks(trace, n)
  {
    var marks := MarkEach(0, n);
    assert IndicesIn(body, n) by {
      forall p, q | 0 <= p < |body| && 0 <= q < |body[p].indices| ensures 0 <= body[p].indices[q] < n {
        assert StepIn(body[p], 0, n - 1);
      }
    }
    IndicesInAppend(body, marks, n);
    assert forall p :: 0 <= p < |body| ==> body[p].kind in {Compare, Overwrite} by {
      forall p | 0 <= p < |body| ensures body[p].kind in {Compare, Overwrite} {
        assert StepIn(body[p], 0, n - 1);
      }
    }
    OfKindAppend(body, marks, Swap);
    OfKindNone(body, Swap);
    OfKindNone(marks, Swap);
    MarksAtEnd(body, n);
  }

  /** Storing one more value after vs is one more array update. */
  lemma {:induction false} SpliceSnoc(b: seq<int>, k: int, vs: seq<int>, v: int)
    requires 0 <= k && k + |vs| < |b|
    ensures Splice(b, k, vs + [v]) == Splice(b, k, vs)[k + |vs| := v]
    decreases |vs|
  {
    if vs == [] {
      assert Splice(b[k := v], k + 1, []) == b[k := v];
      assert (vs + [v])[0] == v && (vs + [v])[1..] == [];
    } else {
      assert (vs + [v])[0] == vs[0] && (vs + [v])[1..] == vs[1..] + [v];
      SpliceSnoc(b[k := vs[0]], k + 1, vs[1..], v);
    }
  }

  /** The state of `merge(arr, left, mid, right)` at cursors (i, j): done holds the values
      written so far at left, left+1, ..., arr is a0 with those stores, and what is left
      to write and emit is what MergeRun does from (i, j). */
  ghost predicate MergeProgress(a0: seq<int>, arr: seq<int>, L: seq<int>, R: seq<int>, left: int, mid: int,
                                i: nat, j: nat, done: seq<int>, steps: seq<Step>)
  {
    i <= |L| && j <= |R| && |done| == i + j && 0 <= left && left + |L| + |R| <= |a0| &&
    arr == Splice(a0, left, done) &&
    var rest := MergeRun(L, R, left, mid, i, j);
    MergeRun(L, R, left, mid, 0, 0) == MergeResult(done + rest.merged, steps + rest.steps)
  }

  lemma ProgressStart(a0: seq<int>, L: seq<int>, R: seq<int>, left: int, mid: int)
    requires 0 <= left && left + |L| + |R| <= |a0|
    ensures MergeProgress(a0, a0, L, R, left, mid, 0, 0, [], [])
  {
    var rest := MergeRun(L, R, left, mid, 0, 0);
    assert [] + rest.merged == rest.merged && [] + rest.steps == rest.steps;
  }

  /** The store `arr[k] = leftArr[i]` and its overwrite step advance i. */
  lemma ProgressLeft(a0: seq<int>, arr: seq<int>, arr': seq<int>, L: seq<int>, R: seq<int>, left: int, mid: int,
                     i: nat, j: nat, done: seq<int>, steps: seq<Step>, cmp: seq<Step>,
                     steps': seq<Step>)
    requires MergeProgress(a0, arr, L, R, left, mid, i, j, done, steps) && TakesLeft(L, R, i, j)
    requires cmp == CompareAt(L, R, left, mid, i, j)
    requires arr' == arr[left + i + j := L[i]] && steps' == steps + cmp + [Write(left + i + j, L[i])]
    ensures MergeProgress(a0, arr', L, R, left, mid, i + 1, j, done + [L[i]], steps')
  {
    var rest := MergeRun(L, R, left, mid, i + 1, j);
    var emitted := cmp + [Write(left + i + j, L[i])];
    MergeRunLeft(L, R, left, mid, i, j);
    SpliceSnoc(a0, left, done, L[i]);
    Assoc(done, [L[i]], rest.merged);
    Assoc(steps, emitted, rest.steps);
    Assoc(steps, cmp, [Write(left + i + j, L[i])]);
  }

  /** The store `arr[k] = rightArr[j]` and its overwrite step advance j. */
  lemma ProgressRight(a0: seq<int>, arr: seq<int>, arr': seq<int>, L: seq<int>, R: seq<int>, left: int, mid: int,
                      i: nat, j: nat, done: seq<int>, steps: seq<Step>, cmp: seq<Step>,
                      steps': seq<Step>)
    requires MergeProgress(a0, arr, L, R, left, mid, i, j, done, steps) && j < |R| && !TakesLeft(L, R, i, j)
    requires cmp == CompareAt(L, R, left, mid, i, j)
    requires arr' == arr[left + i + j := R[j]] && steps' == steps + cmp + [Write(left + i + j, R[j])]
    ensures MergeProgress(a0, arr', L, R, left, mid, i, j + 1, done + [R[j]], steps')
  {
    var rest := MergeRun(L, R, left, mid, i, j + 1);
    var emitted := cmp + [Write(left + i + j, R[j])];
    MergeRunRight(L, R, left, mid, i, j);
    SpliceSnoc(a0, left, done, R[j]);
    Assoc(done, [R[j]], rest.merged);
    Assoc(steps, emitted, rest.steps);
    Assoc(steps, cmp, [Write(left + i + j, R[j])]);
  }

  /** Both halves copied back: the array and the steps are those of MergeAt. */
  lemma ProgressDone(a0: seq<int>, arr: seq<int>, left: int, mid: int, right: int, done: seq<int>, steps: seq<Step>)
    requires 0 <= left <= mid < right < |a0|
    requires MergeProgress(a0, arr, a0[left..mid + 1], a0[mid + 1..right + 1], left, mid,
                           mid + 1 - left, right - mid, done, steps)
    ensures MergeAt(a0, left, mid, right) == SortRun(arr, steps)
  {
    assert done + [] == done && steps + [] == steps;
  }

  /** `mergeSortHelper(arr, left, right)` turns a into r.arr, emitting r.steps. */
  ghost predicate HelperDoes(a: seq<int>, left: int, right: int, r: SortRun)
  {
    0 <= left && right < |a| && RunMerges(a, HelperCalls(left, right)) == r
  }

  /** Running c1, then c2, then c one after the other is running c1 + c2 + [c]. */
  lemma RunThree(a: seq<int>, c1: seq<Call>, c2: seq<Call>, c: Call, r1: SortRun, r2: SortRun, m: SortRun)
    requires CallsIn(c1, 0, |a| - 1) && CallsIn(c2, 0, |a| - 1) && CallIn(c, 0, |a| - 1)
    requires RunMerges(a, c1) == r1 && RunMerges(r1.arr, c2) == r2 && RunMerges(r2.arr, [c]) == m
    ensures CallsIn(c1 + c2 + [c], 0, |a| - 1)
    ensures RunMerges(a, c1 + c2 + [c]) == SortRun(m.arr, r1.steps + r2.steps + m.steps)
  {
    RunMergesAppend(a, c1, c2);
    RunMergesAppend(a, c1 + c2, [c]);
  }

  /** `mergeSortHelper(arr, left, right)` with left < right: the merges of the left half,
      then those of the right half, then `merge(arr, left, mid, right)`. */
  lemma HelperRunParts(a: seq<int>, left: int, mid: int, right: int, r1: SortRun, r2: SortRun, m: SortRun)
    requires 0 <= left < right < |a| && mid == Mid(left, right)
    requires HelperDoes(a, left, mid, r1)
    requires |r1.arr| == |a| && HelperDoes(r1.arr, mid + 1, right, r2)
    requires |r2.arr| == |a| && m == MergeAt(r2.arr, left, mid, right)
    ensures HelperDoes(a, left, right, SortRun(m.arr, r1.steps + r2.steps + m.steps))
  {
    var c1 := HelperCalls(left, mid);
    var c2 := HelperCalls(mid + 1, right);
    var c := Call(left, mid, right);
    CallsWiden(c1, left, mid, 0, |a| - 1);
    CallsWiden(c2, mid + 1, right, 0, |a| - 1);
    HelperSplit(left, right);
    assert HelperCalls(left, right) == c1 + c2 + [c];
    RunMergesOne(r2.arr, c);
    RunThree(a, c1, c2, c, r1, r2, m);
  }
}

/** The generator itself, on a private array. */
module MergeSorter {
  import opened Steps
  import opened Merge
  import opened MergeFacts

  /** `merge(arr, left, mid, right)`: copy out both halves, then write them back in
      order, emitting a compare before each store of the main loop and an overwrite
      for every store. */
  method MergeHalves(arr: array<int>, left: int, mid: int, right: int) returns (steps: seq<Step>)
    requires 0 <= left <= mid < right < arr.Length
    modifies arr
    ensures MergeAt(old(arr[..]), left, mid, right) == SortRun(arr[..], steps)
  {
    ghost var a0 := arr[..];
    var leftArr := arr[left..mid + 1];
    var rightArr := arr[mid + 1..right + 1];
    var i, j, k := 0, 0, left;
    ghost var done: seq<int> := [];
    steps := [];
    ProgressStart(a0, leftArr, rightArr, left, mid);
    while i < |leftArr| && j < |rightArr|
      invariant k == left + i + j
      invariant MergeProgress(a0, arr[..], leftArr, rightArr, left, mid, i, j, done, steps)
      decreases |leftArr| - i + |rightArr| - j
    {
      ghost var s0, cur := steps, arr[..];
      steps := steps + [Mk(Compare, [left + i, mid + 1 + j])];
      if leftArr[i] <= rightArr[j] {
        arr[k] := leftArr[i];
        steps := steps + [Write(k, leftArr[i])];
        ProgressLeft(a0, cur, arr[..], leftArr, rightArr, left, mid, i, j, done, s0,
                     [Mk(Compare, [left + i, mid + 1 + j])], steps);
        done := done + [leftArr[i]];
        i := i + 1;
      } else {
        arr[k] := rightArr[j];
        steps := steps + [Write(k, rightArr[j])];
        ProgressRight(a0, cur, arr[..], leftArr, rightArr, left, mid, i, j, done, s0,
                      [Mk(Compare, [left + i, mid + 1 + j])], steps);
        done := done + [rightArr[j]];
        j := j + 1;
      }
      k := k + 1;
    }
    while i < |leftArr|
      invariant k == left + i + j
      invariant MergeProgress(a0, arr[..], leftArr, rightArr, left, mid, i, j, done, steps)
      invariant i < |leftArr| ==> j == |rightArr|
      decreases |leftArr| - i
    {
      ghost var s0, cur := steps, arr[..];
      arr[k] := leftArr[i];
      steps := steps + [Write(k, leftArr[i])];
      ProgressLeft(a0, cur, arr[..], leftArr, rightArr, left, mid, i, j, done, s0, [], steps);
      done := done + [leftArr[i]];
      i := i + 1;
      k := k + 1;
    }
    while j < |rightArr|
      invariant k == left + i + j
      invariant MergeProgress(a0, arr[..], leftArr, rightArr, left, mid, i, j, done, steps)
      invariant i == |leftArr|
      decreases |rightArr| - j
    {
      ghost var s0, cur := steps, arr[..];
      arr[k] := rightArr[j];
      steps := steps + [Write(k, rightArr[j])];
      ProgressRight(a0, cur, arr[..], leftArr, rightArr, left, mid, i, j, done, s0, [], steps);
      done := done + [rightArr[j]];
      j := j + 1;
      k := k + 1;
    }
    ProgressDone(a0, arr[..], left, mid, right, done, steps);
  }

  /** `mergeSortHelper(arr, left, right)`. */
  method MergeSortHelper(arr: array<int>, left: int, right: int) returns (steps: seq<Step>)
    requires 0 <= left && right < arr.Length
    modifies arr
    ensures HelperDoes(old(arr[..]), left, right, SortRun(arr[..], steps))
    decreases right - left
  {
    if left >= right {
      return [];
    }
    var mid := (left + right) / 2;
    MidIsFloor(left, right);
    ghost var a0 := arr[..];
    var s1 := MergeSortHelper(arr, left, mid);
    ghost var a1 := arr[..];
    var s2 := MergeSortHelper(arr, mid + 1, right);
    ghost var a2 := arr[..];
    var s3 := MergeHalves(arr, left, mid, right);
    steps := s1 + s2 + s3;
    HelperRunParts(a0, left, mid, right, SortRun(a1, s1), SortRun(a2, s2), SortRun(arr[..], s3));
  }

  /** The generator: sort a private copy, then mark every index sorted. */
  method MergeSort(input: seq<int>) returns (steps: seq<Step>)
    ensures steps == MergeSortTrace(input)
  {
    var arr := new int[|input|](k requires 0 <= k < |input| => input[k]);
    assert arr[..] == input;
    steps := MergeSortHelper(arr, 0, arr.Length - 1);
    ghost var s0 := steps;
    var i := 0;
    while i < arr.Length
      invariant 0 <= i <= arr.Length
      invariant steps == s0 + MarkEach(0, i)
    {
      MarkEachSnoc(0, i);
      Assoc(s0, MarkEach(0, i), [Mk(Sorted, [i])]);
      steps := steps + [Mk(Sorted, [i])];
      i := i + 1;
    }
  }
}
