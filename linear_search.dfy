/** Linear search trace generator (src/core/algorithms/linearSearch.ts). */
module Linear {
  import opened Steps

  /** The steps the loop of `linearSearch(array, target)` yields from index i on:
      compare [i], then found [i] and stop when a[i] equals the target; past the
      end, one highlight with no indices tagged "not found". */
  function LinearFrom(a: seq<int>, target: int, i: int): seq<Step>
    requires 0 <= i <= |a|
    decreases |a| - i
  {
    if i == |a| then [Noted(Highlight, [], NotFound)]
    else if a[i] == target then [Mk(Compare, [i]), Mk(Found, [i])]
    else [Mk(Compare, [i])] + LinearFrom(a, target, i + 1)
  }

  /** The trace `linearSearch(array, target)` yields. */
  function LinearSearchTrace(a: seq<int>, target: int): seq<Step> {
    LinearFrom(a, target, 0)
  }

  /** The generator, as the source's `for` loop with its early return. */
  method LinearSearch(a: seq<int>, target: int) returns (steps: seq<Step>)
    ensures steps == LinearSearchTrace(a, target)
  {
    steps := [];
    var i := 0;
    while i < |a|
      invariant 0 <= i <= |a|
      invariant LinearSearchTrace(a, target) == steps + LinearFrom(a, target, i)
      decreases |a| - i
    {
      steps := steps + [Mk(Compare, [i])];
      if a[i] == target {
        steps := steps + [Mk(Found, [i])];
        return;
      }
      i := i + 1;
    }
    steps := steps + [Noted(Highlight, [], NotFound)];
  }
}

module LinearFacts {
  import opened Steps
  import opened Linear

  /** compare [lo], compare [lo + 1], ..., compare [hi - 1]. */
  function Checks(lo: int, hi: int): (r: seq<Step>)
    ensures |r| == if lo <= hi then hi - lo else 0
    ensures forall k :: 0 <= k < |r| ==> r[k] == Mk(Compare, [lo + k])
    decreases hi - lo
  {
    if lo >= hi then [] else [Mk(Compare, [lo])] + Checks(lo + 1, hi)
  }

  lemma {:induction false} FromFinds(a: seq<int>, target: int, i: int, j: int)
    requires 0 <= i <= j < |a| && a[j] == target
    requires forall k :: i <= k < j ==> a[k] != target
    ensures LinearFrom(a, target, i) == Checks(i, j + 1) + [Mk(Found, [j])]
    decreases j - i
  {
    if i < j {
      FromFinds(a, target, i + 1, j);
    }
  }

  lemma {:induction false} FromMisses(a: seq<int>, target: int, i: int)
    requires 0 <= i <= |a|
    requires forall k :: i <= k < |a| ==> a[k] != target
    ensures LinearFrom(a, target, i) == Checks(i, |a|) + [Noted(Highlight, [], NotFound)]
    decreases |a| - i
  {
    if i < |a| {
      FromMisses(a, target, i + 1);
    }
  }

  /** When i is the first index holding the target, the trace is compare [0], ...,
      compare [i], then found [i] as its last step: i + 2 steps in all. */
  lemma LinearSearchFinds(a: seq<int>, target: int, i: int)
    requires 0 <= i < |a| && a[i] == target
    requires forall k :: 0 <= k < i ==> a[k] != target
    ensures LinearSearchTrace(a, target) == Checks(0, i + 1) + [Mk(Found, [i])]
    ensures |LinearSearchTrace(a, target)| == i + 2
  {
    FromFinds(a, target, 0, i);
  }

  /** When the target is absent, the trace is one compare per index in order, then
      the "not found" highlight with no indices: |a| + 1 steps, none of them found. */
  lemma LinearSearchMisses(a: seq<int>, target: int)
    requires target !in a
    ensures LinearSearchTrace(a, target) == Checks(0, |a|) + [Noted(Highlight, [], NotFound)]
    ensures |LinearSearchTrace(a, target)| == |a| + 1
    ensures forall p :: 0 <= p < |LinearSearchTrace(a, target)| ==> LinearSearchTrace(a, target)[p].kind != Found
  {
    FromMisses(a, target, 0);
  }

  /** The first index holding the target, or |a| when there is none. */
  function FirstAt(a: seq<int>, target: int, i: int): (r: int)
    requires 0 <= i <= |a|
    ensures i <= r <= |a| && (r < |a| ==> a[r] == target)
    ensures forall k :: i <= k < r ==> a[k] != target
    decreases |a| - i
  {
    if i == |a| || a[i] == target then i else FirstAt(a, target, i + 1)
  }

  /** The trace holds a found step exactly when the target occurs; that step is the
      last one and names the first index holding the target. */
  lemma LinearSearchOutcome(a: seq<int>, target: int)
    ensures var t := LinearSearchTrace(a, target);
      (target in a <==> exists p :: 0 <= p < |t| && t[p].kind == Found) &&
      forall p :: 0 <= p < |t| && t[p].kind == Found ==>
        p == |t| - 1 && t[p].indices == [FirstAt(a, target, 0)] && a[FirstAt(a, target, 0)] == target
  {
    var t := LinearSearchTrace(a, target);
    var i := FirstAt(a, target, 0);
    if i < |a| {
      LinearSearchFinds(a, target, i);
      assert t[|t| - 1].kind == Found;
    } else {
      assert target !in a;
      LinearSearchMisses(a, target);
    }
  }

  /** The trace has no swap or overwrite step, so replaying it changes nothing. */
  lemma LinearSearchQuiet(a: seq<int>, target: int)
    ensures forall p :: 0 <= p < |LinearSearchTrace(a, target)| ==> !IsMutation(LinearSearchTrace(a, target)[p])
    ensures forall b :: ReplaySwaps(b, LinearSearchTrace(a, target)) == b
  {
    var t := LinearSearchTrace(a, target);
    var i := FirstAt(a, target, 0);
    if i < |a| {
      LinearSearchFinds(a, target, i);
    } else {
      LinearSearchMisses(a, target);
    }
    ReplaysIgnore(t);
  }
}
