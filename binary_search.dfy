/** Binary search trace generator (src/core/algorithms/binarySearch.ts). */
module Binary {
  import opened Steps

  /** The steps the `while (low <= high)` loop yields from the range [low, high] on:
      the range highlighted (tagged "Searching range"), compare [mid], then found [mid]
      and stop, or a highlight [low, mid, high] and the half that may still hold the
      target; an empty range ends in the highlight with no indices tagged "not found". */
  function BinaryFrom(a: seq<int>, target: int, low: int, high: int): (r: seq<Step>)
    requires 0 <= low <= high + 1 <= |a|
    ensures |r| > 0
    decreases high - low + 1, 1
  {
    if low > high then [Noted(Highlight, [], NotFound)] else BinaryStep(a, target, low, high)
  }

  /** One iteration on the non-empty range [low, high] and the rest of the loop. */
  function BinaryStep(a: seq<int>, target: int, low: int, high: int): (r: seq<Step>)
    requires 0 <= low <= high < |a|
    ensures |r| >= 3
    decreases high - low + 1, 0
  {
    var mid := Mid(low, high);
    if a[mid] == target then Probe(low, high) + [Mk(Found, [mid])]
    else Probe(low, high) + [Mk(Highlight, [low, mid, high])] + BinaryFrom(a, target, NextLow(a, target, low, high), NextHigh(a, target, low, high))
  }

  /** The range highlight (tagged "Searching range") and compare [mid] that open the
      iteration on [low, high]. */
  function Probe(low: int, high: int): seq<Step>
    requires low <= high
  {
    [Noted(Highlight, Range(low, high + 1), SearchingRange), Mk(Compare, [Mid(low, high)])]
  }

  /** `low` after an iteration that did not find the target: mid + 1 when array[mid]
      is below the target. */
  function NextLow(a: seq<int>, target: int, low: int, high: int): int
    requires 0 <= low <= high < |a|
  {
    if a[Mid(low, high)] < target then Mid(low, high) + 1 else low
  }

  /** `high` after such an iteration: mid - 1 when array[mid] is above the target. */
  function NextHigh(a: seq<int>, target: int, low: int, high: int): int
    requires 0 <= low <= high < |a|
  {
    if a[Mid(low, high)] < target then high else Mid(low, high) - 1
  }

  /** The trace `binarySearch(array, target)` yields. */
  function BinarySearchTrace(a: seq<int>, target: int): seq<Step> {
    BinaryFrom(a, target, 0, |a| - 1)
  }

  /** An iteration that finds the target at mid completes the trace. */
  lemma FoundAtMid(total: seq<Step>, s: seq<Step>, a: seq<int>, target: int, low: int, high: int, mid: int)
    requires 0 <= low <= high < |a| && mid == Mid(low, high) && a[mid] == target
    requires total == s + BinaryFrom(a, target, low, high)
    ensures total == s + [Noted(Highlight, Range(low, high + 1), SearchingRange), Mk(Compare, [mid]), Mk(Found, [mid])]
  {
    assert BinaryFrom(a, target, low, high) == BinaryStep(a, target, low, high);
  }

  /** An iteration that misses emits its three steps and continues on [nl, nh]. */
  lemma Advance(total: seq<Step>, s: seq<Step>, a: seq<int>, target: int, low: int, high: int, mid: int, nl: int, nh: int)
    requires 0 <= low <= high < |a| && mid == Mid(low, high) && a[mid] != target
    requires total == s + BinaryFrom(a, target, low, high)
    requires nl == NextLow(a, target, low, high) && nh == NextHigh(a, target, low, high)
    ensures 0 <= nl <= nh + 1 <= |a| && nh - nl < high - low
    ensures total == s + [Noted(Highlight, Range(low, high + 1), SearchingRange), Mk(Compare, [mid]), Mk(Highlight, [low, mid, high])] + BinaryFrom(a, target, nl, nh)
  {
    assert BinaryFrom(a, target, low, high) == BinaryStep(a, target, low, high);
    MidIsFloor(low, high);
  }

  /** An empty range ends the trace in the "not found" highlight. */
  lemma Exhausted(total: seq<Step>, s: seq<Step>, a: seq<int>, target: int, low: int, high: int)
    requires 0 <= low == high + 1 <= |a|
    requires total == s + BinaryFrom(a, target, low, high)
    ensures total == s + [Noted(Highlight, [], NotFound)]
  {
  }

  /** The generator, as the source's loop with its early return. */
  method BinarySearch(a: seq<int>, target: int) returns (steps: seq<Step>)
    ensures steps == BinarySearchTrace(a, target)
  {
    ghost var total := BinarySearchTrace(a, target);
    var low, high := 0, |a| - 1;
    steps := [];
    EmptyPrefix(BinaryFrom(a, target, low, high));
    while low <= high
      invariant 0 <= low <= high + 1 <= |a|
      invariant total == steps + BinaryFrom(a, target, low, high)
      decreases high - low
    {
      var mid := (low + high) / 2;
      MidIsFloor(low, high);
      if a[mid] == target {
        FoundAtMid(total, steps, a, target, low, high, mid);
        steps := steps + [Noted(Highlight, Range(low, high + 1), SearchingRange), Mk(Compare, [mid]), Mk(Found, [mid])];
        return;
      }
      var nl, nh := low, high;
      if a[mid] < target {
        nl := mid + 1;
      } else {
        nh := mid - 1;
      }
      Advance(total, steps, a, target, low, high, mid, nl, nh);
      steps := steps + [Noted(Highlight, Range(low, high + 1), SearchingRange), Mk(Compare, [mid]), Mk(Highlight, [low, mid, high])];
      low, high := nl, nh;
    }
    Exhausted(total, steps, a, target, low, high);
    steps := steps + [Noted(Highlight, [], NotFound)];
  }
}

module BinaryFacts {
  import opened Steps
  import opened Binary

  /** After an iteration that misses, the range shrinks to one of its halves: the
      upper half when array[mid] is below the target, the lower one otherwise. */
  lemma NextRange(a: seq<int>, target: int, low: int, high: int)
    requires 0 <= low <= high < |a|
    ensures var mid, nl, nh := Mid(low, high), NextLow(a, target, low, high), NextHigh(a, target, low, high);
      low <= mid <= high && low <= nl <= nh + 1 <= high + 1 &&
      (a[mid] < target ==> nl == mid + 1 && nh == high) && (a[mid] >= target ==> nl == low && nh == mid - 1) &&
      nh - nl + 1 <= Half(high - low + 1)
  {
  }

  /** Every index the search of [low, high] names lies in [low, high]. */
  lemma {:induction false} FromBetween(a: seq<int>, target: int, low: int, high: int)
    requires 0 <= low <= high + 1 <= |a|
    ensures IndicesBetween(BinaryFrom(a, target, low, high), low, high)
    decreases high - low + 1
  {
    if low <= high {
      var mid := Mid(low, high);
      var probe := Probe(low, high);
      assert IndicesBetween(probe, low, high);
      if a[mid] == target {
        IndicesBetweenAppend(probe, [Mk(Found, [mid])], low, high);
      } else {
        var nl, nh := NextLow(a, target, low, high), NextHigh(a, target, low, high);
        NextRange(a, target, low, high);
        var x := [Mk(Highlight, [low, mid, high])];
        FromBetween(a, target, nl, nh);
        IndicesBetweenWiden(BinaryFrom(a, target, nl, nh), nl, nh, low, high);
        IndicesBetweenAppend(probe, x, low, high);
        IndicesBetweenAppend(probe + x, BinaryFrom(a, target, nl, nh), low, high);
      }
    }
  }

  /** Every index the trace names is an index of the array. */
  lemma BinarySearchBounds(a: seq<int>, target: int)
    ensures IndicesIn(BinarySearchTrace(a, target), |a|)
  {
    FromBetween(a, target, 0, |a| - 1);
  }

  /** A found step names an index holding the target and is the last step, so there
      is at most one. */
  ghost predicate FoundLast(a: seq<int>, target: int, t: seq<Step>) {
    forall p :: 0 <= p < |t| && t[p].kind == Found ==>
      p == |t| - 1 && |t[p].indices| == 1 && 0 <= t[p].indices[0] < |a| && a[t[p].indices[0]] == target
  }

  lemma FoundChain(a: seq<int>, target: int, head: seq<Step>, rest: seq<Step>)
    requires forall p :: 0 <= p < |head| ==> head[p].kind != Found
    requires FoundLast(a, target, rest)
    ensures FoundLast(a, target, head + rest)
  {
    var t := head + rest;
    forall p | 0 <= p < |t| && t[p].kind == Found
      ensures p == |t| - 1 && |t[p].indices| == 1 && 0 <= t[p].indices[0] < |a| && a[t[p].indices[0]] == target
    {
      assert t[p] == rest[p - |head|];
    }
  }

  lemma {:induction false} FromFoundLast(a: seq<int>, target: int, low: int, high: int)
    requires 0 <= low <= high + 1 <= |a|
    ensures FoundLast(a, target, BinaryFrom(a, target, low, high))
    decreases high - low + 1
  {
    if low <= high {
      var mid := Mid(low, high);
      if a[mid] != target {
        var nl, nh := NextLow(a, target, low, high), NextHigh(a, target, low, high);
        NextRange(a, target, low, high);
        FromFoundLast(a, target, nl, nh);
        FoundChain(a, target, Probe(low, high) + [Mk(Highlight, [low, mid, high])], BinaryFrom(a, target, nl, nh));
      }
    }
  }

  /** t ends in a found step or in the "not found" highlight. */
  ghost predicate Concludes(t: seq<Step>) {
    |t| > 0 && (t[|t| - 1].kind == Found || t[|t| - 1] == Noted(Highlight, [], NotFound))
  }

  lemma ConcludesChain(head: seq<Step>, rest: seq<Step>)
    requires Concludes(rest)
    ensures Concludes(head + rest)
  {
    assert (head + rest)[|head + rest| - 1] == rest[|rest| - 1];
  }

  lemma {:induction false} FromEnds(a: seq<int>, target: int, low: int, high: int)
    requires 0 <= low <= high + 1 <= |a|
    ensures Concludes(BinaryFrom(a, target, low, high))
    decreases high - low + 1
  {
    if low <= high {
      var mid := Mid(low, high);
      assert BinaryFrom(a, target, low, high) == BinaryStep(a, target, low, high);
      if a[mid] == target {
        ConcludesChain(Probe(low, high), [Mk(Found, [mid])]);
      } else {
        var nl, nh := NextLow(a, target, low, high), NextHigh(a, target, low, high);
        NextRange(a, target, low, high);
        FromEnds(a, target, nl, nh);
        ConcludesChain(Probe(low, high) + [Mk(Highlight, [low, mid, high])], BinaryFrom(a, target, nl, nh));
      }
    }
  }

  /** It ends either in found [m] with array[m] equal to the target, or in the "not
      found" highlight with no indices; found occurs at most once, as the last step.
      The empty array gives exactly the "not found" highlight. */
  lemma BinarySearchEnds(a: seq<int>, target: int)
    ensures FoundLast(a, target, BinarySearchTrace(a, target))
    ensures var t := BinarySearchTrace(a, target);
      t[|t| - 1].kind == Found || t[|t| - 1] == Noted(Highlight, [], NotFound)
    ensures |a| == 0 ==> BinarySearchTrace(a, target) == [Noted(Highlight, [], NotFound)]
  {
    FromFoundLast(a, target, 0, |a| - 1);
    FromEnds(a, target, 0, |a| - 1);
  }

  lemma LastOf(head: seq<Step>, rest: seq<Step>)
    requires |rest| > 0
    ensures (head + rest)[|head + rest| - 1] == rest[|rest| - 1]
  {
  }

  /** On ascending input, a target present in [low, high] is found. */
  lemma {:induction false} FromFinds(a: seq<int>, target: int, low: int, high: int, k: int)
    requires 0 <= low <= high + 1 <= |a| && Ascending(a)
    requires low <= k <= high && a[k] == target
    ensures var t := BinaryFrom(a, target, low, high); t[|t| - 1].kind == Found
    decreases high - low + 1
  {
    var mid := Mid(low, high);
    if a[mid] != target {
      var nl, nh := NextLow(a, target, low, high), NextHigh(a, target, low, high);
      NextRange(a, target, low, high);
      assert nl <= k <= nh;
      FromFinds(a, target, nl, nh, k);
      LastOf(Probe(low, high) + [Mk(Highlight, [low, mid, high])], BinaryFrom(a, target, nl, nh));
    }
  }

  /** On ascending input the search is complete: the trace ends in found exactly when
      the target occurs, and otherwise in the "not found" highlight. */
  lemma BinarySearchDecides(a: seq<int>, target: int)
    requires Ascending(a)
    ensures var t := BinarySearchTrace(a, target);
      (target in a <==> t[|t| - 1].kind == Found) &&
      (target !in a <==> t[|t| - 1] == Noted(Highlight, [], NotFound))
  {
    BinarySearchEnds(a, target);
    if target in a {
      var k :| 0 <= k < |a| && a[k] == target;
      FromFinds(a, target, 0, |a| - 1, k);
    }
  }

  /** The highlight of one iteration: the indices lo, ..., hi of a non-empty range,
      tagged "Searching range", followed by a compare naming floor((lo + hi) / 2). */
  ghost predicate RangeThenMid(s: Step, c: Step) {
    var lo := if s.indices == [] then 0 else s.indices[0];
    var hi := lo + |s.indices| - 1;
    s.kind == Highlight && s.note == SearchingRange && lo <= hi &&
    s.indices == Range(lo, hi + 1) && c.indices == [(lo + hi) / 2]
  }

  ghost predicate ComparesInRange(t: seq<Step>) {
    forall p :: 0 <= p < |t| && t[p].kind == Compare ==> 0 < p && RangeThenMid(t[p - 1], t[p])
  }

  lemma RangeChain(lo: int, hi: int, tail: seq<Step>, rest: seq<Step>)
    requires lo <= hi && forall p :: 0 <= p < |tail| ==> tail[p].kind != Compare
    requires ComparesInRange(rest)
    ensures ComparesInRange(Probe(lo, hi) + tail + rest)
  {
    MidIsFloor(lo, hi);
    var head := Probe(lo, hi) + tail;
    var t := head + rest;
    assert RangeThenMid(head[0], head[1]);
    forall p | 0 <= p < |t| && t[p].kind == Compare ensures 0 < p && RangeThenMid(t[p - 1], t[p]) {
      if p >= |head| {
        assert t[p] == rest[p - |head|];
        assert t[p - 1] == rest[p - 1 - |head|];
      }
    }
  }

  lemma {:induction false} FromCompares(a: seq<int>, target: int, low: int, high: int)
    requires 0 <= low <= high + 1 <= |a|
    ensures ComparesInRange(BinaryFrom(a, target, low, high))
    decreases high - low + 1
  {
    if low <= high {
      var mid := Mid(low, high);
      if a[mid] == target {
        RangeChain(low, high, [Mk(Found, [mid])], []);
        assert BinaryFrom(a, target, low, high) == Probe(low, high) + [Mk(Found, [mid])] + [];
      } else {
        var nl, nh := NextLow(a, target, low, high), NextHigh(a, target, low, high);
        NextRange(a, target, low, high);
        FromCompares(a, target, nl, nh);
        RangeChain(low, high, [Mk(Highlight, [low, mid, high])], BinaryFrom(a, target, nl, nh));
        assert BinaryFrom(a, target, low, high) == Probe(low, high) + [Mk(Highlight, [low, mid, high])] + BinaryFrom(a, target, nl, nh);
      }
    }
  }

  /** Each iteration highlights exactly low, ..., high and then compares the middle
      index floor((low + high) / 2), which lies in that range. */
  lemma BinarySearchIterations(a: seq<int>, target: int)
    ensures ComparesInRange(BinarySearchTrace(a, target))
  {
    FromCompares(a, target, 0, |a| - 1);
  }

  /** floor(log2 m) + 1 for m >= 1: how often a range of m elements can be halved. */
  function Bits(m: nat): (b: nat)
    ensures m > 0 ==> b > 0
    decreases m
  {
    if m == 0 then 0 else 1 + Bits(Half(m))
  }

  lemma {:induction false} BitsGrow(x: nat, y: nat)
    requires x <= y
    ensures Bits(x) <= Bits(y)
    decreases y
  {
    if x > 0 {
      BitsGrow(Half(x), Half(y));
    }
  }

  lemma LengthStep(t: nat, rest: nat, m: nat, m2: nat)
    requires m > 0 && m2 <= Half(m) && t == 3 + rest && rest <= 3 * Bits(m2) + 1
    ensures t <= 3 * Bits(m) + 1
  {
    BitsGrow(m2, Half(m));
  }

  /** The next range of a missed iteration is at most half as long and lies in the array. */
  lemma NextShrinks(a: seq<int>, target: int, low: int, high: int, nl: int, nh: int)
    requires 0 <= low <= high < |a|
    requires nl == NextLow(a, target, low, high) && nh == NextHigh(a, target, low, high)
    ensures 0 <= nl <= nh + 1 <= |a| && nh - nl + 1 <= Half(high - low + 1)
  {
    NextRange(a, target, low, high);
  }

  /** A missed iteration emits three steps before the search of the next range. */
  lemma MissLength(a: seq<int>, target: int, low: int, high: int, nl: int, nh: int)
    requires 0 <= low <= high < |a| && a[Mid(low, high)] != target
    requires nl == NextLow(a, target, low, high) && nh == NextHigh(a, target, low, high)
    requires 0 <= nl <= nh + 1 <= |a|
    ensures |BinaryFrom(a, target, low, high)| == 3 + |BinaryFrom(a, target, nl, nh)|
  {
    assert BinaryFrom(a, target, low, high) == BinaryStep(a, target, low, high);
  }

  /** Each iteration that does not find the target at least halves the range, so
      [low, high] of m elements yields at most 3 * Bits(m) + 1 steps. */
  lemma {:induction false} FromLength(a: seq<int>, target: int, low: int, high: int)
    requires 0 <= low <= high + 1 <= |a|
    ensures |BinaryFrom(a, target, low, high)| <= 3 * Bits(high - low + 1) + 1
    decreases high - low + 1
  {
    if low <= high && a[Mid(low, high)] != target {
      var nl, nh := NextLow(a, target, low, high), NextHigh(a, target, low, high);
      NextShrinks(a, target, low, high, nl, nh);
      FromLength(a, target, nl, nh);
      MissLength(a, target, low, high, nl, nh);
      LengthStep(|BinaryFrom(a, target, low, high)|, |BinaryFrom(a, target, nl, nh)|, high - low + 1, nh - nl + 1);
    }
  }

  /** The search takes at most Bits(|a|) iterations of three steps, plus the final
      "not found" highlight. */
  lemma BinarySearchLength(a: seq<int>, target: int)
    ensures |BinarySearchTrace(a, target)| <= 3 * Bits(|a|) + 1
  {
    FromLength(a, target, 0, |a| - 1);
  }

  lemma {:induction false} FromQuiet(a: seq<int>, target: int, low: int, high: int)
    requires 0 <= low <= high + 1 <= |a|
    ensures forall p :: 0 <= p < |BinaryFrom(a, target, low, high)| ==> !IsMutation(BinaryFrom(a, target, low, high)[p])
    decreases high - low + 1
  {
    if low <= high && a[Mid(low, high)] != target {
      var nl, nh := NextLow(a, target, low, high), NextHigh(a, target, low, high);
      NextRange(a, target, low, high);
      FromQuiet(a, target, nl, nh);
      QuietChain(Probe(low, high) + [Mk(Highlight, [low, Mid(low, high), high])], BinaryFrom(a, target, nl, nh));
    }
  }

  lemma QuietChain(head: seq<Step>, rest: seq<Step>)
    requires forall p :: 0 <= p < |head| ==> !IsMutation(head[p])
    requires forall p :: 0 <= p < |rest| ==> !IsMutation(rest[p])
    ensures forall p :: 0 <= p < |head + rest| ==> !IsMutation((head + rest)[p])
  {
  }

  /** The trace has no swap or overwrite step, so replaying it changes nothing. */
  lemma BinarySearchQuiet(a: seq<int>, target: int)
    ensures forall p :: 0 <= p < |BinarySearchTrace(a, target)| ==> !IsMutation(BinarySearchTrace(a, target)[p])
    ensures forall b :: ReplaySwaps(b, BinarySearchTrace(a, target)) == b
  {
    FromQuiet(a, target, 0, |a| - 1);
    ReplaysIgnore(BinarySearchTrace(a, target));
  }
}
