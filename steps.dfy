/** The trace vocabulary shared by every generator (src/types/types.ts) and the
    replay of a trace onto a copy of the input array. */
module Steps {

  datatype Option<T> = None | Some(value: T)

  /** The nine kinds of `AlgorithmStep`. */
  datatype Kind = Compare | Swap | Highlight | Sorted | Overwrite | Found | Visit | Relax | Path

  /** The descriptions are display text; only the wording that callers inspect is kept. */
  datatype Note = Plain | SearchingRange | NotFound | FullySorted

  datatype StepEdge = StepEdge(source: int, target: int)

  /** One `AlgorithmStep`: its kind, the indices (or node ids) it names, an optional
      value and an optional edge, plus the tag of its description. */
  datatype Step = Step(kind: Kind, indices: seq<int>, value: Option<int>, edge: Option<StepEdge>, note: Note)

  /** An array state together with the steps that produced it. */
  datatype SortRun = SortRun(arr: seq<int>, steps: seq<Step>)

  function Mk(kind: Kind, indices: seq<int>): Step {
    Step(kind, indices, None, None, Plain)
  }

  function Noted(kind: Kind, indices: seq<int>, note: Note): Step {
    Step(kind, indices, None, None, note)
  }

  /** The overwrite step of merge sort: index k receives v. */
  function Write(k: int, v: int): Step {
    Step(Overwrite, [k], Some(v), None, Plain)
  }

  predicate IsMutation(s: Step) {
    s.kind == Swap || s.kind == Overwrite
  }

  /** lo, lo+1, ..., hi-1 (`Array.from({length}, (_, k) => k + lo)`). */
  function Range(lo: int, hi: int): (r: seq<int>)
    ensures |r| == if lo <= hi then hi - lo else 0
    ensures forall k :: 0 <= k < |r| ==> r[k] == lo + k
    decreases hi - lo
  {
    if lo >= hi then [] else [lo] + Range(lo + 1, hi)
  }

  /** One `sorted` step per index lo, ..., hi-1, in that order. */
  function MarkEach(lo: int, hi: int): (r: seq<Step>)
    ensures |r| == if lo <= hi then hi - lo else 0
    ensures forall k :: 0 <= k < |r| ==> r[k] == Mk(Sorted, [lo + k])
    decreases hi - lo
  {
    if lo >= hi then [] else [Mk(Sorted, [lo])] + MarkEach(lo + 1, hi)
  }

  /** The steps of kind k, in trace order. */
  function OfKind(steps: seq<Step>, k: Kind): (r: seq<Step>)
    ensures |r| <= |steps|
  {
    if steps == [] then []
    else (if steps[0].kind == k then [steps[0]] else []) + OfKind(steps[1..], k)
  }

  lemma {:induction false} OfKindAppend(xs: seq<Step>, ys: seq<Step>, k: Kind)
    ensures OfKind(xs + ys, k) == OfKind(xs, k) + OfKind(ys, k)
  {
    if xs != [] {
      var h := if xs[0].kind == k then [xs[0]] else [];
      assert (xs + ys)[0] == xs[0];
      assert (xs + ys)[1..] == xs[1..] + ys;
      OfKindAppend(xs[1..], ys, k);
      Assoc(h, OfKind(xs[1..], k), OfKind(ys, k));
    } else {
      assert xs + ys == ys;
    }
  }

  lemma {:induction false} OfKindNone(steps: seq<Step>, k: Kind)
    requires forall p :: 0 <= p < |steps| ==> steps[p].kind != k
    ensures OfKind(steps, k) == []
  {
    if steps != [] {
      OfKindNone(steps[1..], k);
    }
  }

  lemma {:induction false} OfKindAll(steps: seq<Step>, k: Kind)
    requires forall p :: 0 <= p < |steps| ==> steps[p].kind == k
    ensures OfKind(steps, k) == steps
  {
    if steps != [] {
      OfKindAll(steps[1..], k);
      assert steps == [steps[0]] + steps[1..];
    }
  }

  /** The indices named by the `sorted` steps, in trace order. */
  function Marks(steps: seq<Step>): seq<int> {
    if steps == [] then []
    else (if steps[0].kind == Sorted then steps[0].indices else []) + Marks(steps[1..])
  }

  lemma {:induction false} MarksAppend(xs: seq<Step>, ys: seq<Step>)
    ensures Marks(xs + ys) == Marks(xs) + Marks(ys)
  {
    if xs != [] {
      assert (xs + ys)[1..] == xs[1..] + ys;
      MarksAppend(xs[1..], ys);
    } else {
      assert xs + ys == ys;
    }
  }

  lemma MarksOne(s: Step)
    ensures Marks([s]) == if s.kind == Sorted then s.indices else []
  {
    assert [s][1..] == [];
  }

  lemma {:induction false} MarksNone(steps: seq<Step>)
    requires forall p :: 0 <= p < |steps| ==> steps[p].kind != Sorted
    ensures Marks(steps) == []
  {
    if steps != [] {
      MarksNone(steps[1..]);
    }
  }

  lemma {:induction false} MarksOfMarkEach(lo: int, hi: int)
    ensures Marks(MarkEach(lo, hi)) == Range(lo, hi)
    decreases hi - lo
  {
    if lo < hi {
      assert MarkEach(lo, hi)[1..] == MarkEach(lo + 1, hi);
      MarksOfMarkEach(lo + 1, hi);
    }
  }

  lemma RangeSnoc(lo: int, hi: int)
    requires lo <= hi
    ensures Range(lo, hi + 1) == Range(lo, hi) + [hi]
  {
  }

  /** Every index named by any step lies in [0, n). */
  predicate IndicesIn(steps: seq<Step>, n: int) {
    forall p, q :: 0 <= p < |steps| && 0 <= q < |steps[p].indices| ==> 0 <= steps[p].indices[q] < n
  }

  lemma IndicesInAppend(xs: seq<Step>, ys: seq<Step>, n: int)
    requires IndicesIn(xs, n) && IndicesIn(ys, n)
    ensures IndicesIn(xs + ys, n)
  {
    forall p | 0 <= p < |xs + ys| ensures (xs + ys)[p] == if p < |xs| then xs[p] else ys[p - |xs|] {
    }
  }

  /** Every index any step names lies in [lo, hi]. */
  predicate IndicesBetween(steps: seq<Step>, lo: int, hi: int) {
    forall p, q :: 0 <= p < |steps| && 0 <= q < |steps[p].indices| ==> lo <= steps[p].indices[q] <= hi
  }

  lemma IndicesBetweenAppend(xs: seq<Step>, ys: seq<Step>, lo: int, hi: int)
    requires IndicesBetween(xs, lo, hi) && IndicesBetween(ys, lo, hi)
    ensures IndicesBetween(xs + ys, lo, hi)
  {
    forall p | 0 <= p < |xs + ys| ensures (xs + ys)[p] == if p < |xs| then xs[p] else ys[p - |xs|] {
    }
  }

  lemma IndicesBetweenWiden(steps: seq<Step>, lo: int, hi: int, lo2: int, hi2: int)
    requires IndicesBetween(steps, lo, hi) && lo2 <= lo && hi <= hi2
    ensures IndicesBetween(steps, lo2, hi2)
  {
  }

  predicate Ascending(s: seq<int>) {
    forall i, j :: 0 <= i < j < |s| ==> s[i] <= s[j]
  }

  /** Exchange positions i and j, as the destructuring assignment
      `[a[i], a[j]] = [a[j], a[i]]` does. */
  function SwapAt(a: seq<int>, i: int, j: int): (r: seq<int>)
    requires 0 <= i < |a| && 0 <= j < |a|
    ensures |r| == |a| && r[i] == a[j] && r[j] == a[i]
    ensures forall k :: 0 <= k < |a| && k != i && k != j ==> r[k] == a[k]
  {
    a[i := a[j]][j := a[i]]
  }

  lemma SwapAtPermutes(a: seq<int>, i: int, j: int)
    requires 0 <= i < |a| && 0 <= j < |a|
    ensures multiset(SwapAt(a, i, j)) == multiset(a)
  {
  }

  /** One step of the controller's replay: a swap step exchanges the two positions it
      names; every other step leaves the array alone. */
  function ApplySwap(a: seq<int>, s: Step): seq<int> {
    if s.kind == Swap && |s.indices| >= 2 && 0 <= s.indices[0] < |a| && 0 <= s.indices[1] < |a|
    then SwapAt(a, s.indices[0], s.indices[1])
    else a
  }

  /** Replays the swap steps of a trace, in order, on a copy of a. */
  function ReplaySwaps(a: seq<int>, steps: seq<Step>): (r: seq<int>)
    ensures |r| == |a|
  {
    if steps == [] then a
    else ApplySwap(ReplaySwaps(a, steps[..|steps| - 1]), steps[|steps| - 1])
  }

  /** Whatever the trace, the replayed array is a permutation of the initial one. */
  lemma {:induction false} ReplaySwapsPermutes(a: seq<int>, steps: seq<Step>)
    ensures multiset(ReplaySwaps(a, steps)) == multiset(a)
  {
    if steps != [] {
      var prev := ReplaySwaps(a, steps[..|steps| - 1]);
      ReplaySwapsPermutes(a, steps[..|steps| - 1]);
      var s := steps[|steps| - 1];
      if s.kind == Swap && |s.indices| >= 2 && 0 <= s.indices[0] < |prev| && 0 <= s.indices[1] < |prev| {
        SwapAtPermutes(prev, s.indices[0], s.indices[1]);
      }
    }
  }

  lemma {:induction false} ReplaySwapsAppend(a: seq<int>, xs: seq<Step>, ys: seq<Step>)
    ensures ReplaySwaps(a, xs + ys) == ReplaySwaps(ReplaySwaps(a, xs), ys)
    decreases |ys|
  {
    if ys == [] {
      assert xs + ys == xs;
    } else {
      var last := |ys| - 1;
      assert (xs + ys)[..|xs + ys| - 1] == xs + ys[..last];
      assert (xs + ys)[|xs + ys| - 1] == ys[last];
      ReplaySwapsAppend(a, xs, ys[..last]);
    }
  }

  /** Reconstructing at k and then at k + 1 differs by the single mutation, if any,
      that step k + 1 carries. */
  lemma ReplaySwapsNext(a: seq<int>, steps: seq<Step>, k: nat)
    requires k < |steps|
    ensures ReplaySwaps(a, steps[..k + 1]) == ApplySwap(ReplaySwaps(a, steps[..k]), steps[k])
  {
    assert steps[..k + 1][..k] == steps[..k];
  }

  /** Steps that are not swaps never change the replayed array. */
  lemma {:induction false} ReplaySwapsNoSwap(a: seq<int>, steps: seq<Step>)
    requires forall p :: 0 <= p < |steps| ==> steps[p].kind != Swap
    ensures ReplaySwaps(a, steps) == a
  {
    if steps != [] {
      ReplaySwapsNoSwap(a, steps[..|steps| - 1]);
    }
  }

  lemma ReplaySwapsPair(a: seq<int>, s: Step, i: int, j: int)
    requires 0 <= i < |a| && 0 <= j < |a| && s.kind != Swap
    ensures ReplaySwaps(a, [s, Mk(Swap, [i, j])]) == SwapAt(a, i, j)
  {
    assert [s, Mk(Swap, [i, j])] == [s] + [Mk(Swap, [i, j])];
    ReplaySwapsAppend(a, [s], [Mk(Swap, [i, j])]);
    ReplaySwapsOne(a, s);
    ReplaySwapsOne(a, Mk(Swap, [i, j]));
  }

  lemma ReplaySwapsThen(a: seq<int>, i: int, j: int, s: Step)
    requires 0 <= i < |a| && 0 <= j < |a| && s.kind != Swap
    ensures ReplaySwaps(a, [Mk(Swap, [i, j]), s]) == SwapAt(a, i, j)
  {
    assert [Mk(Swap, [i, j]), s] == [Mk(Swap, [i, j])] + [s];
    ReplaySwapsAppend(a, [Mk(Swap, [i, j])], [s]);
    ReplaySwapsOne(a, Mk(Swap, [i, j]));
    ReplaySwapsOne(SwapAt(a, i, j), s);
  }

  lemma ReplaySwapsOne(a: seq<int>, s: Step)
    ensures ReplaySwaps(a, [s]) == ApplySwap(a, s)
  {
    assert [s][..0] == [];
  }

  /** The overwrite replay of merge sort: an overwrite step stores its value at the
      index it names; every other step leaves the array alone. */
  function ApplyOverwrite(a: seq<int>, s: Step): seq<int> {
    if s.kind == Overwrite && |s.indices| >= 1 && 0 <= s.indices[0] < |a| && s.value.Some?
    then a[s.indices[0] := s.value.value]
    else a
  }

  function ReplayOverwrites(a: seq<int>, steps: seq<Step>): (r: seq<int>)
    ensures |r| == |a|
    decreases |steps|
  {
    if steps == [] then a
    else ReplayOverwrites(ApplyOverwrite(a, steps[0]), steps[1..])
  }

  lemma {:induction false} ReplayOverwritesAppend(a: seq<int>, xs: seq<Step>, ys: seq<Step>)
    ensures ReplayOverwrites(a, xs + ys) == ReplayOverwrites(ReplayOverwrites(a, xs), ys)
    decreases |xs|
  {
    if xs == [] {
      assert xs + ys == ys;
    } else {
      assert (xs + ys)[0] == xs[0] && (xs + ys)[1..] == xs[1..] + ys;
      ReplayOverwritesAppend(ApplyOverwrite(a, xs[0]), xs[1..], ys);
    }
  }

  lemma {:induction false} ReplayOverwritesNoWrite(a: seq<int>, steps: seq<Step>)
    requires forall p :: 0 <= p < |steps| ==> steps[p].kind != Overwrite
    ensures ReplayOverwrites(a, steps) == a
    decreases |steps|
  {
    if steps != [] {
      ReplayOverwritesNoWrite(a, steps[1..]);
    }
  }

  /** Only the overwrite steps matter to the overwrite replay. */
  lemma {:induction false} ReplayOverwritesFilter(a: seq<int>, steps: seq<Step>)
    ensures ReplayOverwrites(a, steps) == ReplayOverwrites(a, OfKind(steps, Overwrite))
    decreases |steps|
  {
    if steps != [] {
      var s := steps[0];
      ReplayOverwritesFilter(ApplyOverwrite(a, s), steps[1..]);
      if s.kind == Overwrite {
        assert OfKind(steps, Overwrite) == [s] + OfKind(steps[1..], Overwrite);
        assert ([s] + OfKind(steps[1..], Overwrite))[1..] == OfKind(steps[1..], Overwrite);
      } else {
        assert OfKind(steps, Overwrite) == OfKind(steps[1..], Overwrite);
      }
    }
  }

  lemma ReplayOverwritesOne(a: seq<int>, s: Step)
    ensures ReplayOverwrites(a, [s]) == ApplyOverwrite(a, s)
  {
    assert [s][1..] == [];
  }

  /** A trace with neither swap nor overwrite steps changes nothing under either replay. */
  lemma ReplaysIgnore(steps: seq<Step>)
    requires forall p :: 0 <= p < |steps| ==> !IsMutation(steps[p])
    ensures forall b :: ReplaySwaps(b, steps) == b && ReplayOverwrites(b, steps) == b
  {
    forall b ensures ReplaySwaps(b, steps) == b && ReplayOverwrites(b, steps) == b {
      ReplaySwapsNoSwap(b, steps);
      ReplayOverwritesNoWrite(b, steps);
    }
  }

  /** floor(n / 2), the one value h with 2h <= n < 2h + 2. */
  function Half(n: nat): (h: nat)
    ensures 2 * h <= n < 2 * h + 2
  {
    if n < 2 then 0 else Half(n - 2) + 1
  }

  /** `Math.floor((lo + hi) / 2)` for lo <= hi, as lo plus half the distance. */
  function Mid(lo: int, hi: int): int
    requires lo <= hi
  {
    lo + Half(hi - lo)
  }

  lemma MidIsFloor(lo: int, hi: int)
    requires lo <= hi
    ensures Mid(lo, hi) == (lo + hi) / 2
    ensures lo <= Mid(lo, hi) <= hi && (lo < hi ==> Mid(lo, hi) < hi)
  {
  }

  lemma EmptyPrefix<T>(x: seq<T>)
    ensures [] + x == x
  {
  }

  lemma Assoc<T>(a: seq<T>, b: seq<T>, c: seq<T>)
    ensures (a + b) + c == a + (b + c)
  {
  }

  /** trace ends with `sorted [0]`, ..., `sorted [n-1]`, and has no other sorted step. */
  predicate EndsWithMarks(trace: seq<Step>, n: nat) {
    |trace| >= n &&
    (forall t :: 0 <= t < n ==> trace[|trace| - n + t] == Mk(Sorted, [t])) &&
    (forall p :: 0 <= p < |trace| - n ==> trace[p].kind != Sorted)
  }

  lemma MarksAtEnd(body: seq<Step>, n: nat)
    requires forall p :: 0 <= p < |body| ==> body[p].kind != Sorted
    ensures EndsWithMarks(body + MarkEach(0, n), n)
  {
    var marks := MarkEach(0, n);
    var trace := body + marks;
    assert |marks| == n && |trace| == |body| + n;
    assert forall t :: 0 <= t < n ==> trace[|body| + t] == Mk(Sorted, [t]) by {
      forall t | 0 <= t < n ensures trace[|body| + t] == Mk(Sorted, [t]) {
        assert trace[|body| + t] == marks[t];
      }
    }
    assert forall p :: 0 <= p < |body| ==> trace[p].kind != Sorted by {
      forall p | 0 <= p < |body| ensures trace[p].kind != Sorted {
        assert trace[p] == body[p];
      }
    }
  }

  lemma MarkEachSnoc(lo: int, hi: int)
    requires lo <= hi
    ensures MarkEach(lo, hi + 1) == MarkEach(lo, hi) + [Mk(Sorted, [hi])]
  {
  }

  /** Sortedness from adjacent pairs: if s[q] <= s[q+1] for every q < m - 1, then s[..m]
      is ascending. */
  lemma {:induction false} AdjacentAscending(s: seq<int>, m: nat)
    requires m <= |s|
    requires forall q :: 0 <= q && q + 1 < m ==> s[q] <= s[q + 1]
    ensures forall i, j :: 0 <= i < j < m ==> s[i] <= s[j]
  {
    if m > 1 {
      AdjacentAscending(s, m - 1);
      forall i | 0 <= i < m - 1 ensures s[i] <= s[m - 1] {
        assert s[i] <= s[m - 2];
      }
    }
  }

  /** Every element of s is below v exactly when every element of a permutation of s is. */
  lemma BoundByMultiset(s: seq<int>, t: seq<int>)
    requires multiset(s) == multiset(t)
    ensures forall k :: 0 <= k < |s| ==> s[k] in t
  {
    forall k | 0 <= k < |s| ensures s[k] in t {
      assert s[k] in multiset(s);
    }
  }

  /** [lo, hi] of a is in ascending order. */
  ghost predicate SortedSlice(a: seq<int>, lo: int, hi: int) {
    forall p, q :: lo <= p < q <= hi && 0 <= p && q < |a| ==> a[p] <= a[q]
  }

  /** b agrees with a everywhere outside [lo, hi]. */
  ghost predicate SameOutside(a: seq<int>, b: seq<int>, lo: int, hi: int) {
    |a| == |b| && forall p :: 0 <= p < |a| && !(lo <= p <= hi) ==> a[p] == b[p]
  }

  /** b is a with [lo, hi] sorted ascending and nothing else changed. */
  ghost predicate SortsRange(a: seq<int>, b: seq<int>, lo: int, hi: int) {
    SortedSlice(b, lo, hi) && SameOutside(a, b, lo, hi) && multiset(b) == multiset(a)
  }

  /** Changing only [lo, hi] while permuting the whole permutes [lo, hi]. */
  lemma SlicePermutes(a: seq<int>, b: seq<int>, lo: int, hi: int)
    requires 0 <= lo <= hi + 1 <= |a| && SameOutside(a, b, lo, hi) && multiset(b) == multiset(a)
    ensures multiset(b[lo..hi + 1]) == multiset(a[lo..hi + 1])
  {
    var x, y := a[..lo], a[hi + 1..];
    assert a == x + a[lo..hi + 1] + y;
    assert b[..lo] == x && b[hi + 1..] == y;
    assert b == x + b[lo..hi + 1] + y;
    MultisetCancel(x, a[lo..hi + 1], b[lo..hi + 1], y);
  }

  lemma MultisetCancel(x: seq<int>, s: seq<int>, t: seq<int>, y: seq<int>)
    requires multiset(x + s + y) == multiset(x + t + y)
    ensures multiset(s) == multiset(t)
  {
    var ms, mt := multiset(x + s + y), multiset(x + t + y);
    assert ms == multiset(x) + multiset(s) + multiset(y);
    assert mt == multiset(x) + multiset(t) + multiset(y);
    var ss, st := multiset(s), multiset(t);
    forall v ensures ss[v] == st[v] {
      assert ms[v] == mt[v];
    }
    assert ss == st;
  }

  /** Each element of [lo, hi] after such a change was somewhere in [lo, hi] before. */
  lemma PermutedRange(a: seq<int>, b: seq<int>, lo: int, hi: int)
    requires 0 <= lo <= hi + 1 <= |a| && SameOutside(a, b, lo, hi) && multiset(b) == multiset(a)
    ensures forall k :: lo <= k <= hi ==> exists m :: lo <= m <= hi && b[k] == a[m]
  {
    SlicePermutes(a, b, lo, hi);
    var s, t := a[lo..hi + 1], b[lo..hi + 1];
    forall k | lo <= k <= hi ensures exists m :: lo <= m <= hi && b[k] == a[m] {
      assert b[k] == t[k - lo];
      assert t[k - lo] in multiset(t);
      var j :| 0 <= j < |s| && s[j] == b[k];
      assert a[lo + j] == b[k];
    }
  }

  lemma AscendingSlice(a: seq<int>, lo: int, hi: int)
    requires 0 <= lo <= hi + 1 <= |a| && SortedSlice(a, lo, hi)
    ensures Ascending(a[lo..hi + 1])
  {
    var s := a[lo..hi + 1];
    forall p, q | 0 <= p < q < |s| ensures s[p] <= s[q] {
      assert s[p] == a[lo + p] && s[q] == a[lo + q];
    }
  }
}
