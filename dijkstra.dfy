/** Dijkstra trace generator over an undirected weighted graph
    (src/core/algorithms/dijkstra.ts, graph types from src/types/types.ts). */
module ShortestPath {
  import opened Steps

  /** A node of `GraphData`; x and y only place it on screen. */
  datatype GraphNode = GraphNode(id: int, x: int, y: int)

  datatype GraphEdge = GraphEdge(source: int, target: int, weight: int)

  datatype Graph = Graph(nodes: seq<GraphNode>, edges: seq<GraphEdge>)

  /** The scan state: the `distances` and `previous` records (None stands for
      Infinity and for null) and the `unvisited` Set, kept in insertion order, which
      is the order a JavaScript Set is iterated in. */
  datatype Scan = Scan(dist: map<int, Option<int>>, prev: map<int, Option<int>>, unvisited: seq<int>)

  /** A scan state together with the steps that led to it. */
  datatype Run = Run(scan: Scan, steps: seq<Step>)

  /** The node the min-scan settled on and its distance; None is `null`/Infinity. */
  datatype Pick = Pick(node: Option<int>, dist: Option<int>)

  /** `nodes.map(n => n.id)`. */
  function Ids(nodes: seq<GraphNode>): (r: seq<int>)
    ensures |r| == |nodes| && forall k :: 0 <= k < |r| ==> r[k] == nodes[k].id
  {
    seq(|nodes|, k requires 0 <= k < |nodes| => nodes[k].id)
  }

  /** `distances[id]`, where an id without an entry reads as Infinity. */
  function Lookup(dist: map<int, Option<int>>, id: int): Option<int> {
    if id in dist then dist[id] else None
  }

  /** JavaScript's `<` on numbers that may be Infinity. */
  predicate Less(x: Option<int>, y: Option<int>) {
    x.Some? && (y.None? || x.value < y.value)
  }

  /** `Set.add`: a new id goes to the end, a present one keeps its place. */
  function AddNew(s: seq<int>, id: int): (r: seq<int>)
    ensures forall x :: x in r <==> x in s || x == id
  {
    if id in s then s else s + [id]
  }

  /** `Set.delete`. */
  function Remove(s: seq<int>, id: int): (r: seq<int>)
    ensures forall x :: x in r <==> x in s && x != id
    ensures |r| <= |s| && (id in s ==> |r| < |s|)
  {
    if s == [] then []
    else if s[0] == id then Remove(s[1..], id)
    else [s[0]] + Remove(s[1..], id)
  }

  /** The state after the initialising `for` loop has run over `nodes`: every id at
      Infinity with no predecessor, and in the unvisited Set. */
  function InitFrom(nodes: seq<GraphNode>): Scan
  {
    if nodes == [] then Scan(map[], map[], [])
    else
      var s := InitFrom(nodes[..|nodes| - 1]);
      var id := nodes[|nodes| - 1].id;
      Scan(s.dist[id := None], s.prev[id := None], AddNew(s.unvisited, id))
  }

  /** The state the main loop starts from: the start node at distance 0. */
  function Start(g: Graph, start: int): Scan {
    var s := InitFrom(g.nodes);
    Scan(s.dist[start := Some(0)], s.prev, s.unvisited)
  }

  /** The min-scan `for (const nodeId of unvisited)` from position k on, with the
      best node and distance so far: a node replaces the best one only when strictly
      closer, so ties go to the earliest. */
  function MinFrom(dist: map<int, Option<int>>, unv: seq<int>, k: int, best: Pick): (r: Pick)
    requires 0 <= k <= |unv|
    requires best.node.Some? ==> best.node.value in unv
    ensures r.node.Some? ==> r.node.value in unv
    decreases |unv| - k
  {
    if k == |unv| then best
    else if Less(Lookup(dist, unv[k]), best.dist) then MinFrom(dist, unv, k + 1, Pick(Some(unv[k]), Lookup(dist, unv[k])))
    else MinFrom(dist, unv, k + 1, best)
  }

  function MinScan(dist: map<int, Option<int>>, unv: seq<int>): (r: Pick)
    ensures r.node.Some? ==> r.node.value in unv
  {
    MinFrom(dist, unv, 0, Pick(None, None))
  }

  /** `edges.filter(e => e.source === u || e.target === u)`. */
  function Neighbors(edges: seq<GraphEdge>, u: int): (r: seq<GraphEdge>)
    ensures |r| <= |edges|
  {
    if edges == [] then []
    else (if edges[0].source == u || edges[0].target == u then [edges[0]] else []) + Neighbors(edges[1..], u)
  }

  /** The end of e that is not u (`edge.source === u ? edge.target : edge.source`). */
  function Other(e: GraphEdge, u: int): int {
    if e.source == u then e.target else e.source
  }

  function CompareStep(u: int, v: int): Step {
    Step(Compare, [u, v], None, Some(StepEdge(u, v)), Plain)
  }

  function RelaxStep(u: int, v: int, alt: int): Step {
    Step(Relax, [v], Some(alt), Some(StepEdge(u, v)), Plain)
  }

  /** One pass of the neighbour loop for edge e out of u, whose distance is du: skip
      a neighbour that is no longer unvisited; otherwise compare, and relax when the
      path through u is strictly shorter. */
  function Consider(e: GraphEdge, u: int, du: int, s: Scan): Run {
    var v := Other(e, u);
    if v !in s.unvisited then Run(s, [])
    else if Less(Some(du + e.weight), Lookup(s.dist, v)) then
      Run(Scan(s.dist[v := Some(du + e.weight)], s.prev[v := Some(u)], s.unvisited), [CompareStep(u, v), RelaxStep(u, v, du + e.weight)])
    else Run(s, [CompareStep(u, v)])
  }

  /** The neighbour loop from edge k of nb on. */
  function RelaxFrom(nb: seq<GraphEdge>, k: int, u: int, du: int, s: Scan): (r: Run)
    requires 0 <= k <= |nb|
    ensures r.scan.unvisited == s.unvisited
    decreases |nb| - k
  {
    if k == |nb| then Run(s, [])
    else
      var c := Consider(nb[k], u, du, s);
      var rest := RelaxFrom(nb, k + 1, u, du, c.scan);
      Run(rest.scan, c.steps + rest.steps)
  }

  /** The steps of the `while` loop from state s on. It stops when the Set is empty,
      when no unvisited node has a finite distance, or when the node it would visit
      is the end node. */
  function Loop(g: Graph, end: int, s: Scan): seq<Step>
    decreases |s.unvisited|, 1
  {
    var p := MinScan(s.dist, s.unvisited);
    if |s.unvisited| == 0 || p.node.None? || p.dist.None? then []
    else if end != -1 && p.node.value == end then []
    else Iterate(g, end, s, p.node.value, p.dist.value)
  }

  /** One iteration that visits u at distance du. */
  function Iterate(g: Graph, end: int, s: Scan, u: int, du: int): seq<Step>
    requires u in s.unvisited
    decreases |s.unvisited|, 0
  {
    var r := RelaxFrom(Neighbors(g.edges, u), 0, u, du, Scan(s.dist, s.prev, Remove(s.unvisited, u)));
    [Mk(Visit, [u])] + r.steps + Loop(g, end, r.scan)
  }

  /** The trace `dijkstra(graph, startNodeId, endNodeId)` yields; the end node -1
      (the default) means "no end node". */
  function DijkstraTrace(g: Graph, start: int, end: int): seq<Step> {
    [Mk(Highlight, [start])] + Loop(g, end, Start(g, start)) + [Mk(Sorted, Ids(g.nodes))]
  }

  lemma InitNext(nodes: seq<GraphNode>, k: int)
    requires 0 <= k < |nodes|
    ensures var s, id := InitFrom(nodes[..k]), nodes[k].id;
      InitFrom(nodes[..k + 1]) == Scan(s.dist[id := None], s.prev[id := None], AddNew(s.unvisited, id))
  {
    assert nodes[..k + 1][..k] == nodes[..k];
  }

  /** The loop ends without another step: the Set is empty, nothing left is
      reachable, or the end node would come next. */
  lemma Stops(g: Graph, end: int, s: Scan, t: seq<Step>, steps: seq<Step>, last: seq<Step>)
    requires t == steps + Loop(g, end, s) + last
    requires var p := MinScan(s.dist, s.unvisited);
      |s.unvisited| == 0 || p.node.None? || p.dist.None? || (end != -1 && p.node.value == end)
    ensures t == steps + last
  {
  }

  /** The loop visits u at distance du next. */
  lemma Enters(g: Graph, end: int, s: Scan, u: int, du: int, t: seq<Step>, s0: seq<Step>, steps: seq<Step>, last: seq<Step>)
    requires t == s0 + Loop(g, end, s) + last && steps == s0 + [Mk(Visit, [u])]
    requires |s.unvisited| > 0 && MinScan(s.dist, s.unvisited) == Pick(Some(u), Some(du)) && !(end != -1 && u == end)
    ensures var r := RelaxFrom(Neighbors(g.edges, u), 0, u, du, Scan(s.dist, s.prev, Remove(s.unvisited, u)));
      t == steps + r.steps + Loop(g, end, r.scan) + last
  {
  }

  /** The neighbour loop handles edge k, turning scan state cur into next. */
  lemma Advances(nb: seq<GraphEdge>, k: int, u: int, du: int, s: Scan, cur: Scan, next: Scan, added: seq<Step>, more: seq<Step>, steps: seq<Step>)
    requires 0 <= k < |nb| && Consider(nb[k], u, du, cur) == Run(next, more) && steps == added + more
    requires RelaxFrom(nb, 0, u, du, s) == Run(RelaxFrom(nb, k, u, du, cur).scan, added + RelaxFrom(nb, k, u, du, cur).steps)
    ensures RelaxFrom(nb, 0, u, du, s) == Run(RelaxFrom(nb, k + 1, u, du, next).scan, steps + RelaxFrom(nb, k + 1, u, du, next).steps)
  {
  }

  /** The min-scan over the unvisited Set. */
  method FindMin(dist: map<int, Option<int>>, unvisited: seq<int>) returns (minNode: Option<int>, minDist: Option<int>)
    requires forall x :: x in unvisited ==> x in dist
    ensures Pick(minNode, minDist) == MinScan(dist, unvisited)
  {
    minNode, minDist := None, None;
    for k := 0 to |unvisited|
      invariant minNode.Some? ==> minNode.value in unvisited
      invariant MinScan(dist, unvisited) == MinFrom(dist, unvisited, k, Pick(minNode, minDist))
    {
      var d := dist[unvisited[k]];
      if Less(d, minDist) {
        minDist := d;
        minNode := Some(unvisited[k]);
      }
    }
  }

  /** The neighbour loop for u at distance du: updates `distances` and `previous` and
      returns the steps it yields. */
  method RelaxAll(nb: seq<GraphEdge>, u: int, du: int, dist0: map<int, Option<int>>, prev0: map<int, Option<int>>, unvisited: seq<int>)
    returns (dist: map<int, Option<int>>, prev: map<int, Option<int>>, steps: seq<Step>)
    requires forall x :: x in unvisited ==> x in dist0
    ensures Run(Scan(dist, prev, unvisited), steps) == RelaxFrom(nb, 0, u, du, Scan(dist0, prev0, unvisited))
    ensures forall x :: x in unvisited ==> x in dist
  {
    dist, prev, steps := dist0, prev0, [];
    ghost var s := Scan(dist0, prev0, unvisited);
    for k := 0 to |nb|
      invariant forall x :: x in unvisited ==> x in dist
      invariant RelaxFrom(nb, 0, u, du, s) == Run(RelaxFrom(nb, k, u, du, Scan(dist, prev, unvisited)).scan,
        steps + RelaxFrom(nb, k, u, du, Scan(dist, prev, unvisited)).steps)
    {
      ghost var cur := Scan(dist, prev, unvisited);
      ghost var added := steps;
      var e := nb[k];
      var v := if e.source == u then e.target else e.source;
      if v in unvisited {
        steps := steps + [CompareStep(u, v)];
        var alt := du + e.weight;
        if Less(Some(alt), dist[v]) {
          dist := dist[v := Some(alt)];
          prev := prev[v := Some(u)];
          steps := steps + [RelaxStep(u, v, alt)];
        }
      }
      Advances(nb, k, u, du, s, cur, Scan(dist, prev, unvisited), added, steps[|added|..], steps);
    }
  }

  lemma Continues(t: seq<Step>, steps: seq<Step>, more: seq<Step>, rest: seq<Step>, last: seq<Step>)
    requires t == steps + more + rest + last
    ensures t == (steps + more) + rest + last
  {
  }

  /** The generator, over the source's mutable records and Set. */
  method Dijkstra(g: Graph, start: int, end: int) returns (steps: seq<Step>)
    ensures steps == DijkstraTrace(g, start, end)
  {
    var dist: map<int, Option<int>> := map[];
    var prev: map<int, Option<int>> := map[];
    var unvisited: seq<int> := [];
    for k := 0 to |g.nodes|
      invariant Scan(dist, prev, unvisited) == InitFrom(g.nodes[..k])
      invariant forall x :: x in unvisited ==> x in dist
    {
      InitNext(g.nodes, k);
      var id := g.nodes[k].id;
      dist := dist[id := None];
      prev := prev[id := None];
      unvisited := AddNew(unvisited, id);
    }
    assert g.nodes[..|g.nodes|] == g.nodes;
    dist := dist[start := Some(0)];
    steps := [Mk(Highlight, [start])];
    ghost var last := [Mk(Sorted, Ids(g.nodes))];
    ghost var t := DijkstraTrace(g, start, end);

    while |unvisited| > 0
      invariant t == steps + Loop(g, end, Scan(dist, prev, unvisited)) + last
      invariant forall x :: x in unvisited ==> x in dist
      decreases |unvisited|
    {
      var minNode, minDist := FindMin(dist, unvisited);
      if minNode.None? || minDist.None? || (end != -1 && minNode.value == end) {
        Stops(g, end, Scan(dist, prev, unvisited), t, steps, last);
        break;
      }
      var u, du := minNode.value, minDist.value;
      ghost var s0 := steps;
      ghost var before := Scan(dist, prev, unvisited);
      unvisited := Remove(unvisited, u);
      steps := steps + [Mk(Visit, [u])];
      Enters(g, end, before, u, du, t, s0, steps, last);
      var more;
      dist, prev, more := RelaxAll(Neighbors(g.edges, u), u, du, dist, prev, unvisited);
      Continues(t, steps, more, Loop(g, end, Scan(dist, prev, unvisited)), last);
      steps := steps + more;
    }
    Stops(g, end, Scan(dist, prev, unvisited), t, steps, last);
    steps := steps + [Mk(Sorted, Ids(g.nodes))];
  }
}

module ShortestPathFacts {
  import opened Steps
  import opened ShortestPath

  predicate NoDup(s: seq<int>) {
    forall i, j :: 0 <= i < j < |s| ==> s[i] != s[j]
  }

  lemma IdsSnoc(nodes: seq<GraphNode>)
    requires |nodes| > 0
    ensures Ids(nodes) == Ids(nodes[..|nodes| - 1]) + [nodes[|nodes| - 1].id]
  {
  }

  /** After the initialising loop every node id, and nothing else, has an entry at
      Infinity with no predecessor, and the Set holds every id exactly once. */
  lemma {:induction false} InitFacts(nodes: seq<GraphNode>)
    ensures var s := InitFrom(nodes);
      (forall x :: x in s.unvisited <==> x in Ids(nodes)) && NoDup(s.unvisited) &&
      (forall x :: x in s.dist <==> x in Ids(nodes)) && (forall x :: x in s.prev <==> x in Ids(nodes)) &&
      (forall x :: x in s.dist ==> s.dist[x] == None) && (forall x :: x in s.prev ==> s.prev[x] == None)
  {
    if nodes != [] {
      InitFacts(nodes[..|nodes| - 1]);
      IdsSnoc(nodes);
    }
  }

  /** The main loop starts with the start node at distance 0, every other id at
      Infinity, no predecessors, and every node id unvisited exactly once. */
  lemma StartFacts(g: Graph, start: int)
    ensures var s := Start(g, start);
      (forall x :: x in s.unvisited <==> x in Ids(g.nodes)) && NoDup(s.unvisited) &&
      (forall x :: x in s.unvisited ==> x in s.dist) &&
      Lookup(s.dist, start) == Some(0) && (forall x :: x != start ==> Lookup(s.dist, x) == None) &&
      (forall x :: Lookup(s.prev, x) == None)
  {
    InitFacts(g.nodes);
  }

  /** The position of the first occurrence of x in ids. */
  function FirstIndex(ids: seq<int>, x: int): (k: nat)
    requires x in ids
    ensures k < |ids| && ids[k] == x && forall j :: 0 <= j < k ==> ids[j] != x
  {
    if ids[0] == x then 0 else 1 + FirstIndex(ids[1..], x)
  }

  /** The Set lists node ids only, in the order of their first occurrence in ids,
      each once: the order the initialising loop inserts them in. */
  ghost predicate NodesOrder(unv: seq<int>, ids: seq<int>) {
    (forall x :: x in unv ==> x in ids) &&
    forall i, j :: 0 <= i < j < |unv| ==> FirstIndex(ids, unv[i]) < FirstIndex(ids, unv[j])
  }

  /** Appending an id keeps the first occurrence of the ids already present. */
  lemma {:induction false} FirstIndexSnoc(ids: seq<int>, y: int, x: int)
    requires x in ids + [y]
    ensures x in ids ==> FirstIndex(ids + [y], x) == FirstIndex(ids, x)
    ensures x !in ids ==> FirstIndex(ids + [y], x) == |ids|
    decreases |ids|
  {
    if ids != [] && ids[0] != x {
      assert (ids + [y])[1..] == ids[1..] + [y];
      FirstIndexSnoc(ids[1..], y, x);
    }
  }

  lemma InitOrderStep(u: seq<int>, ids: seq<int>, id: int)
    requires NodesOrder(u, ids) && (forall x :: x in u <==> x in ids)
    ensures NodesOrder(AddNew(u, id), ids + [id]) && (forall x :: x in AddNew(u, id) <==> x in ids + [id])
  {
    forall x | x in u
      ensures FirstIndex(ids + [id], x) == FirstIndex(ids, x)
    {
      FirstIndexSnoc(ids, id, x);
    }
    if id !in u {
      FirstIndexSnoc(ids, id, id);
      var r := u + [id];
      forall i, j | 0 <= i < j < |r|
        ensures FirstIndex(ids + [id], r[i]) < FirstIndex(ids + [id], r[j])
      {
        assert r[i] in u;
        if j < |u| {
          assert r[j] in u;
        }
      }
    }
  }

  /** The initialising loop inserts the node ids in `nodes` order. */
  lemma {:induction false} InitOrder(nodes: seq<GraphNode>)
    ensures NodesOrder(InitFrom(nodes).unvisited, Ids(nodes))
    ensures forall x :: x in InitFrom(nodes).unvisited <==> x in Ids(nodes)
  {
    if nodes != [] {
      InitOrder(nodes[..|nodes| - 1]);
      IdsSnoc(nodes);
      InitOrderStep(InitFrom(nodes[..|nodes| - 1]).unvisited, Ids(nodes[..|nodes| - 1]), nodes[|nodes| - 1].id);
    }
  }

  /** The main loop starts with the Set in `nodes` order. */
  lemma StartOrder(g: Graph, start: int)
    ensures NodesOrder(Start(g, start).unvisited, Ids(g.nodes))
  {
    InitOrder(g.nodes);
  }

  /** `Set.delete` keeps the order of the remaining ids. */
  lemma {:induction false} RemoveOrder(unv: seq<int>, ids: seq<int>, id: int)
    requires NodesOrder(unv, ids)
    ensures NodesOrder(Remove(unv, id), ids)
    decreases |unv|
  {
    if unv != [] {
      assert NodesOrder(unv[1..], ids) by {
        forall i, j | 0 <= i < j < |unv[1..]|
          ensures FirstIndex(ids, unv[1..][i]) < FirstIndex(ids, unv[1..][j])
        {
          assert unv[1..][i] == unv[i + 1] && unv[1..][j] == unv[j + 1];
        }
      }
      RemoveOrder(unv[1..], ids, id);
      if unv[0] != id {
        var rest := Remove(unv[1..], id);
        forall j | 0 < j < |[unv[0]] + rest|
          ensures FirstIndex(ids, unv[0]) < FirstIndex(ids, ([unv[0]] + rest)[j])
        {
          var y := ([unv[0]] + rest)[j];
          assert y in rest;
          var m :| 0 <= m < |unv[1..]| && unv[1..][m] == y;
          assert unv[m + 1] == y;
        }
      }
    }
  }

  /** An iteration keeps the Set in `nodes` order: it deletes u, and the neighbour
      loop leaves the Set alone. */
  lemma IterateOrder(g: Graph, s: Scan, u: int, du: int)
    requires NodesOrder(s.unvisited, Ids(g.nodes))
    ensures NodesOrder(RelaxFrom(Neighbors(g.edges, u), 0, u, du, Scan(s.dist, s.prev, Remove(s.unvisited, u))).scan.unvisited, Ids(g.nodes))
  {
    RemoveOrder(s.unvisited, Ids(g.nodes), u);
  }

  /** Position i of unv holds the first of the closest unvisited nodes: it has a
      finite distance, every earlier node is strictly farther, no node is closer. */
  ghost predicate FirstClosest(dist: map<int, Option<int>>, unv: seq<int>, k: int, i: int) {
    0 <= i < k <= |unv| && Lookup(dist, unv[i]).Some? &&
    (forall j :: 0 <= j < i ==> Less(Lookup(dist, unv[i]), Lookup(dist, unv[j]))) &&
    (forall j :: i <= j < k ==> !Less(Lookup(dist, unv[j]), Lookup(dist, unv[i])))
  }

  /** What the min-scan has found after the first k nodes. */
  ghost predicate Summary(dist: map<int, Option<int>>, unv: seq<int>, k: int, best: Pick) {
    0 <= k <= |unv| &&
    (best.node.None? <==> best.dist.None?) &&
    (best.node.None? ==> forall j :: 0 <= j < k ==> Lookup(dist, unv[j]).None?) &&
    (best.node.Some? ==> exists i :: FirstClosest(dist, unv, k, i) && unv[i] == best.node.value && Lookup(dist, unv[i]) == best.dist)
  }

  lemma SummaryStep(dist: map<int, Option<int>>, unv: seq<int>, k: int, best: Pick)
    requires 0 <= k < |unv| && Summary(dist, unv, k, best)
    ensures var d := Lookup(dist, unv[k]);
      Summary(dist, unv, k + 1, if Less(d, best.dist) then Pick(Some(unv[k]), d) else best)
  {
    var d := Lookup(dist, unv[k]);
    if Less(d, best.dist) {
      if best.node.Some? {
        var i0 :| FirstClosest(dist, unv, k, i0) && unv[i0] == best.node.value && Lookup(dist, unv[i0]) == best.dist;
        assert forall j :: 0 <= j < k ==> !Less(Lookup(dist, unv[j]), Lookup(dist, unv[i0]));
      }
      assert FirstClosest(dist, unv, k + 1, k);
    } else if best.node.Some? {
      var i0 :| FirstClosest(dist, unv, k, i0) && unv[i0] == best.node.value && Lookup(dist, unv[i0]) == best.dist;
      assert FirstClosest(dist, unv, k + 1, i0);
    }
  }

  lemma {:induction false} MinFromPicks(dist: map<int, Option<int>>, unv: seq<int>, k: int, best: Pick)
    requires Summary(dist, unv, k, best) && (best.node.Some? ==> best.node.value in unv)
    ensures Summary(dist, unv, |unv|, MinFrom(dist, unv, k, best))
    decreases |unv| - k
  {
    if k < |unv| {
      SummaryStep(dist, unv, k, best);
      var d := Lookup(dist, unv[k]);
      MinFromPicks(dist, unv, k + 1, if Less(d, best.dist) then Pick(Some(unv[k]), d) else best);
    }
  }

  /** The min-scan returns no node exactly when every unvisited node is at Infinity,
      and otherwise the first of the closest unvisited nodes with its distance. */
  lemma MinScanPicks(dist: map<int, Option<int>>, unv: seq<int>)
    ensures var p := MinScan(dist, unv);
      (p.node.None? <==> p.dist.None?) &&
      (p.node.None? <==> forall j :: 0 <= j < |unv| ==> Lookup(dist, unv[j]).None?) &&
      (p.node.Some? ==> exists i :: FirstClosest(dist, unv, |unv|, i) && unv[i] == p.node.value && Lookup(dist, unv[i]) == p.dist)
  {
    MinFromPicks(dist, unv, 0, Pick(None, None));
  }

  /** The neighbours of u are the edges with u as source or as target, each with its
      multiplicity; u and the node the loop moves to are that edge's two ends. */
  lemma {:induction false} NeighborsExact(edges: seq<GraphEdge>, u: int)
    ensures forall e :: multiset(Neighbors(edges, u))[e] == if e.source == u || e.target == u then multiset(edges)[e] else 0
    ensures forall e :: e in Neighbors(edges, u) ==> {e.source, e.target} == {u, Other(e, u)}
  {
    if edges != [] {
      NeighborsExact(edges[1..], u);
      assert edges == [edges[0]] + edges[1..];
    }
  }

  /** One edge of the neighbour loop: a neighbour that is no longer unvisited is
      skipped silently; otherwise a compare [u, v] is emitted, followed by a relax
      exactly when du + w is strictly below v's distance. A relax carries the new
      distance, which is strictly smaller, and makes u the predecessor of v. */
  lemma ConsiderRelaxes(e: GraphEdge, u: int, du: int, s: Scan)
    ensures var v, c := Other(e, u), Consider(e, u, du, s);
      c.scan.unvisited == s.unvisited &&
      (v !in s.unvisited ==> c == Run(s, [])) &&
      (v in s.unvisited ==> |c.steps| >= 1 && c.steps[0] == CompareStep(u, v)) &&
      (|c.steps| == 2 <==> v in s.unvisited && Less(Some(du + e.weight), Lookup(s.dist, v))) &&
      (|c.steps| == 2 ==>
        c.steps[1] == RelaxStep(u, v, du + e.weight) &&
        c.scan.dist == s.dist[v := Some(du + e.weight)] && c.scan.prev == s.prev[v := Some(u)] &&
        Less(Lookup(c.scan.dist, v), Lookup(s.dist, v))) &&
      (|c.steps| <= 2 && (|c.steps| < 2 ==> c.scan == s))
  {
  }

  /** From a to b, relaxing out of u: the Set is unchanged, no entry is lost, no
      distance grows, a distance changes only for an unvisited node, and a node whose
      distance changed has u as predecessor while the others keep theirs. */
  ghost predicate Lowered(a: Scan, b: Scan, u: int) {
    b.unvisited == a.unvisited &&
    (forall x :: x in a.dist ==> x in b.dist) &&
    (forall x :: !Less(Lookup(a.dist, x), Lookup(b.dist, x))) &&
    (forall x :: x !in a.unvisited ==> Lookup(b.dist, x) == Lookup(a.dist, x)) &&
    (forall x :: Lookup(b.dist, x) != Lookup(a.dist, x) ==> Lookup(b.prev, x) == Some(u)) &&
    (forall x :: Lookup(b.dist, x) == Lookup(a.dist, x) ==> Lookup(b.prev, x) == Lookup(a.prev, x))
  }

  lemma LoweredChain(a: Scan, b: Scan, c: Scan, u: int)
    requires Lowered(a, b, u) && Lowered(b, c, u)
    ensures Lowered(a, c, u)
  {
  }

  lemma ConsiderLowers(e: GraphEdge, u: int, du: int, s: Scan)
    ensures Lowered(s, Consider(e, u, du, s).scan, u)
  {
  }

  lemma {:induction false} RelaxFromLowers(nb: seq<GraphEdge>, k: int, u: int, du: int, s: Scan)
    requires 0 <= k <= |nb|
    ensures Lowered(s, RelaxFrom(nb, k, u, du, s).scan, u)
    decreases |nb| - k
  {
    if k < |nb| {
      var c := Consider(nb[k], u, du, s);
      ConsiderLowers(nb[k], u, du, s);
      RelaxFromLowers(nb, k + 1, u, du, c.scan);
      LoweredChain(s, c.scan, RelaxFrom(nb, k + 1, u, du, c.scan).scan, u);
    }
  }

  /** The neighbour loop of an iteration visiting u: distances only decrease, only
      unvisited nodes change, a settled node keeps its distance and predecessor, and
      every node whose distance changed now has u as predecessor. */
  lemma RelaxAllLowers(g: Graph, s: Scan, u: int, du: int)
    ensures var a := Scan(s.dist, s.prev, Remove(s.unvisited, u));
      Lowered(a, RelaxFrom(Neighbors(g.edges, u), 0, u, du, a).scan, u)
  {
    var a := Scan(s.dist, s.prev, Remove(s.unvisited, u));
    RelaxFromLowers(Neighbors(g.edges, u), 0, u, du, a);
  }

  /** Every step of the neighbour loop is a compare [u, v] or a relax [v] for some
      still-unvisited v. */
  ghost predicate RelaxOnly(t: seq<Step>, u: int, unv: seq<int>) {
    forall p :: 0 <= p < |t| ==>
      (t[p].kind == Compare && |t[p].indices| == 2 && t[p].indices[0] == u && t[p].indices[1] in unv) ||
      (t[p].kind == Relax && |t[p].indices| == 1 && t[p].indices[0] in unv)
  }

  lemma {:induction false} RelaxFromSteps(nb: seq<GraphEdge>, k: int, u: int, du: int, s: Scan)
    requires 0 <= k <= |nb|
    ensures RelaxOnly(RelaxFrom(nb, k, u, du, s).steps, u, s.unvisited)
    decreases |nb| - k
  {
    if k < |nb| {
      var c := Consider(nb[k], u, du, s);
      RelaxFromSteps(nb, k + 1, u, du, c.scan);
      assert RelaxOnly(c.steps, u, s.unvisited);
    }
  }

  /** The trace read front to back, with seen the ids visited so far and cur the
      node visited last: no step mutates an array, a visit names a node id not
      visited before, and a compare [u, v] names the node being visited and a
      neighbour that has not been visited, as does a relax [v]. */
  ghost predicate Fresh(t: seq<Step>, ids: seq<int>, seen: set<int>, cur: Option<int>)
    decreases |t|
  {
    if t == [] then true
    else
      var s := t[0];
      !IsMutation(s) &&
      (s.kind == Visit ==> |s.indices| == 1 && s.indices[0] in ids && s.indices[0] !in seen) &&
      (s.kind == Compare ==> |s.indices| == 2 && cur == Some(s.indices[0]) && s.indices[1] in ids && s.indices[1] !in seen) &&
      (s.kind == Relax ==> |s.indices| == 1 && s.indices[0] in ids && s.indices[0] !in seen) &&
      if s.kind == Visit then Fresh(t[1..], ids, seen + {s.indices[0]}, Some(s.indices[0]))
      else Fresh(t[1..], ids, seen, cur)
  }

  /** Steps that neither visit, compare, relax nor mutate. */
  ghost predicate Silent(t: seq<Step>) {
    forall p :: 0 <= p < |t| ==> t[p].kind !in {Visit, Compare, Relax} && !IsMutation(t[p])
  }

  lemma {:induction false} SilentFresh(t: seq<Step>, ids: seq<int>, seen: set<int>, cur: Option<int>)
    requires Silent(t)
    ensures Fresh(t, ids, seen, cur)
    decreases |t|
  {
    if t != [] {
      SilentFresh(t[1..], ids, seen, cur);
    }
  }

  lemma {:induction false} RelaxFresh(t: seq<Step>, u: int, unv: seq<int>, ids: seq<int>, seen: set<int>, rest: seq<Step>)
    requires RelaxOnly(t, u, unv) && forall x :: x in unv ==> x in ids && x !in seen
    requires Fresh(rest, ids, seen, Some(u))
    ensures Fresh(t + rest, ids, seen, Some(u))
    decreases |t|
  {
    if t != [] {
      assert RelaxOnly(t[1..], u, unv);
      RelaxFresh(t[1..], u, unv, ids, seen, rest);
      assert (t + rest)[1..] == t[1..] + rest;
    } else {
      assert t + rest == rest;
    }
  }

  /** A visit of u followed by its neighbour loop's steps keeps to Fresh. */
  lemma VisitFresh(t: seq<Step>, u: int, steps: seq<Step>, rest: seq<Step>, unv: seq<int>, ids: seq<int>, seen: set<int>, cur: Option<int>)
    requires t == [Mk(Visit, [u])] + (steps + rest) && u in ids && u !in seen
    requires RelaxOnly(steps, u, unv) && forall x :: x in unv ==> x in ids && x !in seen + {u}
    requires Fresh(rest, ids, seen + {u}, Some(u))
    ensures Fresh(t, ids, seen, cur)
  {
    RelaxFresh(steps, u, unv, ids, seen + {u}, rest);
    assert t[1..] == steps + rest;
  }

  lemma IterateFresh(g: Graph, end: int, s: Scan, u: int, du: int, ids: seq<int>, seen: set<int>, cur: Option<int>, tail: seq<Step>, rest: seq<Step>)
    requires u in s.unvisited && forall x :: x in s.unvisited ==> x in ids && x !in seen
    requires var r := RelaxFrom(Neighbors(g.edges, u), 0, u, du, Scan(s.dist, s.prev, Remove(s.unvisited, u)));
      rest == Loop(g, end, r.scan) + tail
    requires Fresh(rest, ids, seen + {u}, Some(u))
    ensures Fresh(Iterate(g, end, s, u, du) + tail, ids, seen, cur)
  {
    var a := Scan(s.dist, s.prev, Remove(s.unvisited, u));
    var r := RelaxFrom(Neighbors(g.edges, u), 0, u, du, a);
    RelaxFromSteps(Neighbors(g.edges, u), 0, u, du, a);
    assert Iterate(g, end, s, u, du) + tail == [Mk(Visit, [u])] + (r.steps + rest);
    VisitFresh(Iterate(g, end, s, u, du) + tail, u, r.steps, rest, a.unvisited, ids, seen, cur);
  }

  lemma {:induction false} LoopFresh(g: Graph, end: int, s: Scan, ids: seq<int>, seen: set<int>, cur: Option<int>, tail: seq<Step>)
    requires forall x :: x in s.unvisited ==> x in ids && x !in seen
    requires Silent(tail)
    ensures Fresh(Loop(g, end, s) + tail, ids, seen, cur)
    decreases |s.unvisited|
  {
    var p := MinScan(s.dist, s.unvisited);
    if |s.unvisited| == 0 || p.node.None? || p.dist.None? || (end != -1 && p.node.value == end) {
      assert Loop(g, end, s) + tail == tail;
      SilentFresh(tail, ids, seen, cur);
    } else {
      var u, du := p.node.value, p.dist.value;
      var r := RelaxFrom(Neighbors(g.edges, u), 0, u, du, Scan(s.dist, s.prev, Remove(s.unvisited, u)));
      LoopFresh(g, end, r.scan, ids, seen + {u}, Some(u), tail);
      IterateFresh(g, end, s, u, du, ids, seen, cur, tail, Loop(g, end, r.scan) + tail);
    }
  }

  /** Read front to back, the whole trace keeps to Fresh, starting with nothing
      visited. */
  lemma DijkstraFresh(g: Graph, start: int, end: int)
    ensures Fresh(DijkstraTrace(g, start, end), Ids(g.nodes), {}, None)
  {
    var last := [Mk(Sorted, Ids(g.nodes))];
    StartFacts(g, start);
    LoopFresh(g, end, Start(g, start), Ids(g.nodes), {}, None, last);
    HighlightFresh(DijkstraTrace(g, start, end), start, Loop(g, end, Start(g, start)), last, Ids(g.nodes));
  }

  lemma HighlightFresh(t: seq<Step>, start: int, body: seq<Step>, last: seq<Step>, ids: seq<int>)
    requires t == [Mk(Highlight, [start])] + body + last
    requires Fresh(body + last, ids, {}, None)
    ensures Fresh(t, ids, {}, None)
  {
    assert t[1..] == body + last;
  }

  lemma {:induction false} FreshVisits(t: seq<Step>, ids: seq<int>, seen: set<int>, cur: Option<int>)
    requires Fresh(t, ids, seen, cur)
    ensures var vs := OfKind(t, Visit);
      (forall i :: 0 <= i < |vs| ==> |vs[i].indices| == 1 && vs[i].indices[0] in ids && vs[i].indices[0] !in seen) &&
      (forall i, j :: 0 <= i < j < |vs| ==> vs[i].indices != vs[j].indices)
    decreases |t|
  {
    if t != [] {
      if t[0].kind == Visit {
        var u := t[0].indices[0];
        FreshVisits(t[1..], ids, seen + {u}, Some(u));
        var vs := OfKind(t, Visit);
        assert vs == [t[0]] + OfKind(t[1..], Visit);
      } else {
        FreshVisits(t[1..], ids, seen, cur);
        assert OfKind(t, Visit) == OfKind(t[1..], Visit);
      }
    }
  }

  lemma {:induction false} FreshQuiet(t: seq<Step>, ids: seq<int>, seen: set<int>, cur: Option<int>)
    requires Fresh(t, ids, seen, cur)
    ensures forall p :: 0 <= p < |t| ==> !IsMutation(t[p])
    decreases |t|
  {
    if t != [] {
      if t[0].kind == Visit {
        FreshQuiet(t[1..], ids, seen + {t[0].indices[0]}, Some(t[0].indices[0]));
      } else {
        FreshQuiet(t[1..], ids, seen, cur);
      }
      assert forall p :: 1 <= p < |t| ==> t[p] == t[1..][p - 1];
    }
  }

  /** Every visit step names one node id, and no node id is visited twice. */
  lemma DijkstraVisitsOnce(g: Graph, start: int, end: int)
    ensures var vs := OfKind(DijkstraTrace(g, start, end), Visit);
      (forall i :: 0 <= i < |vs| ==> |vs[i].indices| == 1 && vs[i].indices[0] in Ids(g.nodes)) &&
      (forall i, j :: 0 <= i < j < |vs| ==> vs[i].indices != vs[j].indices)
  {
    DijkstraFresh(g, start, end);
    FreshVisits(DijkstraTrace(g, start, end), Ids(g.nodes), {}, None);
  }

  /** The trace has no swap or overwrite step, so replaying it changes nothing. */
  lemma DijkstraQuiet(g: Graph, start: int, end: int)
    ensures forall p :: 0 <= p < |DijkstraTrace(g, start, end)| ==> !IsMutation(DijkstraTrace(g, start, end)[p])
    ensures forall b :: ReplaySwaps(b, DijkstraTrace(g, start, end)) == b
  {
    DijkstraFresh(g, start, end);
    FreshQuiet(DijkstraTrace(g, start, end), Ids(g.nodes), {}, None);
    ReplaysIgnore(DijkstraTrace(g, start, end));
  }

  /** The first step highlights the start node and the last marks every node id
      sorted, in `nodes` order. */
  lemma DijkstraEnds(g: Graph, start: int, end: int)
    ensures var t := DijkstraTrace(g, start, end);
      |t| >= 2 && t[0] == Mk(Highlight, [start]) && t[|t| - 1] == Mk(Sorted, Ids(g.nodes))
  {
  }

  /** An iteration starts with one visit step and stops when the closest unvisited
      node is at Infinity or is the end node; otherwise it visits the first of the
      closest unvisited nodes. */
  lemma LoopVisitsClosest(g: Graph, end: int, s: Scan)
    ensures var p := MinScan(s.dist, s.unvisited);
      (Loop(g, end, s) == [] <==>
        (forall j :: 0 <= j < |s.unvisited| ==> Lookup(s.dist, s.unvisited[j]).None?) || (end != -1 && p.node == Some(end))) &&
      (Loop(g, end, s) != [] ==>
        exists i :: FirstClosest(s.dist, s.unvisited, |s.unvisited|, i) &&
          Loop(g, end, s)[0] == Mk(Visit, [s.unvisited[i]]) && !(end != -1 && s.unvisited[i] == end))
    ensures NodesOrder(s.unvisited, Ids(g.nodes)) && Loop(g, end, s) != [] ==>
      exists u :: u in s.unvisited && Loop(g, end, s)[0] == Mk(Visit, [u]) &&
        forall x :: x in s.unvisited && Lookup(s.dist, x) == Lookup(s.dist, u) ==>
          FirstIndex(Ids(g.nodes), u) <= FirstIndex(Ids(g.nodes), x)
  {
    MinScanPicks(s.dist, s.unvisited);
    if NodesOrder(s.unvisited, Ids(g.nodes)) && Loop(g, end, s) != [] {
      var i :| FirstClosest(s.dist, s.unvisited, |s.unvisited|, i) && Loop(g, end, s)[0] == Mk(Visit, [s.unvisited[i]]);
      EarliestTie(s.dist, s.unvisited, Ids(g.nodes), i);
    }
  }

  /** Among the closest unvisited nodes, the first in Set order is the first in
      `nodes` order when the Set keeps that order. */
  lemma EarliestTie(dist: map<int, Option<int>>, unv: seq<int>, ids: seq<int>, i: int)
    requires FirstClosest(dist, unv, |unv|, i) && NodesOrder(unv, ids)
    ensures forall x :: x in unv && Lookup(dist, x) == Lookup(dist, unv[i]) ==> FirstIndex(ids, unv[i]) <= FirstIndex(ids, x)
  {
    forall x | x in unv && Lookup(dist, x) == Lookup(dist, unv[i])
      ensures FirstIndex(ids, unv[i]) <= FirstIndex(ids, x)
    {
      var j :| 0 <= j < |unv| && unv[j] == x;
      if j < i {
        assert Less(Lookup(dist, unv[i]), Lookup(dist, unv[j]));
      }
    }
  }

  lemma RelaxNoVisit(t: seq<Step>, u: int, unv: seq<int>)
    requires RelaxOnly(t, u, unv)
    ensures OfKind(t, Visit) == []
  {
    OfKindNone(t, Visit);
  }

  /** The visit steps of an iteration visiting u: u, then those of the rest. */
  lemma VisitsOfIterate(t: seq<Step>, u: int, steps: seq<Step>, rest: seq<Step>, unv: seq<int>)
    requires t == [Mk(Visit, [u])] + steps + rest && RelaxOnly(steps, u, unv)
    ensures OfKind(t, Visit) == [Mk(Visit, [u])] + OfKind(rest, Visit)
  {
    RelaxNoVisit(steps, u, unv);
    OfKindAppend([Mk(Visit, [u])] + steps, rest, Visit);
    OfKindAppend([Mk(Visit, [u])], steps, Visit);
    assert OfKind([Mk(Visit, [u])], Visit) == [Mk(Visit, [u])] + OfKind([], Visit);
  }

  lemma {:induction false} LoopAvoidsEnd(g: Graph, end: int, s: Scan)
    requires end != -1
    ensures forall q :: 0 <= q < |OfKind(Loop(g, end, s), Visit)| ==> OfKind(Loop(g, end, s), Visit)[q].indices != [end]
    decreases |s.unvisited|
  {
    var p := MinScan(s.dist, s.unvisited);
    if !(|s.unvisited| == 0 || p.node.None? || p.dist.None? || p.node.value == end) {
      var u, du := p.node.value, p.dist.value;
      var a := Scan(s.dist, s.prev, Remove(s.unvisited, u));
      var r := RelaxFrom(Neighbors(g.edges, u), 0, u, du, a);
      LoopAvoidsEnd(g, end, r.scan);
      RelaxFromSteps(Neighbors(g.edges, u), 0, u, du, a);
      VisitsOfIterate(Loop(g, end, s), u, r.steps, Loop(g, end, r.scan), a.unvisited);
    }
  }

  /** The visit steps of the whole trace are those of the main loop. */
  lemma TraceVisits(g: Graph, start: int, end: int)
    ensures OfKind(DijkstraTrace(g, start, end), Visit) == OfKind(Loop(g, end, Start(g, start)), Visit)
  {
    var h, body, last := [Mk(Highlight, [start])], Loop(g, end, Start(g, start)), [Mk(Sorted, Ids(g.nodes))];
    OfKindAppend(h + body, last, Visit);
    OfKindAppend(h, body, Visit);
    assert OfKind(h, Visit) == [] + OfKind([], Visit);
    assert OfKind(last, Visit) == [] + OfKind([], Visit);
  }

  /** With an end node, the loop stops before visiting it: no visit step names it. */
  lemma DijkstraAvoidsEnd(g: Graph, start: int, end: int)
    requires end != -1
    ensures var vs := OfKind(DijkstraTrace(g, start, end), Visit);
      forall q :: 0 <= q < |vs| ==> vs[q].indices != [end]
  {
    TraceVisits(g, start, end);
    LoopAvoidsEnd(g, end, Start(g, start));
  }
}
