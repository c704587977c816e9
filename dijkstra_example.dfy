/** The graph of src/core/algorithms/dijkstra.test.ts, run iteration by iteration:
    each round fixes the node the min-scan picks and the distances after its
    neighbour loop. */
module ShortestPathExample {
  import opened Steps
  import opened ShortestPath
  import opened ShortestPathFacts

  /** Four nodes 0..3 and five weighted edges. */
  predicate IsTestGraph(g: Graph) {
    g.nodes == [GraphNode(0, 0, 0), GraphNode(1, 0, 0), GraphNode(2, 0, 0), GraphNode(3, 0, 0)] &&
    g.edges == TestEdges()
  }

  function TestEdges(): seq<GraphEdge> {
    [GraphEdge(0, 1, 4), GraphEdge(0, 2, 1), GraphEdge(2, 1, 2), GraphEdge(1, 3, 1), GraphEdge(2, 3, 5)]
  }

  /** The visits from s on: u, then those from the state its neighbour loop leaves. */
  lemma VisitsStep(g: Graph, end: int, s: Scan, u: int, du: int, next: Scan)
    requires |s.unvisited| > 0 && MinScan(s.dist, s.unvisited) == Pick(Some(u), Some(du)) && !(end != -1 && u == end)
    requires RelaxFrom(Neighbors(g.edges, u), 0, u, du, Scan(s.dist, s.prev, Remove(s.unvisited, u))).scan == next
    ensures OfKind(Loop(g, end, s), Visit) == [Mk(Visit, [u])] + OfKind(Loop(g, end, next), Visit)
  {
    var a := Scan(s.dist, s.prev, Remove(s.unvisited, u));
    var r := RelaxFrom(Neighbors(g.edges, u), 0, u, du, a);
    RelaxFromSteps(Neighbors(g.edges, u), 0, u, du, a);
    assert Loop(g, end, s) == Iterate(g, end, s, u, du);
    VisitsOfIterate(Loop(g, end, s), u, r.steps, Loop(g, end, r.scan), a.unvisited);
  }

  lemma StartOfTest(g: Graph)
    requires IsTestGraph(g)
    ensures Start(g, 0) == Scan(D0(), P0(), [0, 1, 2, 3])
  {
    var ns := g.nodes;
    assert ns[..0] == [];
    assert ns[..1][..0] == ns[..0];
    assert ns[..2][..1] == ns[..1];
    assert ns[..3][..2] == ns[..2];
    assert ns[..4][..3] == ns[..3];
    assert ns[..4] == ns;
    assert InitFrom(ns[..1]) == Scan(map[0 := None], map[0 := None], [0]);
    assert InitFrom(ns[..2]) == Scan(map[0 := None, 1 := None], map[0 := None, 1 := None], [0, 1]);
    assert InitFrom(ns[..3]) == Scan(map[0 := None, 1 := None, 2 := None], map[0 := None, 1 := None, 2 := None], [0, 1, 2]);
    assert InitFrom(ns) == Scan(map[0 := None, 1 := None, 2 := None, 3 := None], map[0 := None, 1 := None, 2 := None, 3 := None], [0, 1, 2, 3]);
  }

  /** The distances and predecessors after each visit of the run from node 0. */
  function D0(): map<int, Option<int>> { map[0 := None, 1 := None, 2 := None, 3 := None][0 := Some(0)] }
  function D1(): map<int, Option<int>> { D0()[1 := Some(4)][2 := Some(1)] }
  function D2(): map<int, Option<int>> { D1()[1 := Some(3)][3 := Some(6)] }
  function D3(): map<int, Option<int>> { D2()[3 := Some(4)] }
  function P0(): map<int, Option<int>> { map[0 := None, 1 := None, 2 := None, 3 := None] }
  function P1(): map<int, Option<int>> { P0()[1 := Some(0)][2 := Some(0)] }
  function P2(): map<int, Option<int>> { P1()[1 := Some(2)][3 := Some(2)] }
  function P3(): map<int, Option<int>> { P2()[3 := Some(1)] }

  /** Edge k of nb relaxes v to du + w. */
  lemma RelaxesTo(nb: seq<GraphEdge>, k: int, u: int, du: int, s: Scan, v: int)
    requires 0 <= k < |nb| && Other(nb[k], u) == v && v in s.unvisited && Less(Some(du + nb[k].weight), Lookup(s.dist, v))
    ensures RelaxFrom(nb, k, u, du, s).scan
      == RelaxFrom(nb, k + 1, u, du, Scan(s.dist[v := Some(du + nb[k].weight)], s.prev[v := Some(u)], s.unvisited)).scan
  {
  }

  /** Edge k of nb leads to a node that is no longer unvisited. */
  lemma Skips(nb: seq<GraphEdge>, k: int, u: int, du: int, s: Scan)
    requires 0 <= k < |nb| && Other(nb[k], u) !in s.unvisited
    ensures RelaxFrom(nb, k, u, du, s).scan == RelaxFrom(nb, k + 1, u, du, s).scan
  {
  }

  lemma FirstRelax(g: Graph)
    requires IsTestGraph(g)
    ensures RelaxFrom(Neighbors(g.edges, 0), 0, 0, 0, Scan(D0(), P0(), [1, 2, 3])).scan == Scan(D1(), P1(), [1, 2, 3])
  {
    var nb := Neighbors(g.edges, 0);
    assert nb == Neighbors(TestEdges(), 0) == [TestEdges()[0], TestEdges()[1]];
    RelaxesTo(nb, 0, 0, 0, Scan(D0(), P0(), [1, 2, 3]), 1);
    RelaxesTo(nb, 1, 0, 0, Scan(D0()[1 := Some(4)], P0()[1 := Some(0)], [1, 2, 3]), 2);
  }

  lemma FirstRound(g: Graph, end: int)
    requires IsTestGraph(g)
    requires end != 0
    ensures MinScan(D0(), [0, 1, 2, 3]) == Pick(Some(0), Some(0))
    ensures OfKind(Loop(g, end, Scan(D0(), P0(), [0, 1, 2, 3])), Visit)
      == [Mk(Visit, [0])] + OfKind(Loop(g, end, Scan(D1(), P1(), [1, 2, 3])), Visit)
  {
    assert MinScan(D0(), [0, 1, 2, 3]) == Pick(Some(0), Some(0));
    assert Remove([0, 1, 2, 3], 0) == [1, 2, 3];
    FirstRelax(g);
    VisitsStep(g, end, Scan(D0(), P0(), [0, 1, 2, 3]), 0, 0, Scan(D1(), P1(), [1, 2, 3]));
  }

  lemma SecondRelax(g: Graph)
    requires IsTestGraph(g)
    ensures RelaxFrom(Neighbors(g.edges, 2), 0, 2, 1, Scan(D1(), P1(), [1, 3])).scan == Scan(D2(), P2(), [1, 3])
  {
    var nb := Neighbors(g.edges, 2);
    assert nb == Neighbors(TestEdges(), 2) == [TestEdges()[1], TestEdges()[2], TestEdges()[4]];
    Skips(nb, 0, 2, 1, Scan(D1(), P1(), [1, 3]));
    RelaxesTo(nb, 1, 2, 1, Scan(D1(), P1(), [1, 3]), 1);
    RelaxesTo(nb, 2, 2, 1, Scan(D1()[1 := Some(3)], P1()[1 := Some(2)], [1, 3]), 3);
  }

  lemma SecondRound(g: Graph, end: int)
    requires IsTestGraph(g)
    requires end != 2
    ensures MinScan(D1(), [1, 2, 3]) == Pick(Some(2), Some(1))
    ensures OfKind(Loop(g, end, Scan(D1(), P1(), [1, 2, 3])), Visit)
      == [Mk(Visit, [2])] + OfKind(Loop(g, end, Scan(D2(), P2(), [1, 3])), Visit)
  {
    assert MinScan(D1(), [1, 2, 3]) == Pick(Some(2), Some(1));
    assert Remove([1, 2, 3], 2) == [1, 3];
    SecondRelax(g);
    VisitsStep(g, end, Scan(D1(), P1(), [1, 2, 3]), 2, 1, Scan(D2(), P2(), [1, 3]));
  }

  lemma ThirdRelax(g: Graph)
    requires IsTestGraph(g)
    ensures RelaxFrom(Neighbors(g.edges, 1), 0, 1, 3, Scan(D2(), P2(), [3])).scan == Scan(D3(), P3(), [3])
  {
    var nb := Neighbors(g.edges, 1);
    assert nb == Neighbors(TestEdges(), 1) == [TestEdges()[0], TestEdges()[2], TestEdges()[3]];
    Skips(nb, 0, 1, 3, Scan(D2(), P2(), [3]));
    Skips(nb, 1, 1, 3, Scan(D2(), P2(), [3]));
    RelaxesTo(nb, 2, 1, 3, Scan(D2(), P2(), [3]), 3);
  }

  lemma ThirdRound(g: Graph, end: int)
    requires IsTestGraph(g)
    requires end != 1
    ensures MinScan(D2(), [1, 3]) == Pick(Some(1), Some(3))
    ensures OfKind(Loop(g, end, Scan(D2(), P2(), [1, 3])), Visit)
      == [Mk(Visit, [1])] + OfKind(Loop(g, end, Scan(D3(), P3(), [3])), Visit)
  {
    assert MinScan(D2(), [1, 3]) == Pick(Some(1), Some(3));
    assert Remove([1, 3], 1) == [3];
    ThirdRelax(g);
    VisitsStep(g, end, Scan(D2(), P2(), [1, 3]), 1, 3, Scan(D3(), P3(), [3]));
  }

  lemma LastRelax(g: Graph)
    requires IsTestGraph(g)
    ensures RelaxFrom(Neighbors(g.edges, 3), 0, 3, 4, Scan(D3(), P3(), [])).scan == Scan(D3(), P3(), [])
  {
    var nb := Neighbors(g.edges, 3);
    assert nb == Neighbors(TestEdges(), 3) == [TestEdges()[3], TestEdges()[4]];
    Skips(nb, 0, 3, 4, Scan(D3(), P3(), []));
    Skips(nb, 1, 3, 4, Scan(D3(), P3(), []));
  }

  lemma LastRound(g: Graph)
    requires IsTestGraph(g)
    ensures MinScan(D3(), [3]) == Pick(Some(3), Some(4))
    ensures OfKind(Loop(g, -1, Scan(D3(), P3(), [3])), Visit) == [Mk(Visit, [3])]
  {
    assert MinScan(D3(), [3]) == Pick(Some(3), Some(4));
    assert Remove([3], 3) == [];
    LastRelax(g);
    VisitsStep(g, -1, Scan(D3(), P3(), [3]), 3, 4, Scan(D3(), P3(), []));
    assert Loop(g, -1, Scan(D3(), P3(), [])) == [];
    assert OfKind([], Visit) == [];
  }

  /** From node 0 with no end node, the test graph's nodes are visited in the order
      0, 2, 1, 3, at distances 0, 1, 3, 4: the min-scan of each round picks the
      next node with its distance, from the state the previous round leaves. */
  lemma TestGraphVisitOrder(g: Graph)
    requires IsTestGraph(g)
    ensures OfKind(DijkstraTrace(g, 0, -1), Visit) == [Mk(Visit, [0]), Mk(Visit, [2]), Mk(Visit, [1]), Mk(Visit, [3])]
    ensures MinScan(Start(g, 0).dist, Start(g, 0).unvisited) == Pick(Some(0), Some(0))
    ensures MinScan(D1(), [1, 2, 3]) == Pick(Some(2), Some(1)) && MinScan(D2(), [1, 3]) == Pick(Some(1), Some(3))
    ensures MinScan(D3(), [3]) == Pick(Some(3), Some(4))
  {
    TraceVisits(g, 0, -1);
    StartOfTest(g);
    FirstRound(g, -1);
    SecondRound(g, -1);
    ThirdRound(g, -1);
    LastRound(g);
    Unroll(OfKind(Loop(g, -1, Start(g, 0)), Visit), OfKind(Loop(g, -1, Scan(D1(), P1(), [1, 2, 3])), Visit),
      OfKind(Loop(g, -1, Scan(D2(), P2(), [1, 3])), Visit), OfKind(Loop(g, -1, Scan(D3(), P3(), [3])), Visit));
  }

  lemma Unroll(a: seq<Step>, b: seq<Step>, c: seq<Step>, d: seq<Step>)
    requires a == [Mk(Visit, [0])] + b && b == [Mk(Visit, [2])] + c && c == [Mk(Visit, [1])] + d && d == [Mk(Visit, [3])]
    ensures a == [Mk(Visit, [0]), Mk(Visit, [2]), Mk(Visit, [1]), Mk(Visit, [3])]
  {
  }

  /** With end node 2, node 0 is visited and the loop stops when node 2 would come
      next, so 2 is never visited. */
  lemma TestGraphStopsAtEnd(g: Graph)
    requires IsTestGraph(g)
    ensures OfKind(DijkstraTrace(g, 0, 2), Visit) == [Mk(Visit, [0])]
  {
    TraceVisits(g, 0, 2);
    StartOfTest(g);
    FirstRound(g, 2);
    EndComesNext(g);
    Unroll1(OfKind(Loop(g, 2, Start(g, 0)), Visit), Loop(g, 2, Scan(D1(), P1(), [1, 2, 3])));
  }

  lemma EndComesNext(g: Graph)
    ensures Loop(g, 2, Scan(D1(), P1(), [1, 2, 3])) == []
  {
    assert MinScan(D1(), [1, 2, 3]) == Pick(Some(2), Some(1));
  }

  lemma Unroll1(a: seq<Step>, rest: seq<Step>)
    requires a == [Mk(Visit, [0])] + OfKind(rest, Visit) && rest == []
    ensures a == [Mk(Visit, [0])]
  {
    assert OfKind(rest, Visit) == [];
  }
}
