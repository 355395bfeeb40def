/** The fallback dataset of src/traffic_api.py as a worked example: the
    graph `build_graph_from_traffic` makes of it, the route Dijkstra finds
    from A to D, and the hotspots `find_hotspots` reports. The graph is
    derived for any ten segments with the endpoints and weights of the
    fallback list (`FallbackShape`), and `FALLBACK` is one of them. */
module Scenarios {
  import opened Roads
  import opened Graphs
  import opened Congestion
  import opened TrafficApi

  /** The adjacency dictionary built from the fallback segments. */
  const FALLBACK_ADJ: Adj := map[
    "A" := [Entry("B", 5), Entry("C", 10), Entry("E", 15)],
    "B" := [Entry("C", 3), Entry("D", 8), Entry("E", 7)],
    "C" := [Entry("D", 2), Entry("F", 12)],
    "D" := [Entry("E", 4)],
    "E" := [Entry("F", 6)],
    "F" := []
  ]

  /** Ten segments with the endpoints and weights of the fallback list. */
  ghost predicate FallbackShape(d: seq<Segment>)
  {
    |d| == 10 &&
    d[0].from == "A" && d[0].to == "B" && d[0].weight == 5 &&
    d[1].from == "B" && d[1].to == "C" && d[1].weight == 3 &&
    d[2].from == "A" && d[2].to == "C" && d[2].weight == 10 &&
    d[3].from == "B" && d[3].to == "D" && d[3].weight == 8 &&
    d[4].from == "C" && d[4].to == "D" && d[4].weight == 2 &&
    d[5].from == "D" && d[5].to == "E" && d[5].weight == 4 &&
    d[6].from == "E" && d[6].to == "F" && d[6].weight == 6 &&
    d[7].from == "C" && d[7].to == "F" && d[7].weight == 12 &&
    d[8].from == "A" && d[8].to == "E" && d[8].weight == 15 &&
    d[9].from == "B" && d[9].to == "E" && d[9].weight == 7
  }

  lemma FallbackShaped()
    ensures FallbackShape(FALLBACK)
  {
  }

  lemma Names()
    ensures "A" != "B" && "A" != "C" && "A" != "D" && "A" != "E" && "A" != "F"
    ensures "B" != "C" && "B" != "D" && "B" != "E" && "B" != "F"
    ensures "C" != "D" && "C" != "E" && "C" != "F"
    ensures "D" != "E" && "D" != "F" && "E" != "F"
  {
  }

  lemma MentionsStep(seen: seq<Node>, d: seq<Segment>, t: nat, next: seq<Node>)
    requires t < |d| && next == AddOnce(AddOnce(seen, d[t].from), d[t].to)
    ensures MentionsAfter(seen, d[t..]) == MentionsAfter(next, d[t + 1..])
  {
    assert d[t..][1..] == d[t + 1..];
  }

  lemma MentionsFront(d: seq<Segment>)
    requires FallbackShape(d)
    ensures MentionsAfter([], d) == MentionsAfter(["A", "B", "C", "D"], d[4..])
  {
    Names();
    assert d[0..] == d;
    MentionsStep([], d, 0, ["A", "B"]);
    MentionsStep(["A", "B"], d, 1, ["A", "B", "C"]);
    MentionsStep(["A", "B", "C"], d, 2, ["A", "B", "C"]);
    MentionsStep(["A", "B", "C"], d, 3, ["A", "B", "C", "D"]);
  }

  lemma MentionsBack(d: seq<Segment>)
    requires FallbackShape(d)
    ensures MentionsAfter(["A", "B", "C", "D"], d[4..]) == FALLBACK_NODES
  {
    Names();
    var n6 := FALLBACK_NODES;
    MentionsStep(["A", "B", "C", "D"], d, 4, ["A", "B", "C", "D"]);
    MentionsStep(["A", "B", "C", "D"], d, 5, ["A", "B", "C", "D", "E"]);
    MentionsStep(["A", "B", "C", "D", "E"], d, 6, n6);
    MentionsStep(n6, d, 7, n6);
    MentionsStep(n6, d, 8, n6);
    MentionsStep(n6, d, 9, n6);
    assert d[10..] == [];
  }

  /** The segment's entry if it leaves `k`. */
  function Pick(s: Segment, k: Node): seq<Entry>
  {
    if s.from == k then [Entry(s.to, s.weight)] else []
  }

  lemma EntriesAt(d: seq<Segment>, t: nat, k: Node)
    requires t < |d|
    ensures EntriesFrom(d[t..], k) == Pick(d[t], k) + EntriesFrom(d[t + 1..], k)
  {
    assert d[t..][1..] == d[t + 1..];
  }

  lemma EntriesUnrolled(d: seq<Segment>, k: Node)
    requires |d| == 10
    ensures EntriesFrom(d, k) ==
      Pick(d[0], k) + (Pick(d[1], k) + (Pick(d[2], k) + (Pick(d[3], k) + (Pick(d[4], k) +
      (Pick(d[5], k) + (Pick(d[6], k) + (Pick(d[7], k) + (Pick(d[8], k) + (Pick(d[9], k) + EntriesFrom(d[10..], k))))))))))
  {
    assert d[0..] == d;
    EntriesAt(d, 0, k);
    EntriesAt(d, 1, k);
    EntriesAt(d, 2, k);
    EntriesAt(d, 3, k);
    EntriesAt(d, 4, k);
    EntriesAt(d, 5, k);
    EntriesAt(d, 6, k);
    EntriesAt(d, 7, k);
    EntriesAt(d, 8, k);
    EntriesAt(d, 9, k);
  }

  lemma EntriesOf(d: seq<Segment>, k: Node)
    requires FallbackShape(d) && k in FALLBACK_ADJ
    ensures EntriesFrom(d, k) == FALLBACK_ADJ[k]
  {
    Names();
    EntriesUnrolled(d, k);
    assert d[10..] == [];
  }

  lemma ShapeKeys(d: seq<Segment>)
    requires FallbackShape(d)
    ensures Built(d).keys == FALLBACK_NODES
    ensures Built(d).adj.Keys == FALLBACK_ADJ.Keys
  {
    BuiltKeys(d);
    MentionsFront(d);
    MentionsBack(d);
    BuiltAgree(d);
  }

  lemma ShapeLists(d: seq<Segment>)
    requires FallbackShape(d)
    ensures forall k :: k in FALLBACK_ADJ ==> k in Built(d).adj && Built(d).adj[k] == FALLBACK_ADJ[k]
  {
    ShapeKeys(d);
    BuiltEntries(d);
    forall k | k in FALLBACK_ADJ ensures k in Built(d).adj && Built(d).adj[k] == FALLBACK_ADJ[k] {
      EntriesOf(d, k);
    }
  }

  /** The graph built from any segments of the fallback shape has the keys
      A to F in that order and the adjacency lists of `FALLBACK_ADJ`. */
  lemma ShapeGraph(d: seq<Segment>)
    requires FallbackShape(d)
    ensures Built(d).keys == FALLBACK_NODES
    ensures Built(d).adj == FALLBACK_ADJ
  {
    ShapeKeys(d);
    ShapeLists(d);
  }

  lemma FallbackGraph()
    ensures Built(FALLBACK).keys == FALLBACK_NODES
    ensures Built(FALLBACK).adj == FALLBACK_ADJ
  {
    FallbackShaped();
    ShapeGraph(FALLBACK);
  }

  /** An adjacency map with the lists of `FALLBACK_ADJ`. */
  ghost predicate FallbackLists(adj: Adj)
  {
    "A" in adj && adj["A"] == [Entry("B", 5), Entry("C", 10), Entry("E", 15)] &&
    "B" in adj && adj["B"] == [Entry("C", 3), Entry("D", 8), Entry("E", 7)] &&
    "C" in adj && adj["C"] == [Entry("D", 2), Entry("F", 12)] &&
    "D" in adj && adj["D"] == [Entry("E", 4)] &&
    "E" in adj && adj["E"] == [Entry("F", 6)] &&
    "F" in adj && adj["F"] == []
  }

  lemma FallbackListed()
    ensures FallbackLists(FALLBACK_ADJ)
  {
    Names();
  }

  // ---------------------------------------------------------------------
  // The route from A to D
  // ---------------------------------------------------------------------

  /** `dist` labels each node with a distance from `root`, and `pred` names
      the node a cheapest route enters it from; stepping back through `pred`
      from any node but `root` lowers the label. */
  ghost predicate Descends(dist: Node -> nat, pred: Node -> Node, root: Node)
  {
    dist(root) == 0 && forall n :: n != root ==> dist(pred(n)) < dist(n)
  }

  /** The chain `root, ..., n` read back through `pred`. */
  ghost function ChainTo(dist: Node -> nat, pred: Node -> Node, root: Node, n: Node): seq<Node>
    requires Descends(dist, pred, root)
    decreases dist(n)
  {
    if n == root then [n] else ChainTo(dist, pred, root, pred(n)) + [n]
  }

  /** No hop undercuts the labels, and a hop that meets them exactly enters
      its target from `pred` and never enters `root`. */
  ghost predicate Potential(adj: Adj, dist: Node -> nat, pred: Node -> Node, root: Node)
  {
    forall k, e :: k in adj && e in adj[k] ==>
      dist(e.to) <= dist(k) + e.weight &&
      (dist(e.to) == dist(k) + e.weight ==> e.to != root && k == pred(e.to))
  }

  /** Along a walk from `root`, the cost never undercuts the label of where
      it ends, and a walk that meets it exactly is the `pred` chain. */
  lemma {:induction false} WalkFromRoot(adj: Adj, dist: Node -> nat, pred: Node -> Node, root: Node,
                                        p: seq<Node>, ws: seq<nat>)
    requires Descends(dist, pred, root) && Potential(adj, dist, pred, root)
    requires IsWalk(adj, p, ws) && p[0] == root
    ensures dist(p[|p| - 1]) <= Sum(ws)
    ensures dist(p[|p| - 1]) == Sum(ws) ==> p == ChainTo(dist, pred, root, p[|p| - 1])
  {
    var n := |ws|;
    if n > 0 {
      WalkPrefix(adj, p, ws, n - 1);
      WalkFromRoot(adj, dist, pred, root, p[..n], ws[..n - 1]);
      SumPrefix(ws, n - 1);
      assert ws[..n] == ws;
      assert Entry(p[n], ws[n - 1]) in adj[p[n - 1]];
      if dist(p[n]) == Sum(ws) {
        assert p[..n][n - 1] == p[n - 1];
        assert p == p[..n] + [p[n]];
      }
    }
  }

  /** What Dijkstra promises from `root` to `target`, on a graph the labels
      fit and in which the chain to `target` is a walk costing its label,
      pins the answer down to that chain and that cost. */
  lemma ShortestIsChain(adj: Adj, dist: Node -> nat, pred: Node -> Node, root: Node, target: Node,
                        ws: seq<nat>, path: seq<Node>, cost: Cost)
    requires Descends(dist, pred, root) && Potential(adj, dist, pred, root)
    requires IsWalkFromTo(adj, root, target, ChainTo(dist, pred, root, target), ws) && Sum(ws) == dist(target)
    requires path == [] <==> cost == Inf
    requires path == [] <==> !Reachable(adj, root, target)
    requires path != [] ==> IsRoute(adj, root, target, path, cost.value)
    requires path != [] ==> IsShortest(adj, root, target, cost.value)
    ensures path == ChainTo(dist, pred, root, target) && cost == Fin(dist(target))
  {
    assert Reachable(adj, root, target) by {
      assert IsWalkFromTo(adj, root, target, ChainTo(dist, pred, root, target), ws);
    }
    var ws' :| IsWalkFromTo(adj, root, target, path, ws') && Sum(ws') == cost.value;
    WalkFromRoot(adj, dist, pred, root, path, ws');
  }

  /** Taking the hotspot entries out keeps the labels fitting. */
  lemma LightPotential(adj: Adj, dist: Node -> nat, pred: Node -> Node, root: Node)
    requires Potential(adj, dist, pred, root)
    ensures Potential(LightAdj(adj), dist, pred, root)
  {
    forall k: Node, e: Entry | k in LightAdj(adj) && e in LightAdj(adj)[k]
      ensures dist(e.to) <= dist(k) + e.weight
      ensures dist(e.to) == dist(k) + e.weight ==> e.to != root && k == pred(e.to)
    {
      InLight(adj[k], e);
    }
  }

  // ---------------------------------------------------------------------
  // The routes from A to D on the fallback data
  // ---------------------------------------------------------------------

  /** Shortest distances from A in the fallback graph. */
  function DistFromA(n: Node): nat
  {
    if n == "A" then 0
    else if n == "B" then 5
    else if n == "C" then 8
    else if n == "D" then 10
    else if n == "E" then 12
    else 18
  }

  /** The node a cheapest route from A reaches `n` from. */
  function Pred(n: Node): Node
  {
    if n == "B" then "A"
    else if n == "C" || n == "E" then "B"
    else if n == "D" then "C"
    else "E"
  }

  /** The fallback labels lead back to A, and the chain to D is A, B, C, D. */
  lemma FallbackChain()
    ensures Descends(DistFromA, Pred, "A")
    ensures ChainTo(DistFromA, Pred, "A", "D") == ["A", "B", "C", "D"]
  {
    Names();
    assert Descends(DistFromA, Pred, "A");
    assert ChainTo(DistFromA, Pred, "A", "A") == ["A"];
    assert ChainTo(DistFromA, Pred, "A", "B") == ["A", "B"];
    assert ChainTo(DistFromA, Pred, "A", "C") == ["A", "B", "C"];
  }

  /** Every hop of the fallback lists respects `DistFromA`. */
  lemma ListsPotential(adj: Adj)
    requires FallbackLists(adj) && adj.Keys == {"A", "B", "C", "D", "E", "F"}
    ensures Potential(adj, DistFromA, Pred, "A")
  {
    Names();
    forall k: Node, e: Entry | k in adj && e in adj[k]
      ensures DistFromA(e.to) <= DistFromA(k) + e.weight
      ensures DistFromA(e.to) == DistFromA(k) + e.weight ==> e.to != "A" && k == Pred(e.to)
    {
      if k == "A" {
        assert e == Entry("B", 5) || e == Entry("C", 10) || e == Entry("E", 15);
      } else if k == "B" {
        assert e == Entry("C", 3) || e == Entry("D", 8) || e == Entry("E", 7);
      } else if k == "C" {
        assert e == Entry("D", 2) || e == Entry("F", 12);
      } else if k == "D" {
        assert e == Entry("E", 4);
      } else {
        assert k == "E";
        assert e == Entry("F", 6);
      }
    }
  }

  lemma FallbackPotential()
    ensures Potential(FALLBACK_ADJ, DistFromA, Pred, "A")
  {
    FallbackListed();
    ListsPotential(FALLBACK_ADJ);
  }

  lemma FallbackBestWalk()
    ensures IsWalkFromTo(FALLBACK_ADJ, "A", "D", ["A", "B", "C", "D"], [5, 3, 2])
  {
  }

  /** On any graph the fallback labels fit and that has the walk A, B, C, D
      of weights 5, 3, 2, what Dijkstra promises from A to D is that walk. */
  lemma FallbackShortest(adj: Adj, path: seq<Node>, cost: Cost)
    requires Potential(adj, DistFromA, Pred, "A")
    requires IsWalkFromTo(adj, "A", "D", ["A", "B", "C", "D"], [5, 3, 2])
    requires path == [] <==> cost == Inf
    requires path == [] <==> !Reachable(adj, "A", "D")
    requires path != [] ==> IsRoute(adj, "A", "D", path, cost.value)
    requires path != [] ==> IsShortest(adj, "A", "D", cost.value)
    ensures path == ["A", "B", "C", "D"] && cost == Fin(10)
  {
    FallbackChain();
    ShortestIsChain(adj, DistFromA, Pred, "A", "D", [5, 3, 2], path, cost);
  }

  /** `build_graph_from_traffic` on the fallback data, then `dijkstra("A", "D")`. */
  method FallbackRoute() returns (path: seq<Node>, cost: Cost)
    ensures path == ["A", "B", "C", "D"] && cost == Fin(10)
  {
    var graph := BuildGraphFromTraffic(FALLBACK);
    assert Potential(graph.adj, DistFromA, Pred, "A")
        && IsWalkFromTo(graph.adj, "A", "D", ["A", "B", "C", "D"], [5, 3, 2]) by {
      FallbackGraph();
      FallbackPotential();
      FallbackBestWalk();
    }
    ghost var expansions;
    path, cost, expansions := graph.Dijkstra("A", "D");
    FallbackShortest(graph.adj, path, cost);
  }

  /** The walk A, B, C, D uses no hotspot, so it outlives their removal. */
  lemma LightFallback(adj: Adj)
    requires Potential(adj, DistFromA, Pred, "A")
    requires IsWalkFromTo(adj, "A", "D", ["A", "B", "C", "D"], [5, 3, 2])
    ensures Potential(LightAdj(adj), DistFromA, Pred, "A")
    ensures IsWalkFromTo(LightAdj(adj), "A", "D", ["A", "B", "C", "D"], [5, 3, 2])
  {
    LightPotential(adj, DistFromA, Pred, "A");
    LightWalk(adj, ["A", "B", "C", "D"], [5, 3, 2]);
  }

  /** `suggest_alternate_path(graph, "A", "D")` on the fallback graph: the
      route A, B, C, D uses no hotspot, so it is the alternate path too. */
  method FallbackAlternate() returns (path: seq<Node>, cost: Cost)
    ensures path == ["A", "B", "C", "D"] && cost == Fin(10)
  {
    var graph := BuildGraphFromTraffic(FALLBACK);
    ghost var adj0 := graph.adj;
    assert Potential(adj0, DistFromA, Pred, "A")
        && IsWalkFromTo(adj0, "A", "D", ["A", "B", "C", "D"], [5, 3, 2]) by {
      FallbackGraph();
      FallbackPotential();
      FallbackBestWalk();
    }
    LightFallback(adj0);
    ghost var light := LightAdj(adj0);
    path, cost := SuggestAlternatePath(graph, "A", "D");
    FallbackShortest(light, path, cost);
  }

  // ---------------------------------------------------------------------
  // A detour that costs more than the congested road
  // ---------------------------------------------------------------------

  /** A congested road A -> D of weight 7 beside a detour A -> B -> D of
      weights 4 and 4. */
  const DETOUR: seq<Segment> := [
    Segment("A", "D", 7, Pos(0, 0), Pos(0, 2)),
    Segment("A", "B", 4, Pos(0, 0), Pos(0, 1)),
    Segment("B", "D", 4, Pos(0, 1), Pos(0, 2))
  ]

  /** Three segments with the endpoints and weights of `DETOUR`. */
  ghost predicate DetourShape(d: seq<Segment>)
  {
    |d| == 3 &&
    d[0].from == "A" && d[0].to == "D" && d[0].weight == 7 &&
    d[1].from == "A" && d[1].to == "B" && d[1].weight == 4 &&
    d[2].from == "B" && d[2].to == "D" && d[2].weight == 4
  }

  /** Distances from A with the congested road: B at 4, D at 7. */
  function DirectDist(n: Node): nat
  {
    if n == "A" then 0 else if n == "B" then 4 else 7
  }

  function DirectPred(n: Node): Node
  {
    "A"
  }

  /** Distances from A without it: B at 4, D at 8 through B. */
  function AvoidDist(n: Node): nat
  {
    if n == "A" then 0 else if n == "B" then 4 else 8
  }

  function AvoidPred(n: Node): Node
  {
    if n == "D" then "B" else "A"
  }

  lemma DetourChains()
    ensures Descends(DirectDist, DirectPred, "A")
    ensures ChainTo(DirectDist, DirectPred, "A", "D") == ["A", "D"]
    ensures Descends(AvoidDist, AvoidPred, "A")
    ensures ChainTo(AvoidDist, AvoidPred, "A", "D") == ["A", "B", "D"]
  {
    assert Descends(DirectDist, DirectPred, "A");
    assert Descends(AvoidDist, AvoidPred, "A");
    assert ChainTo(AvoidDist, AvoidPred, "A", "B") == ["A", "B"];
  }

  /** The adjacency lists built from the detour segments. */
  lemma DetourEntry(d: seq<Segment>, k: Node, e: Entry)
    requires DetourShape(d) && k in Built(d).adj && e in Built(d).adj[k]
    ensures (k == "A" && (e == Entry("D", 7) || e == Entry("B", 4))) || (k == "B" && e == Entry("D", 4))
  {
    assert e in EntriesFrom(d, k) by { BuiltEntries(d); }
    InEntriesFrom(d, k, e);
    var j :| 0 <= j < |d| && d[j].from == k && Entry(d[j].to, d[j].weight) == e;
    assert j == 0 || j == 1 || j == 2;
  }

  /** Every hop is one of the three detour segments. */
  ghost predicate DetourHops(adj: Adj)
  {
    forall k, e :: k in adj && e in adj[k] ==>
      (k == "A" && (e == Entry("D", 7) || e == Entry("B", 4))) || (k == "B" && e == Entry("D", 4))
  }

  lemma DetourHopsBuilt(d: seq<Segment>)
    requires DetourShape(d)
    ensures DetourHops(Built(d).adj)
  {
    forall k, e | k in Built(d).adj && e in Built(d).adj[k]
      ensures (k == "A" && (e == Entry("D", 7) || e == Entry("B", 4))) || (k == "B" && e == Entry("D", 4))
    {
      DetourEntry(d, k, e);
    }
  }

  /** The labels with the congested road fit the graph... */
  lemma DirectPotential(adj: Adj)
    requires DetourHops(adj)
    ensures Potential(adj, DirectDist, DirectPred, "A")
  {
  }

  /** ...and the labels without it fit its light part. */
  lemma AvoidPotential(adj: Adj)
    requires DetourHops(adj)
    ensures Potential(LightAdj(adj), AvoidDist, AvoidPred, "A")
  {
    forall k, e | k in LightAdj(adj) && e in LightAdj(adj)[k]
      ensures AvoidDist(e.to) <= AvoidDist(k) + e.weight
      ensures AvoidDist(e.to) == AvoidDist(k) + e.weight ==> e.to != "A" && k == AvoidPred(e.to)
    {
      InLight(adj[k], e);
    }
  }

  /** Each segment is an entry of the built graph. */
  lemma DetourEntries(d: seq<Segment>)
    requires DetourShape(d)
    ensures "A" in Built(d).adj && "B" in Built(d).adj
    ensures Entry("D", 7) in Built(d).adj["A"] && Entry("B", 4) in Built(d).adj["A"]
    ensures Entry("D", 4) in Built(d).adj["B"]
  {
    BuiltEndpoints(d, 0);
    BuiltEndpoints(d, 2);
    BuiltEntries(d);
    InEntriesFrom(d, "A", Entry("D", 7));
    InEntriesFrom(d, "A", Entry("B", 4));
    InEntriesFrom(d, "B", Entry("D", 4));
  }

  /** With those entries, the road A, D is a walk, and A, B, D one that
      outlives the removal of the hotspots. */
  lemma DetourWalks(adj: Adj)
    requires "A" in adj && "B" in adj
    requires Entry("D", 7) in adj["A"] && Entry("B", 4) in adj["A"] && Entry("D", 4) in adj["B"]
    ensures IsWalkFromTo(adj, "A", "D", ["A", "D"], [7])
    ensures IsWalkFromTo(LightAdj(adj), "A", "D", ["A", "B", "D"], [4, 4])
  {
    LightWalk(adj, ["A", "B", "D"], [4, 4]);
  }

  /** What Dijkstra promises from A to D where the labels with the
      congested road fit: the road itself, at 7. */
  lemma DirectShortest(adj: Adj, path: seq<Node>, cost: Cost)
    requires Potential(adj, DirectDist, DirectPred, "A")
    requires IsWalkFromTo(adj, "A", "D", ["A", "D"], [7])
    requires path == [] <==> cost == Inf
    requires path == [] <==> !Reachable(adj, "A", "D")
    requires path != [] ==> IsRoute(adj, "A", "D", path, cost.value)
    requires path != [] ==> IsShortest(adj, "A", "D", cost.value)
    ensures path == ["A", "D"] && cost == Fin(7)
  {
    DetourChains();
    ShortestIsChain(adj, DirectDist, DirectPred, "A", "D", [7], path, cost);
  }

  /** ...and where the labels without it fit: the detour through B, at 8. */
  lemma AvoidShortest(adj: Adj, path: seq<Node>, cost: Cost)
    requires Potential(adj, AvoidDist, AvoidPred, "A")
    requires IsWalkFromTo(adj, "A", "D", ["A", "B", "D"], [4, 4])
    requires path == [] <==> cost == Inf
    requires path == [] <==> !Reachable(adj, "A", "D")
    requires path != [] ==> IsRoute(adj, "A", "D", path, cost.value)
    requires path != [] ==> IsShortest(adj, "A", "D", cost.value)
    ensures path == ["A", "B", "D"] && cost == Fin(8)
  {
    DetourChains();
    ShortestIsChain(adj, AvoidDist, AvoidPred, "A", "D", [4, 4], path, cost);
  }

  /** `dijkstra("A", "D")` takes the congested road at cost 7, and
      `suggest_alternate_path(graph, "A", "D")` the dearer detour at 8. */
  method DetourRoutes() returns (direct: seq<Node>, directCost: Cost, detour: seq<Node>, detourCost: Cost)
    ensures direct == ["A", "D"] && directCost == Fin(7)
    ensures detour == ["A", "B", "D"] && detourCost == Fin(8)
  {
    var graph := BuildGraphFromTraffic(DETOUR);
    ghost var adj0 := graph.adj;
    assert DetourHops(adj0)
        && "A" in adj0 && "B" in adj0
        && Entry("D", 7) in adj0["A"] && Entry("B", 4) in adj0["A"] && Entry("D", 4) in adj0["B"] by {
      assert DetourShape(DETOUR);
      DetourHopsBuilt(DETOUR);
      DetourEntries(DETOUR);
    }
    DirectPotential(adj0);
    AvoidPotential(adj0);
    DetourWalks(adj0);
    ghost var expansions;
    direct, directCost, expansions := graph.Dijkstra("A", "D");
    DirectShortest(adj0, direct, directCost);
    ghost var light := LightAdj(adj0);
    detour, detourCost := SuggestAlternatePath(graph, "A", "D");
    AvoidShortest(light, detour, detourCost);
  }

  // ---------------------------------------------------------------------
  // The hotspots
  // ---------------------------------------------------------------------

  /** The hotspot `e` makes when it leaves `from`, if any. */
  function HotOne(from: Node, e: Entry): seq<Hotspot>
  {
    if IsHot(e) then [Hotspot(from, e.to, e.weight)] else []
  }

  lemma HotspotsFromThree(from: Node, x: Entry, y: Entry, z: Entry)
    ensures HotspotsFrom(from, [x]) == HotOne(from, x)
    ensures HotspotsFrom(from, [x, y]) == HotOne(from, x) + HotOne(from, y)
    ensures HotspotsFrom(from, [x, y, z]) == HotOne(from, x) + HotOne(from, y) + HotOne(from, z)
  {
    assert [x, y, z][..2] == [x, y];
    assert [x, y][..1] == [x];
    assert [x][..0] == [];
  }

  /** The hotspots of `adj` for the keys `a` to `f`, list by list. */
  function HotAt(k: Node, adj: Adj): seq<Hotspot>
  {
    if k in adj then HotspotsFrom(k, adj[k]) else []
  }

  lemma HotspotsOfSnoc(keys: seq<Node>, k: Node, adj: Adj)
    ensures HotspotsOf(keys + [k], adj) == HotspotsOf(keys, adj) + HotAt(k, adj)
  {
    assert (keys + [k])[..|keys|] == keys;
  }

  lemma HotspotsOfSix(a: Node, b: Node, c: Node, d: Node, e: Node, f: Node, adj: Adj)
    ensures HotspotsOf([a, b, c, d, e, f], adj) ==
      HotAt(a, adj) + HotAt(b, adj) + HotAt(c, adj) + HotAt(d, adj) + HotAt(e, adj) + HotAt(f, adj)
  {
    assert HotspotsOf([a], adj) == HotAt(a, adj) by {
      HotspotsOfSnoc([], a, adj);
      assert [] + [a] == [a];
    }
    assert HotspotsOf([a, b], adj) == HotAt(a, adj) + HotAt(b, adj) by {
      HotspotsOfSnoc([a], b, adj);
      assert [a] + [b] == [a, b];
    }
    assert HotspotsOf([a, b, c], adj) == HotAt(a, adj) + HotAt(b, adj) + HotAt(c, adj) by {
      HotspotsOfSnoc([a, b], c, adj);
      assert [a, b] + [c] == [a, b, c];
    }
    assert HotspotsOf([a, b, c, d], adj) == HotAt(a, adj) + HotAt(b, adj) + HotAt(c, adj) + HotAt(d, adj) by {
      HotspotsOfSnoc([a, b, c], d, adj);
      assert [a, b, c] + [d] == [a, b, c, d];
    }
    assert HotspotsOf([a, b, c, d, e], adj) ==
      HotAt(a, adj) + HotAt(b, adj) + HotAt(c, adj) + HotAt(d, adj) + HotAt(e, adj) by {
      HotspotsOfSnoc([a, b, c, d], e, adj);
      assert [a, b, c, d] + [e] == [a, b, c, d, e];
    }
    HotspotsOfSnoc([a, b, c, d, e], f, adj);
    assert [a, b, c, d, e] + [f] == [a, b, c, d, e, f];
  }

  lemma ListsHotspots(adj: Adj)
    requires FallbackLists(adj)
    ensures HotspotsOf(FALLBACK_NODES, adj) ==
      [Hotspot("A", "C", 10), Hotspot("A", "E", 15), Hotspot("B", "D", 8),
       Hotspot("B", "E", 7), Hotspot("C", "F", 12)]
  {
    HotspotsOfSix("A", "B", "C", "D", "E", "F", adj);
    assert HotAt("A", adj) == [Hotspot("A", "C", 10), Hotspot("A", "E", 15)] by {
      HotspotsFromThree("A", Entry("B", 5), Entry("C", 10), Entry("E", 15));
    }
    assert HotAt("B", adj) == [Hotspot("B", "D", 8), Hotspot("B", "E", 7)] by {
      HotspotsFromThree("B", Entry("C", 3), Entry("D", 8), Entry("E", 7));
    }
    assert HotAt("C", adj) == [Hotspot("C", "F", 12)] by {
      HotspotsFromThree("C", Entry("D", 2), Entry("F", 12), Entry("F", 12));
    }
    assert HotAt("D", adj) == [] by {
      HotspotsFromThree("D", Entry("E", 4), Entry("E", 4), Entry("E", 4));
    }
    assert HotAt("E", adj) == [] by {
      HotspotsFromThree("E", Entry("F", 6), Entry("F", 6), Entry("F", 6));
    }
    assert HotAt("F", adj) == [];
  }

  lemma FallbackHotspotList()
    ensures HotspotsOf(FALLBACK_NODES, FALLBACK_ADJ) ==
      [Hotspot("A", "C", 10), Hotspot("A", "E", 15), Hotspot("B", "D", 8),
       Hotspot("B", "E", 7), Hotspot("C", "F", 12)]
  {
    FallbackListed();
    ListsHotspots(FALLBACK_ADJ);
  }

  /** `find_hotspots` on the graph built from the fallback data. */
  method FallbackHotspots() returns (hotspots: seq<Hotspot>)
    ensures hotspots == [Hotspot("A", "C", 10), Hotspot("A", "E", 15), Hotspot("B", "D", 8),
                         Hotspot("B", "E", 7), Hotspot("C", "F", 12)]
  {
    var graph := BuildGraphFromTraffic(FALLBACK);
    FallbackGraph();
    FallbackHotspotList();
    hotspots := FindHotspots(graph);
  }
}
