/** The two pieces of src/cli.py that compute on a graph: one pass of the
    weight refresh inside `poll_traffic`, and the route selection at the
    end of `main` (alternate path first when asked, the chosen algorithm
    otherwise). */
module Cli {
  import opened Roads
  import opened Graphs
  import opened Congestion

  // ---------------------------------------------------------------------
  // One refresh pass of `poll_traffic`
  // ---------------------------------------------------------------------

  /** Every entry of `l` that leads to `to` now carries `weight`. */
  function Retarget(l: seq<Entry>, to: Node, weight: nat): seq<Entry>
  {
    seq(|l|, i requires 0 <= i < |l| => if l[i].to == to then Entry(to, weight) else l[i])
  }

  /** One segment applied to the adjacency map; a segment whose `from` is
      not a key of the map is ignored. */
  function ApplySegment(adj: Adj, s: Segment): Adj
  {
    if s.from in adj then adj[s.from := Retarget(adj[s.from], s.to, s.weight)] else adj
  }

  /** The segments of a batch applied in order. */
  function ApplyAll(adj: Adj, data: seq<Segment>): Adj
  {
    if data == [] then adj
    else ApplySegment(ApplyAll(adj, data[..|data| - 1]), data[|data| - 1])
  }

  /** Reference definition: the weight of the last segment of `data` for the
      hop `from -> to`, if the batch has one. */
  function LastWeight(data: seq<Segment>, from: Node, to: Node): Option<nat>
  {
    if data == [] then None
    else
      var s := data[|data| - 1];
      if s.from == from && s.to == to then Some(s.weight)
      else LastWeight(data[..|data| - 1], from, to)
  }

  /** The weight an entry `e` of the list of `from` carries after the batch. */
  function FinalWeight(data: seq<Segment>, from: Node, e: Entry): nat
  {
    match LastWeight(data, from, e.to)
    case Some(w) => w
    case None => e.weight
  }

  /** `LastWeight` finds the last matching segment, and none when none matches. */
  lemma {:induction false} LastWeightSpec(data: seq<Segment>, from: Node, to: Node)
    ensures LastWeight(data, from, to).None? <==>
              forall j :: 0 <= j < |data| ==> !(data[j].from == from && data[j].to == to)
    ensures LastWeight(data, from, to).Some? ==>
              exists j :: 0 <= j < |data| && data[j].from == from && data[j].to == to &&
                data[j].weight == LastWeight(data, from, to).value &&
                forall j' :: j < j' < |data| ==> !(data[j'].from == from && data[j'].to == to)
  {
    if data != [] {
      var n := |data| - 1;
      LastWeightSpec(data[..n], from, to);
      if data[n].from == from && data[n].to == to {
        assert 0 <= n < |data| && data[n].from == from && data[n].to == to;
      } else if LastWeight(data[..n], from, to).Some? {
        var j :| 0 <= j < n && data[..n][j].from == from && data[..n][j].to == to &&
                 data[..n][j].weight == LastWeight(data[..n], from, to).value &&
                 forall j' :: j < j' < n ==> !(data[..n][j'].from == from && data[..n][j'].to == to);
        assert data[j] == data[..n][j];
        forall j' | j < j' < |data| ensures !(data[j'].from == from && data[j'].to == to) {
          if j' < n {
            assert data[j'] == data[..n][j'];
          }
        }
      } else {
        forall j | 0 <= j < |data| ensures !(data[j].from == from && data[j].to == to) {
          if j < n {
            assert data[j] == data[..n][j];
          }
        }
      }
    }
  }

  /** The refresh keeps every key, every list's length and every entry's
      neighbor; each entry's weight becomes that of the last matching
      segment of the batch, or stays as it was when none matches. */
  lemma {:induction false} ApplyAllSpec(adj: Adj, data: seq<Segment>)
    ensures ApplyAll(adj, data).Keys == adj.Keys
    ensures forall k :: k in adj ==> |ApplyAll(adj, data)[k]| == |adj[k]|
    ensures forall k, i :: k in adj && 0 <= i < |adj[k]| ==>
              ApplyAll(adj, data)[k][i] == Entry(adj[k][i].to, FinalWeight(data, k, adj[k][i]))
  {
    if data != [] {
      var n := |data| - 1;
      var prev, s := ApplyAll(adj, data[..n]), data[n];
      ApplyAllSpec(adj, data[..n]);
      forall k, i | k in adj && 0 <= i < |adj[k]|
        ensures ApplyAll(adj, data)[k][i] == Entry(adj[k][i].to, FinalWeight(data, k, adj[k][i]))
      {
        assert prev[k][i] == Entry(adj[k][i].to, FinalWeight(data[..n], k, adj[k][i]));
      }
    }
  }

  /** A refreshed graph keeps its shape: neighbors, and so keys, are unchanged. */
  lemma ApplyAllWellFormed(g: GraphState, data: seq<Segment>)
    requires WellFormed(g)
    ensures WellFormed(GraphState(g.nodes, g.keys, ApplyAll(g.adj, data), g.posKeys, g.positions))
  {
    var a := ApplyAll(g.adj, data);
    ApplyAllSpec(g.adj, data);
    forall k: Node, e: Entry | k in a && e in a[k] ensures e.to in a {
      var i :| 0 <= i < |a[k]| && a[k][i] == e;
      assert g.adj[k][i] in g.adj[k];
    }
  }

  /** After a batch ending in a segment for `from -> to`, every entry of
      `from` that leads to `to` carries that segment's weight. */
  lemma LastSegmentWins(adj: Adj, data: seq<Segment>, s: Segment)
    requires s.from in adj
    ensures s.from in ApplyAll(adj, data + [s])
    ensures forall e :: e in ApplyAll(adj, data + [s])[s.from] && e.to == s.to ==> e.weight == s.weight
  {
    var d := data + [s];
    assert d[..|d| - 1] == data;
    ApplyAllSpec(adj, d);
    var l := ApplyAll(adj, d)[s.from];
    forall e | e in l && e.to == s.to ensures e.weight == s.weight {
      var i :| 0 <= i < |l| && l[i] == e;
      assert LastWeight(d, s.from, adj[s.from][i].to) == Some(s.weight);
    }
  }

  /** Refreshing twice with the same batch is refreshing once. */
  lemma ApplyAllIdempotent(adj: Adj, data: seq<Segment>)
    ensures ApplyAll(ApplyAll(adj, data), data) == ApplyAll(adj, data)
  {
    var once := ApplyAll(adj, data);
    var twice := ApplyAll(once, data);
    ApplyAllSpec(adj, data);
    ApplyAllSpec(once, data);
    forall k | k in twice ensures twice[k] == once[k] {
      assert |twice[k]| == |once[k]|;
      forall i | 0 <= i < |once[k]| ensures twice[k][i] == once[k][i] {
        assert once[k][i].to == adj[k][i].to;
      }
    }
  }

  /** The update loop of `poll_traffic`: for each segment whose `from` is a
      key, every entry leading to its `to` is overwritten in place. */
  method RefreshWeights(graph: Graph, data: seq<Segment>)
    modifies graph
    ensures graph.adj == ApplyAll(old(graph.adj), data)
    ensures graph.nodes == old(graph.nodes) && graph.keys == old(graph.keys)
    ensures graph.posKeys == old(graph.posKeys) && graph.positions == old(graph.positions)
    ensures old(graph.Valid()) ==> graph.Valid()
  {
    ghost var adj0, st0, valid0 := graph.adj, graph.State(), graph.Valid();
    for t := 0 to |data|
      invariant graph.adj == ApplyAll(adj0, data[..t])
      invariant graph.nodes == old(graph.nodes) && graph.keys == old(graph.keys)
      invariant graph.posKeys == old(graph.posKeys) && graph.positions == old(graph.positions)
    {
      var s := data[t];
      assert data[..t + 1][..t] == data[..t];
      if s.from in graph.adj {
        ghost var a := graph.adj;
        var l0 := graph.adj[s.from];
        for i := 0 to |l0|
          invariant s.from in graph.adj && graph.adj == a[s.from := graph.adj[s.from]]
          invariant |graph.adj[s.from]| == |l0|
          invariant graph.nodes == old(graph.nodes) && graph.keys == old(graph.keys)
          invariant graph.posKeys == old(graph.posKeys) && graph.positions == old(graph.positions)
          invariant forall j :: 0 <= j < |l0| ==>
                      graph.adj[s.from][j] == if j < i then Retarget(l0, s.to, s.weight)[j] else l0[j]
        {
          if graph.adj[s.from][i].to == s.to {
            graph.adj := graph.adj[s.from := graph.adj[s.from][i := Entry(s.to, s.weight)]];
          }
        }
        assert graph.adj[s.from] == Retarget(l0, s.to, s.weight);
      }
    }
    assert data[..|data|] == data;
    if valid0 {
      ApplyAllWellFormed(st0, data);
    }
  }

  // ---------------------------------------------------------------------
  // Route selection in `main`
  // ---------------------------------------------------------------------

  datatype Algorithm = Dijkstra | AStar

  /** The values `--algorithm` accepts. */
  const ALGORITHM_CHOICES: seq<string> := ["dijkstra", "astar"]

  /** `getattr(graph, name)` as written: the graph's search methods are
      named `dijkstra` and `a_star`. */
  function MethodNamed(name: string): (r: Option<Algorithm>)
    ensures r.Some? ==> name == "dijkstra" || name == "a_star"
  {
    if name == "dijkstra" then Some(Dijkstra)
    else if name == "a_star" then Some(AStar)
    else None
  }

  /** The accepted choice `astar` names no method of the graph, so the
      lookup in `main` fails for it. */
  lemma AstarChoiceUnresolved()
    ensures "astar" in ALGORITHM_CHOICES && MethodNamed("astar").None?
  {
  }

  /** The intended reading of `--algorithm`: each accepted choice selects
      its own search. */
  function ParseAlgorithm(name: string): (r: Option<Algorithm>)
    ensures r.Some? <==> name in ALGORITHM_CHOICES
    ensures r == Some(Dijkstra) <==> name == "dijkstra"
    ensures r == Some(AStar) <==> name == "astar"
  {
    if name == "dijkstra" then Some(Dijkstra)
    else if name == "astar" then Some(AStar)
    else None
  }

  /** The chosen search on the graph as it stands; A* gets its default
      heuristic. */
  method RunAlgorithm(graph: Graph, algorithm: Algorithm, start: Node, end: Node, dist: (Pos, Pos) -> nat)
    returns (path: seq<Node>, cost: Cost)
    ensures path == [] <==> cost == Inf
    ensures path == [] <==> !Reachable(graph.adj, start, end)
    ensures path != [] ==> IsRoute(graph.adj, start, end, path, cost.value)
    ensures algorithm == Dijkstra && path != [] ==> IsShortest(graph.adj, start, end, cost.value)
    ensures algorithm == AStar && end !in graph.positions && path != [] ==> IsShortest(graph.adj, start, end, cost.value)
  {
    if algorithm == Dijkstra {
      ghost var expansions;
      path, cost, expansions := graph.Dijkstra(start, end);
    } else {
      ghost var expansions;
      path, cost, expansions := graph.AStar(start, end, None, dist);
    }
  }

  /** The route `main` prints. With `avoidHotspots`, a route using no
      hotspot is taken whenever one exists (the alternate path), and the
      chosen search on the whole graph otherwise. Either way the entries of
      the graph are the same afterwards. */
  method SelectRoute(graph: Graph, algorithm: Algorithm, avoidHotspots: bool, start: Node, end: Node,
                     dist: (Pos, Pos) -> nat)
    returns (path: seq<Node>, cost: Cost)
    requires graph.Valid()
    modifies graph
    ensures graph.Valid() && SameEntries(graph.adj, old(graph.adj))
    ensures graph.nodes == old(graph.nodes) && graph.keys == old(graph.keys)
    ensures graph.posKeys == old(graph.posKeys) && graph.positions == old(graph.positions)
    ensures !avoidHotspots ==> graph.adj == old(graph.adj)
    ensures avoidHotspots ==> graph.adj.Keys == old(graph.adj).Keys
    ensures avoidHotspots ==>
              forall k :: k in old(graph.adj) ==> graph.adj[k] == Light(old(graph.adj)[k]) + Heavy(old(graph.adj)[k])
    ensures forall k :: k in old(graph.adj) ==> multiset(graph.adj[k]) == multiset(old(graph.adj)[k])
    ensures path == [] <==> cost == Inf
    ensures path == [] <==> !Reachable(old(graph.adj), start, end)
    ensures path != [] ==> IsRoute(old(graph.adj), start, end, path, cost.value)
    ensures avoidHotspots && Reachable(LightAdj(old(graph.adj)), start, end) ==>
              path != [] && IsRoute(LightAdj(old(graph.adj)), start, end, path, cost.value) &&
              IsShortest(LightAdj(old(graph.adj)), start, end, cost.value)
    ensures (algorithm == Dijkstra || end !in old(graph.positions)) && path != [] &&
            !(avoidHotspots && Reachable(LightAdj(old(graph.adj)), start, end)) ==>
              IsShortest(old(graph.adj), start, end, cost.value)
  {
    ghost var adj0 := graph.adj;
    if avoidHotspots {
      path, cost := SuggestAlternatePath(graph, start, end);
      if path == [] {
        path, cost := RunAlgorithm(graph, algorithm, start, end, dist);
        SameEntriesRoutes(graph.adj, adj0, start, end);
      } else {
        AvoidingRoute(adj0, start, end, path, cost.value);
        ReachableOfRoute(adj0, start, end, path, cost.value);
        SameEntriesRoutes(graph.adj, adj0, start, end);
      }
    } else {
      path, cost := RunAlgorithm(graph, algorithm, start, end, dist);
      SameEntriesRoutes(graph.adj, adj0, start, end);
    }
  }

  lemma ReachableOfRoute(adj: Adj, s: Node, t: Node, path: seq<Node>, c: nat)
    requires IsRoute(adj, s, t, path, c)
    ensures Reachable(adj, s, t)
  {
    var ws :| IsWalkFromTo(adj, s, t, path, ws) && Sum(ws) == c;
  }
}
