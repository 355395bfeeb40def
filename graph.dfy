/** The `Graph` class of src/graph.py: a node set, the adjacency dictionary
    (its keys in insertion order, as Python dicts iterate), and a partial
    positions dictionary (also in insertion order), together with its two
    searches and the nearest-node scan.

    `GraphState` is the value of a graph's five fields; `WithNode` and
    `WithEdge` are what `add_node` and `add_edge` do to that value, and the
    lemmas below state their properties. */
module Graphs {
  import opened Roads
  import opened Frontier

  datatype GraphState = GraphState(
    nodes: set<Node>,
    keys: seq<Node>,              // the keys of `edges`, in insertion order
    adj: Adj,                     // `edges`
    posKeys: seq<Node>,           // the keys of `positions`, in insertion order
    positions: map<Node, Pos>)

  /** The shape every graph keeps: each dictionary's key order lists its keys
      once; every node and every neighbor of an entry is a key of `edges`. */
  ghost predicate WellFormed(g: GraphState)
  {
    && Distinct(g.keys) && (forall k :: k in g.adj <==> k in g.keys)
    && Distinct(g.posKeys) && (forall k :: k in g.positions <==> k in g.posKeys)
    && g.nodes <= g.adj.Keys
    && (forall k, e :: k in g.adj && e in g.adj[k] ==> e.to in g.adj)
  }

  function EmptyGraph(): GraphState
  {
    GraphState({}, [], map[], [], map[])
  }

  /** `add_node(node, position)`. */
  function WithNode(g: GraphState, node: Node, position: Option<Pos>): GraphState
  {
    var keys := if node in g.adj then g.keys else g.keys + [node];
    var adj := if node in g.adj then g.adj else g.adj[node := []];
    var posKeys := if position.Some? && node !in g.positions then g.posKeys + [node] else g.posKeys;
    var positions := if position.Some? then g.positions[node := position.value] else g.positions;
    GraphState(g.nodes + {node}, keys, adj, posKeys, positions)
  }

  /** `add_edge(from, to, weight)`: two `setdefault` calls and one append. */
  function WithEdge(g: GraphState, from: Node, to: Node, weight: nat): GraphState
  {
    var keys1 := if from in g.adj then g.keys else g.keys + [from];
    var adj1 := g.adj[from := (if from in g.adj then g.adj[from] else []) + [Entry(to, weight)]];
    var keys2 := if to in adj1 then keys1 else keys1 + [to];
    var adj2 := if to in adj1 then adj1 else adj1[to := []];
    GraphState(g.nodes, keys2, adj2, g.posKeys, g.positions)
  }

  /** Total number of adjacency entries, summed over the keys in order. */
  function EntryCount(keys: seq<Node>, adj: Adj): nat
  {
    if keys == [] then 0
    else
      var k := keys[|keys| - 1];
      EntryCount(keys[..|keys| - 1], adj) + (if k in adj then |adj[k]| else 0)
  }

  function TotalEntries(g: GraphState): nat
  {
    EntryCount(g.keys, g.adj)
  }

  /** `add_node` adds the node, keeps an existing adjacency list, creates an
      empty one otherwise, and touches `positions` only when given one. */
  lemma WithNodeEffect(g: GraphState, node: Node, position: Option<Pos>)
    ensures WithNode(g, node, position).nodes == g.nodes + {node}
    ensures node in g.adj ==> WithNode(g, node, position).adj == g.adj
    ensures node !in g.adj ==> WithNode(g, node, position).adj == g.adj[node := []]
    ensures position.None? ==> WithNode(g, node, position).positions == g.positions
    ensures position.Some? ==> WithNode(g, node, position).positions == g.positions[node := position.value]
  {
  }

  /** Adding the same node twice is adding it once. */
  lemma WithNodeIdempotent(g: GraphState, node: Node, position: Option<Pos>)
    ensures WithNode(WithNode(g, node, position), node, position) == WithNode(g, node, position)
  {
  }

  lemma WithNodeWellFormed(g: GraphState, node: Node, position: Option<Pos>)
    requires WellFormed(g)
    ensures WellFormed(WithNode(g, node, position))
  {
    var g' := WithNode(g, node, position);
    if node !in g.adj {
      DistinctSnoc(g.keys, node);
    }
    if position.Some? && node !in g.positions {
      DistinctSnoc(g.posKeys, node);
    }
    assert forall k :: k in g'.adj <==> k in g'.keys;
    assert forall k :: k in g'.positions <==> k in g'.posKeys;
    forall k, e | k in g'.adj && e in g'.adj[k] ensures e.to in g'.adj {
      assert k in g.adj && e in g.adj[k];
    }
  }

  lemma DistinctSnoc(s: seq<Node>, n: Node)
    requires Distinct(s) && n !in s
    ensures Distinct(s + [n])
  {
  }

  /** `add_edge` makes `(to, weight)` the last entry of `from`'s list, makes
      `to` a key, and changes no other list, no node and no position. */
  lemma WithEdgeEffect(g: GraphState, from: Node, to: Node, weight: nat)
    ensures var g' := WithEdge(g, from, to, weight);
      && from in g'.adj && to in g'.adj
      && g'.adj[from] == (if from in g.adj then g.adj[from] else []) + [Entry(to, weight)]
      && (forall k :: k in g.adj && k != from ==> k in g'.adj && g'.adj[k] == g.adj[k])
      && (to !in g.adj && to != from ==> g'.adj[to] == [])
      && g'.nodes == g.nodes && g'.positions == g.positions && g'.posKeys == g.posKeys
  {
  }

  lemma WithEdgeWellFormed(g: GraphState, from: Node, to: Node, weight: nat)
    requires WellFormed(g)
    ensures WellFormed(WithEdge(g, from, to, weight))
  {
    var g' := WithEdge(g, from, to, weight);
    forall k, e | k in g'.adj && e in g'.adj[k] ensures e.to in g'.adj {
      if k == from && e == Entry(to, weight) {
      } else if k == from && from in g.adj {
        assert e in g.adj[from] || e == Entry(to, weight);
      }
    }
  }

  lemma {:induction false} EntryCountAppend(keys: seq<Node>, adj: Adj, k: Node)
    ensures EntryCount(keys + [k], adj) == EntryCount(keys, adj) + (if k in adj then |adj[k]| else 0)
  {
    assert (keys + [k])[..|keys|] == keys;
  }

  lemma {:induction false} EntryCountOther(keys: seq<Node>, adj: Adj, k: Node, l: seq<Entry>)
    requires k !in keys
    ensures EntryCount(keys, adj[k := l]) == EntryCount(keys, adj)
  {
    if keys != [] {
      EntryCountOther(keys[..|keys| - 1], adj, k, l);
    }
  }

  lemma {:induction false} EntryCountUpdate(keys: seq<Node>, adj: Adj, k: Node, l: seq<Entry>)
    requires Distinct(keys) && k in keys && k in adj
    ensures EntryCount(keys, adj[k := l]) + |adj[k]| == EntryCount(keys, adj) + |l|
  {
    var init, last := keys[..|keys| - 1], keys[|keys| - 1];
    if last == k {
      assert k !in init;
      EntryCountOther(init, adj, k, l);
    } else {
      assert k in init;
      EntryCountUpdate(init, adj, k, l);
    }
  }

  /** Every `add_edge` adds exactly one adjacency entry. */
  lemma WithEdgeCount(g: GraphState, from: Node, to: Node, weight: nat)
    requires WellFormed(g)
    ensures TotalEntries(WithEdge(g, from, to, weight)) == TotalEntries(g) + 1
  {
    var keys1 := if from in g.adj then g.keys else g.keys + [from];
    var adj1 := g.adj[from := (if from in g.adj then g.adj[from] else []) + [Entry(to, weight)]];
    if from in g.adj {
      EntryCountUpdate(g.keys, g.adj, from, adj1[from]);
    } else {
      EntryCountAppend(g.keys, adj1, from);
      EntryCountOther(g.keys, g.adj, from, adj1[from]);
    }
    assert EntryCount(keys1, adj1) == EntryCount(g.keys, g.adj) + 1;
    if to !in adj1 {
      assert to !in keys1;
      EntryCountAppend(keys1, adj1[to := []], to);
      EntryCountOther(keys1, adj1, to, []);
    }
  }

  /** Adding a node adds no adjacency entry. */
  lemma WithNodeCount(g: GraphState, node: Node, position: Option<Pos>)
    requires WellFormed(g)
    ensures TotalEntries(WithNode(g, node, position)) == TotalEntries(g)
  {
    if node !in g.adj {
      EntryCountAppend(g.keys, g.adj[node := []], node);
      EntryCountOther(g.keys, g.adj, node, []);
    }
  }

  /** A set contained in another is no larger. */
  lemma {:induction false} SubsetCard(a: set<Node>, b: set<Node>)
    requires a <= b
    ensures |a| <= |b|
    decreases |a|
  {
    if a != {} {
      var x :| x in a;
      SubsetCard(a - {x}, b - {x});
    }
  }

  /** A key order that lists each key once has as many entries as keys. */
  lemma {:induction false} DistinctCard(s: seq<Node>)
    requires Distinct(s)
    ensures |set k | k in s| == |s|
  {
    if s != [] {
      var init, last := s[..|s| - 1], s[|s| - 1];
      assert s == init + [last];
      DistinctCard(init);
      assert (set k | k in s) == (set k | k in init) + {last};
    }
  }

  /** A search settles only the start and nodes some entry leads to, so in
      a well-formed graph at most one more node than there are keys. */
  lemma UniverseBound(g: GraphState, start: Node)
    requires WellFormed(g)
    ensures |Universe(g.adj, start)| <= |g.keys| + 1
  {
    var U := Universe(g.adj, start);
    assert U <= g.adj.Keys + {start};
    SubsetCard(U, g.adj.Keys + {start});
    assert g.adj.Keys == set k | k in g.keys;
    DistinctCard(g.keys);
  }

  /** The settled set bounds the number of expansions. */
  lemma ExpansionBound(graph: Graph, start: Node, visited: set<Node>)
    requires visited <= Universe(graph.adj, start)
    ensures |visited| <= |Universe(graph.adj, start)|
    ensures graph.Valid() ==> |visited| <= |graph.keys| + 1
  {
    SubsetCard(visited, Universe(graph.adj, start));
    if graph.Valid() {
      UniverseBound(graph.State(), start);
    }
  }

  /** The default A* heuristic: the distance between the two positions, or 0
      when either node has none. `dist` stands for `math.hypot` of the
      coordinate differences. */
  function Euclidean(positions: map<Node, Pos>, dist: (Pos, Pos) -> nat, a: Node, b: Node): (r: nat)
    ensures (a !in positions || b !in positions) ==> r == 0
  {
    if a in positions && b in positions then dist(positions[a], positions[b]) else 0
  }

  /** The inner loop of both searches: push every neighbor not yet visited,
      in adjacency order, with its cost so far and its heuristic estimate. */
  method PushNeighbors(queue: seq<Item>, nbrs: seq<Entry>, cost: nat, path: seq<Node>,
                       visited: set<Node>, h: (Node, Node) -> int, end: Node) returns (q: seq<Item>)
    ensures q == queue + Pushes(nbrs, cost, path, visited, h, end)
  {
    q := queue;
    for j := 0 to |nbrs|
      invariant q == queue + Pushes(nbrs[..j], cost, path, visited, h, end)
    {
      var e := nbrs[j];
      assert nbrs[..j + 1][..j] == nbrs[..j];
      if e.to !in visited {
        q := q + [Item(cost + e.weight + h(e.to, end), cost + e.weight, e.to, path)];
      }
    }
    assert nbrs[..|nbrs|] == nbrs;
  }

  class Graph {
    var nodes: set<Node>
    var keys: seq<Node>
    var adj: Adj
    var posKeys: seq<Node>
    var positions: map<Node, Pos>

    function State(): GraphState
      reads this
    {
      GraphState(nodes, keys, adj, posKeys, positions)
    }

    ghost predicate Valid()
      reads this
    {
      WellFormed(State())
    }

    constructor ()
      ensures Valid() && State() == EmptyGraph()
    {
      nodes, keys, adj, posKeys, positions := {}, [], map[], [], map[];
    }

    method AddNode(node: Node, position: Option<Pos>)
      requires Valid()
      modifies this
      ensures Valid() && State() == WithNode(old(State()), node, position)
    {
      nodes := nodes + {node};
      if node !in adj {
        keys := keys + [node];
        adj := adj[node := []];
      }
      if position.Some? {
        if node !in positions {
          posKeys := posKeys + [node];
        }
        positions := positions[node := position.value];
      }
      WithNodeWellFormed(old(State()), node, position);
    }

    method AddEdge(from: Node, to: Node, weight: nat)
      requires Valid()
      modifies this
      ensures Valid() && State() == WithEdge(old(State()), from, to, weight)
    {
      var list := [];
      if from in adj {
        list := adj[from];
      } else {
        keys := keys + [from];
      }
      adj := adj[from := list + [Entry(to, weight)]];
      if to !in adj {
        keys := keys + [to];
        adj := adj[to := []];
      }
      WithEdgeWellFormed(old(State()), from, to, weight);
    }

    /** Uniform-cost search with a settle-once visited set. */
    method Dijkstra(start: Node, end: Node) returns (path: seq<Node>, cost: Cost, ghost expansions: nat)
      ensures path == [] <==> cost == Inf
      ensures path == [] <==> !Reachable(adj, start, end)
      ensures path != [] ==> IsRoute(adj, start, end, path, cost.value)
      ensures path != [] ==> IsShortest(adj, start, end, cost.value)
      ensures start == end ==> path == [start] && cost == Fin(0)
      ensures expansions <= |Universe(adj, start)|
      ensures Valid() ==> expansions <= |keys| + 1
    {
      var zero := (a: Node, b: Node) => 0;
      var queue := [Item(0, 0, start, [])];
      var visited: set<Node> := {};
      ghost var W: seq<seq<nat>> := [[]];
      ghost var D: map<Node, nat> := map[];
      ghost var U := Universe(adj, start);
      expansions := 0;
      Initial(adj, start, end, 0, true);
      while queue != []
        invariant Inv(adj, start, end, queue, W, visited, D, true)
        invariant expansions == |visited|
        decreases |U - visited|, |queue|
      {
        var i := MinIndex(queue);
        ghost var q0, W0, v0 := queue, W, visited;
        var item := queue[i];
        queue := queue[..i] + queue[i + 1..];
        W := Remove(W, i);
        if item.node in visited {
          Skip(adj, start, end, q0, W0, v0, D, true, i);
          continue;
        }
        visited := visited + {item.node};
        expansions := expansions + 1;
        var p := item.path + [item.node];
        if item.node == end {
          Found(adj, start, end, q0, W0, v0, D, true, i);
          if start == end {
            TrivialRoute(adj, start, p, item.cost);
          }
          ExpansionBound(this, start, visited);
          return p, Fin(item.cost), expansions;
        }
        var nbrs := Neighbors(adj, item.node);
        queue := PushNeighbors(queue, nbrs, item.cost, p, visited, zero, end);
        W := W + PushWs(nbrs, W0[i], visited);
        Expand(adj, start, end, q0, W0, v0, D, true, zero, i);
        D := D[item.node := item.cost];
        Shrinks(U, v0, item.node);
      }
      Exhausted(adj, start, end, W, visited, D, true);
      if start == end {
        assert false;
      }
      ExpansionBound(this, start, visited);
      return [], Inf, expansions;
    }

    /** Heuristic-guided search; `heuristic` defaults to `Euclidean` over
        this graph's positions. The route is valid for every heuristic, and
        the cheapest one when the heuristic is 0 toward `end`. */
    method AStar(start: Node, end: Node, heuristic: Option<(Node, Node) -> int>, dist: (Pos, Pos) -> nat)
      returns (path: seq<Node>, cost: Cost, ghost expansions: nat)
      ensures path == [] <==> cost == Inf
      ensures path == [] <==> !Reachable(adj, start, end)
      ensures path != [] ==> IsRoute(adj, start, end, path, cost.value)
      ensures start == end ==> path == [start] && cost == Fin(0)
      ensures heuristic.Some? && (forall x :: heuristic.value(x, end) == 0) && path != [] ==>
                IsShortest(adj, start, end, cost.value)
      ensures heuristic.None? && end !in positions && path != [] ==> IsShortest(adj, start, end, cost.value)
      ensures expansions <= |Universe(adj, start)|
      ensures Valid() ==> expansions <= |keys| + 1
    {
      var h: (Node, Node) -> int;
      if heuristic.Some? {
        h := heuristic.value;
      } else {
        var pos := positions;
        h := (a: Node, b: Node) => Euclidean(pos, dist, a, b);
      }
      path, cost, expansions := Search(start, end, h, forall x :: h(x, end) == 0);
    }

    /** The search loop of `AStar`, for the heuristic it settled on; `exact`
        records whether that heuristic is 0 toward `end`. */
    method Search(start: Node, end: Node, h: (Node, Node) -> int, ghost exact: bool)
      returns (path: seq<Node>, cost: Cost, ghost expansions: nat)
      requires exact ==> forall x :: h(x, end) == 0
      ensures path == [] <==> cost == Inf
      ensures path == [] <==> !Reachable(adj, start, end)
      ensures path != [] ==> IsRoute(adj, start, end, path, cost.value)
      ensures start == end ==> path == [start] && cost == Fin(0)
      ensures exact && path != [] ==> IsShortest(adj, start, end, cost.value)
      ensures expansions <= |Universe(adj, start)|
      ensures Valid() ==> expansions <= |keys| + 1
    {
      var queue := [Item(0 + h(start, end), 0, start, [])];
      var visited: set<Node> := {};
      ghost var W: seq<seq<nat>> := [[]];
      ghost var D: map<Node, nat> := map[];
      ghost var U := Universe(adj, start);
      expansions := 0;
      Initial(adj, start, end, h(start, end), exact);
      while queue != []
        invariant Inv(adj, start, end, queue, W, visited, D, exact)
        invariant expansions == |visited|
        decreases |U - visited|, |queue|
      {
        var i := MinIndex(queue);
        ghost var q0, W0, v0 := queue, W, visited;
        var item := queue[i];
        queue := queue[..i] + queue[i + 1..];
        W := Remove(W, i);
        if item.node in visited {
          Skip(adj, start, end, q0, W0, v0, D, exact, i);
          continue;
        }
        visited := visited + {item.node};
        expansions := expansions + 1;
        var p := item.path + [item.node];
        if item.node == end {
          Found(adj, start, end, q0, W0, v0, D, exact, i);
          if start == end {
            TrivialRoute(adj, start, p, item.cost);
          }
          ExpansionBound(this, start, visited);
          return p, Fin(item.cost), expansions;
        }
        var nbrs := Neighbors(adj, item.node);
        queue := PushNeighbors(queue, nbrs, item.cost, p, visited, h, end);
        W := W + PushWs(nbrs, W0[i], visited);
        Expand(adj, start, end, q0, W0, v0, D, exact, h, i);
        D := D[item.node := item.cost];
        Shrinks(U, v0, item.node);
      }
      Exhausted(adj, start, end, W, visited, D, exact);
      if start == end {
        assert false;
      }
      ExpansionBound(this, start, visited);
      return [], Inf, expansions;
    }

    /** Under the constant-zero heuristic A* reports the cost Dijkstra reports. */
    method ZeroHeuristicAgrees(start: Node, end: Node) returns (d: Cost, a: Cost)
      ensures d == a
    {
      var dPath, aPath;
      ghost var n;
      dPath, d, n := Dijkstra(start, end);
      aPath, a, n := AStar(start, end, Some((x: Node, y: Node) => 0), (p: Pos, q: Pos) => 0);
      if dPath != [] {
        ShortestCostUnique(adj, start, end, dPath, d.value, aPath, a.value);
      }
    }

    /** The first node, in `positions` order, whose distance to the query
        point is least; `dist(pos)` stands for `math.hypot(pos - query)`. */
    method NearestNode(dist: Pos -> nat) returns (nearest: Option<Node>)
      requires Valid()
      ensures nearest.None? <==> positions == map[]
      ensures nearest.Some? ==> nearest.value in positions
      ensures nearest.Some? ==> forall m :: m in positions ==> dist(positions[nearest.value]) <= dist(positions[m])
      ensures nearest.Some? ==>
                exists k :: 0 <= k < |posKeys| && posKeys[k] == nearest.value &&
                  forall j :: 0 <= j < k ==> dist(positions[nearest.value]) < dist(positions[posKeys[j]])
    {
      if posKeys != [] {
        assert posKeys[0] in positions;
      }
      if positions != map[] {
        var m :| m in positions;
        assert m in posKeys;
      }
      var minDist := Inf;
      nearest := None;
      ghost var at := 0;
      for i := 0 to |posKeys|
        invariant nearest.None? <==> i == 0
        invariant nearest.None? <==> minDist == Inf
        invariant nearest.Some? ==> at < i && posKeys[at] == nearest.value && minDist == Fin(dist(positions[nearest.value]))
        invariant nearest.Some? ==> forall j :: 0 <= j < i ==> minDist.value <= dist(positions[posKeys[j]])
        invariant nearest.Some? ==> forall j :: 0 <= j < at ==> minDist.value < dist(positions[posKeys[j]])
      {
        var node := posKeys[i];
        var d := dist(positions[node]);
        if minDist.Inf? || d < minDist.value {
          minDist := Fin(d);
          nearest := Some(node);
          at := i;
        }
      }
      forall m | m in positions && nearest.Some?
        ensures dist(positions[nearest.value]) <= dist(positions[m])
      {
        assert m in posKeys;
      }
    }
  }
}
