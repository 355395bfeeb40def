/** The priority-queue search shared by `dijkstra` and `a_star`: the heap
    items, the pushes made when a node is settled, and the invariant both
    loops keep, with the lemmas that carry it from one iteration to the next.

    The heap is a sequence; a pop takes the first item of least key (the
    model does not fix heapq's tie-breaking). `visited` is the settled set,
    `D` the cost each settled node was settled at (ghost), `W` the hop
    weights of each item's path (ghost). With `exact` (every key equals its
    cost, as in Dijkstra or A* under a zero heuristic) the invariant also
    carries Dijkstra's optimality argument. */
module Frontier {
  import opened Roads

  /** A heap item `(key, cost, node, path)`: `path` lists the predecessors of `node`. */
  datatype Item = Item(key: int, cost: nat, node: Node, path: seq<Node>)

  /** Index of the first item of least key. */
  function MinIndex(q: seq<Item>): (i: nat)
    requires q != []
    ensures i < |q| && forall j :: 0 <= j < |q| ==> q[i].key <= q[j].key
    ensures forall j :: 0 <= j < i ==> q[i].key < q[j].key
  {
    if |q| == 1 then 0
    else
      var k := MinIndex(q[1..]);
      if q[0].key <= q[k + 1].key then 0 else k + 1
  }

  function Remove<T>(s: seq<T>, i: nat): (r: seq<T>)
    requires i < |s|
    ensures |r| == |s| - 1
    ensures forall j :: 0 <= j < i ==> r[j] == s[j]
    ensures forall j :: i <= j < |r| ==> r[j] == s[j + 1]
  {
    s[..i] + s[i + 1..]
  }

  function Neighbors(adj: Adj, n: Node): seq<Entry>
  {
    if n in adj then adj[n] else []
  }

  /** Every node a search can ever push: the start and every neighbor entry. */
  ghost function Universe(adj: Adj, start: Node): set<Node>
  {
    {start} + set k, e | k in adj && e in adj[k] :: e.to
  }

  /** The items pushed after settling a node whose walk is `path` at `cost`:
      one per neighbor entry that is not yet settled, in list order. */
  function Pushes(nbrs: seq<Entry>, cost: nat, path: seq<Node>, visited: set<Node>,
                  h: (Node, Node) -> int, end: Node): seq<Item>
  {
    if nbrs == [] then []
    else
      var e := nbrs[|nbrs| - 1];
      Pushes(nbrs[..|nbrs| - 1], cost, path, visited, h, end) +
      (if e.to in visited then [] else [Item(cost + e.weight + h(e.to, end), cost + e.weight, e.to, path)])
  }

  /** The hop weights of the walks of `Pushes`, given the hop weights `ws` of `path`. */
  ghost function PushWs(nbrs: seq<Entry>, ws: seq<nat>, visited: set<Node>): seq<seq<nat>>
  {
    if nbrs == [] then []
    else
      var e := nbrs[|nbrs| - 1];
      PushWs(nbrs[..|nbrs| - 1], ws, visited) + (if e.to in visited then [] else [ws + [e.weight]])
  }

  lemma {:induction false} PushesLength(nbrs: seq<Entry>, cost: nat, path: seq<Node>, visited: set<Node>,
                                        h: (Node, Node) -> int, end: Node, ws: seq<nat>)
    ensures |Pushes(nbrs, cost, path, visited, h, end)| == |PushWs(nbrs, ws, visited)|
  {
    if nbrs != [] {
      PushesLength(nbrs[..|nbrs| - 1], cost, path, visited, h, end, ws);
    }
  }

  /** Each pushed item comes from an unsettled neighbor entry. */
  lemma {:induction false} PushAt(nbrs: seq<Entry>, cost: nat, path: seq<Node>, visited: set<Node>,
                                  h: (Node, Node) -> int, end: Node, ws: seq<nat>, j: nat) returns (e: Entry)
    requires j < |Pushes(nbrs, cost, path, visited, h, end)|
    ensures e in nbrs && e.to !in visited
    ensures Pushes(nbrs, cost, path, visited, h, end)[j] == Item(cost + e.weight + h(e.to, end), cost + e.weight, e.to, path)
    ensures j < |PushWs(nbrs, ws, visited)| && PushWs(nbrs, ws, visited)[j] == ws + [e.weight]
  {
    var init := nbrs[..|nbrs| - 1];
    PushesLength(init, cost, path, visited, h, end, ws);
    PushesLength(nbrs, cost, path, visited, h, end, ws);
    var P0 := Pushes(init, cost, path, visited, h, end);
    if j < |P0| {
      e := PushAt(init, cost, path, visited, h, end, ws, j);
      assert e in nbrs by { assert nbrs == init + [nbrs[|nbrs| - 1]]; }
    } else {
      e := nbrs[|nbrs| - 1];
    }
  }

  /** Each unsettled neighbor entry is pushed, at the cost of going through it. */
  lemma {:induction false} PushOf(nbrs: seq<Entry>, cost: nat, path: seq<Node>, visited: set<Node>,
                                  h: (Node, Node) -> int, end: Node, e: Entry) returns (j: nat)
    requires e in nbrs && e.to !in visited
    ensures j < |Pushes(nbrs, cost, path, visited, h, end)|
    ensures Pushes(nbrs, cost, path, visited, h, end)[j].node == e.to
    ensures Pushes(nbrs, cost, path, visited, h, end)[j].cost == cost + e.weight
  {
    var init := nbrs[..|nbrs| - 1];
    assert nbrs == init + [nbrs[|nbrs| - 1]];
    if e in init {
      j := PushOf(init, cost, path, visited, h, end, e);
    } else {
      j := |Pushes(init, cost, path, visited, h, end)|;
    }
  }

  /** An item is the end of a walk from `start` whose weights are `ws`;
      its path is simple and already settled. */
  ghost predicate ItemOk(adj: Adj, start: Node, it: Item, ws: seq<nat>, visited: set<Node>)
  {
    && IsWalkFromTo(adj, start, it.node, it.path + [it.node], ws)
    && it.cost == Sum(ws)
    && Distinct(it.path)
    && (forall x :: x in it.path ==> x in visited)
    && it.node in Universe(adj, start)
  }

  /** `W` holds, item by item, the hop weights that make each item `ItemOk`. */
  ghost predicate ItemsOk(adj: Adj, start: Node, q: seq<Item>, W: seq<seq<nat>>, visited: set<Node>)
  {
    |W| == |q| && forall j :: 0 <= j < |q| ==> ItemOk(adj, start, q[j], W[j], visited)
  }

  /** Every entry leaving a settled node toward an unsettled one has an item
      in the heap (no dearer than going through that entry, when `exact`). */
  ghost predicate Covered(adj: Adj, q: seq<Item>, visited: set<Node>, D: map<Node, nat>, exact: bool)
  {
    forall v, e :: v in D && v in adj && e in adj[v] && e.to !in visited ==>
      exists j :: 0 <= j < |q| && q[j].node == e.to && (exact ==> q[j].cost <= D[v] + e.weight)
  }

  /** Every key is the item's cost, as when the heuristic is 0. */
  ghost predicate KeysExact(q: seq<Item>)
  {
    forall j :: 0 <= j < |q| ==> q[j].key == q[j].cost
  }

  /** Dijkstra's ordering facts: keys are costs, no item is cheaper than a
      settled cost, and each settled cost is a lower bound on every walk. */
  ghost predicate Settled(adj: Adj, start: Node, q: seq<Item>, D: map<Node, nat>)
  {
    && KeysExact(q)
    && (forall v, j :: v in D && 0 <= j < |q| ==> D[v] <= q[j].cost)
    && (forall v, p, ws :: v in D && IsWalkFromTo(adj, start, v, p, ws) ==> D[v] <= Sum(ws))
  }

  ghost predicate Inv(adj: Adj, start: Node, end: Node, q: seq<Item>, W: seq<seq<nat>>,
                      visited: set<Node>, D: map<Node, nat>, exact: bool)
  {
    && ItemsOk(adj, start, q, W, visited)
    && visited <= Universe(adj, start)
    && end !in visited
    && D.Keys == visited
    && (start in visited || (visited == {} && |q| == 1 && q[0].node == start && q[0].cost == 0 && q[0].path == []))
    && Covered(adj, q, visited, D, exact)
    && (exact ==> Settled(adj, start, q, D))
  }

  lemma Initial(adj: Adj, start: Node, end: Node, key: int, exact: bool)
    requires exact ==> key == 0
    ensures Inv(adj, start, end, [Item(key, 0, start, [])], [[]], {}, map[], exact)
  {
    assert [] + [start] == [start];
  }

  lemma SkipItems(adj: Adj, start: Node, q: seq<Item>, W: seq<seq<nat>>, visited: set<Node>, i: nat)
    requires ItemsOk(adj, start, q, W, visited) && i < |q|
    ensures ItemsOk(adj, start, Remove(q, i), Remove(W, i), visited)
  {
    var q', W' := Remove(q, i), Remove(W, i);
    forall j | 0 <= j < |q'| ensures ItemOk(adj, start, q'[j], W'[j], visited) {
      var j0 := if j < i then j else j + 1;
      assert q'[j] == q[j0] && W'[j] == W[j0];
    }
  }

  lemma SkipCovered(adj: Adj, q: seq<Item>, visited: set<Node>, D: map<Node, nat>, exact: bool, i: nat)
    requires Covered(adj, q, visited, D, exact) && i < |q| && q[i].node in visited
    ensures Covered(adj, Remove(q, i), visited, D, exact)
  {
    var q' := Remove(q, i);
    forall v, e | v in D && v in adj && e in adj[v] && e.to !in visited
      ensures exists j :: 0 <= j < |q'| && q'[j].node == e.to && (exact ==> q'[j].cost <= D[v] + e.weight)
    {
      var j0 :| 0 <= j0 < |q| && q[j0].node == e.to && (exact ==> q[j0].cost <= D[v] + e.weight);
      var j := if j0 < i then j0 else j0 - 1;
      assert q'[j] == q[j0];
    }
  }

  lemma SkipSettled(adj: Adj, start: Node, q: seq<Item>, D: map<Node, nat>, i: nat)
    requires Settled(adj, start, q, D) && i < |q|
    ensures Settled(adj, start, Remove(q, i), D)
  {
    var q' := Remove(q, i);
    forall j | 0 <= j < |q'| ensures q'[j].key == q'[j].cost && forall v :: v in D ==> D[v] <= q'[j].cost {
      var j0 := if j < i then j else j + 1;
      assert q'[j] == q[j0];
    }
  }

  /** Popping an already settled node keeps the invariant. */
  lemma Skip(adj: Adj, start: Node, end: Node, q: seq<Item>, W: seq<seq<nat>>,
             visited: set<Node>, D: map<Node, nat>, exact: bool, i: nat)
    requires Inv(adj, start, end, q, W, visited, D, exact)
    requires i < |q| && q[i].node in visited
    ensures Inv(adj, start, end, Remove(q, i), Remove(W, i), visited, D, exact)
  {
    SkipItems(adj, start, q, W, visited, i);
    SkipCovered(adj, q, visited, D, exact, i);
    if exact {
      SkipSettled(adj, start, q, D, i);
    }
  }

  /** With exact keys, the least item's cost is no more than any walk from
      `start` to a node that is not settled yet. */
  lemma MinBound(adj: Adj, start: Node, end: Node, q: seq<Item>, W: seq<seq<nat>>,
                 visited: set<Node>, D: map<Node, nat>, i: nat, p: seq<Node>, ws: seq<nat>)
    requires Inv(adj, start, end, q, W, visited, D, true)
    requires i < |q| && forall j :: 0 <= j < |q| ==> q[i].key <= q[j].key
    requires IsWalk(adj, p, ws) && p[0] == start && p[|p| - 1] !in visited
    ensures q[i].cost <= Sum(ws)
  {
    if start in visited {
      var k := FirstExit(adj, p, ws, visited);
      WalkPrefix(adj, p, ws, k);
      assert IsWalkFromTo(adj, start, p[k], p[..k + 1], ws[..k]);
      assert D[p[k]] <= Sum(ws[..k]);
      assert Entry(p[k + 1], ws[k]) in adj[p[k]];
      var j :| 0 <= j < |q| && q[j].node == Entry(p[k + 1], ws[k]).to && q[j].cost <= D[p[k]] + ws[k];
      SumPrefix(ws, k);
    }
  }

  /** The state of a search just before it settles `q[i].node`, which is not `end`. */
  ghost predicate ExpandPre(adj: Adj, start: Node, end: Node, q: seq<Item>, W: seq<seq<nat>>,
                            visited: set<Node>, D: map<Node, nat>, exact: bool,
                            h: (Node, Node) -> int, i: nat)
  {
    && Inv(adj, start, end, q, W, visited, D, exact)
    && (exact ==> forall x :: h(x, end) == 0)
    && i < |q| && (forall j :: 0 <= j < |q| ==> q[i].key <= q[j].key)
    && q[i].node !in visited && q[i].node != end
  }

  /** The heap after popping item `i` and pushing the unsettled neighbors of its node. */
  function AfterQ(adj: Adj, q: seq<Item>, i: nat, visited: set<Node>, h: (Node, Node) -> int, end: Node): seq<Item>
    requires i < |q|
  {
    Remove(q, i) + Pushes(Neighbors(adj, q[i].node), q[i].cost, q[i].path + [q[i].node], visited + {q[i].node}, h, end)
  }

  ghost function AfterW(adj: Adj, q: seq<Item>, W: seq<seq<nat>>, i: nat, visited: set<Node>): seq<seq<nat>>
    requires i < |q| && |W| == |q|
  {
    Remove(W, i) + PushWs(Neighbors(adj, q[i].node), W[i], visited + {q[i].node})
  }

  lemma ExpandItems(adj: Adj, start: Node, end: Node, q: seq<Item>, W: seq<seq<nat>>,
                    visited: set<Node>, h: (Node, Node) -> int, i: nat)
    requires ItemsOk(adj, start, q, W, visited) && i < |q| && q[i].node !in visited
    ensures ItemsOk(adj, start, AfterQ(adj, q, i, visited, h, end), AfterW(adj, q, W, i, visited), visited + {q[i].node})
  {
    var n, c, path := q[i].node, q[i].cost, q[i].path + [q[i].node];
    var visited' := visited + {n};
    var nbrs := Neighbors(adj, n);
    var q0, W0 := Remove(q, i), Remove(W, i);
    var q', W' := AfterQ(adj, q, i, visited, h, end), AfterW(adj, q, W, i, visited);
    PushesLength(nbrs, c, path, visited', h, end, W[i]);
    assert ItemOk(adj, start, q[i], W[i], visited);
    forall j | 0 <= j < |q'|
      ensures ItemOk(adj, start, q'[j], W'[j], visited')
    {
      if j < |q0| {
        var j0 := if j < i then j else j + 1;
        assert q'[j] == q[j0] && W'[j] == W[j0];
        assert ItemOk(adj, start, q[j0], W[j0], visited);
      } else {
        var e := PushAt(nbrs, c, path, visited', h, end, W[i], j - |q0|);
        assert q'[j] == Item(c + e.weight + h(e.to, end), c + e.weight, e.to, path);
        assert W'[j] == W[i] + [e.weight];
        assert n in adj && e in adj[n];
        WalkExtend(adj, path, W[i], e);
        SumAppend(W[i], [e.weight]);
        assert path + [e.to] == q'[j].path + [q'[j].node];
      }
    }
  }

  /** Under a heuristic that is 0 toward `end`, every key stays the item's
      cost and nothing pushed is cheaper than the item just popped. */
  lemma ExpandKeys(adj: Adj, end: Node, q: seq<Item>, visited: set<Node>, h: (Node, Node) -> int, i: nat)
    requires i < |q| && (forall j :: 0 <= j < |q| ==> q[i].key <= q[j].key)
    requires KeysExact(q) && forall x :: h(x, end) == 0
    ensures KeysExact(AfterQ(adj, q, i, visited, h, end))
    ensures forall j :: 0 <= j < |AfterQ(adj, q, i, visited, h, end)| ==> q[i].cost <= AfterQ(adj, q, i, visited, h, end)[j].cost
  {
    var n, c, path := q[i].node, q[i].cost, q[i].path + [q[i].node];
    var visited' := visited + {n};
    var nbrs := Neighbors(adj, n);
    var q0 := Remove(q, i);
    var q' := AfterQ(adj, q, i, visited, h, end);
    forall j | 0 <= j < |q'| ensures q'[j].key == q'[j].cost && c <= q'[j].cost {
      if j < |q0| {
        var j0 := if j < i then j else j + 1;
        assert q'[j] == q[j0];
      } else {
        var e := PushAt(nbrs, c, path, visited', h, end, [], j - |q0|);
        assert q'[j] == Pushes(nbrs, c, path, visited', h, end)[j - |q0|];
      }
    }
  }

  lemma ExpandCovered(adj: Adj, end: Node, q: seq<Item>,
                      visited: set<Node>, D: map<Node, nat>, exact: bool,
                      h: (Node, Node) -> int, i: nat)
    requires i < |q| && Covered(adj, q, visited, D, exact)
    ensures Covered(adj, AfterQ(adj, q, i, visited, h, end), visited + {q[i].node}, D[q[i].node := q[i].cost], exact)
  {
    var n, c, path := q[i].node, q[i].cost, q[i].path + [q[i].node];
    var visited', D' := visited + {n}, D[n := c];
    var nbrs := Neighbors(adj, n);
    var q0 := Remove(q, i);
    var q' := AfterQ(adj, q, i, visited, h, end);
    forall v, e | v in D' && v in adj && e in adj[v] && e.to !in visited'
      ensures exists j :: 0 <= j < |q'| && q'[j].node == e.to && (exact ==> q'[j].cost <= D'[v] + e.weight)
    {
      if v == n {
        var j := PushOf(nbrs, c, path, visited', h, end, e);
        assert q'[|q0| + j] == Pushes(nbrs, c, path, visited', h, end)[j];
      } else {
        var j0 :| 0 <= j0 < |q| && q[j0].node == e.to && (exact ==> q[j0].cost <= D[v] + e.weight);
        var j := if j0 < i then j0 else j0 - 1;
        assert q'[j] == q[j0];
      }
    }
  }

  lemma ExpandSettled(adj: Adj, start: Node, end: Node, q: seq<Item>, W: seq<seq<nat>>,
                      visited: set<Node>, D: map<Node, nat>,
                      h: (Node, Node) -> int, i: nat)
    requires ExpandPre(adj, start, end, q, W, visited, D, true, h, i)
    ensures Settled(adj, start, AfterQ(adj, q, i, visited, h, end), D[q[i].node := q[i].cost])
  {
    var n, c := q[i].node, q[i].cost;
    var D' := D[n := c];
    var q' := AfterQ(adj, q, i, visited, h, end);
    ExpandKeys(adj, end, q, visited, h, i);
    forall v, j | v in D' && 0 <= j < |q'| ensures D'[v] <= q'[j].cost {
      if v != n {
        assert D[v] <= c;
      }
    }
    forall v, p, ws | v in D' && IsWalkFromTo(adj, start, v, p, ws)
      ensures D'[v] <= Sum(ws)
    {
      if v == n {
        MinBound(adj, start, end, q, W, visited, D, i, p, ws);
      }
    }
  }

  /** Popping the least item of an unsettled node `n != end` and pushing its
      unsettled neighbors keeps the invariant with `n` settled. */
  lemma Expand(adj: Adj, start: Node, end: Node, q: seq<Item>, W: seq<seq<nat>>,
               visited: set<Node>, D: map<Node, nat>, exact: bool,
               h: (Node, Node) -> int, i: nat)
    requires ExpandPre(adj, start, end, q, W, visited, D, exact, h, i)
    ensures Inv(adj, start, end, AfterQ(adj, q, i, visited, h, end), AfterW(adj, q, W, i, visited),
                visited + {q[i].node}, D[q[i].node := q[i].cost], exact)
  {
    ExpandItems(adj, start, end, q, W, visited, h, i);
    ExpandCovered(adj, end, q, visited, D, exact, h, i);
    if exact {
      ExpandSettled(adj, start, end, q, W, visited, D, h, i);
    }
    if start !in visited {
      assert i == 0 && q[i].node == start;
    }
  }

  /** Popping the least item of `end` (unsettled) yields a simple route whose
      cost is that item's, and with exact keys the cheapest one. */
  lemma Found(adj: Adj, start: Node, end: Node, q: seq<Item>, W: seq<seq<nat>>,
              visited: set<Node>, D: map<Node, nat>, exact: bool, i: nat)
    requires Inv(adj, start, end, q, W, visited, D, exact)
    requires i < |q| && forall j :: 0 <= j < |q| ==> q[i].key <= q[j].key
    requires q[i].node == end
    ensures IsRoute(adj, start, end, q[i].path + [end], q[i].cost)
    ensures Reachable(adj, start, end)
    ensures exact ==> IsShortest(adj, start, end, q[i].cost)
  {
    assert ItemOk(adj, start, q[i], W[i], visited);
    var path := q[i].path + [end];
    assert IsWalkFromTo(adj, start, end, path, W[i]);
    if exact {
      forall p, ws | IsWalkFromTo(adj, start, end, p, ws) ensures q[i].cost <= Sum(ws) {
        MinBound(adj, start, end, q, W, visited, D, i, p, ws);
      }
    }
  }

  /** An empty heap means `end` cannot be reached. */
  lemma Exhausted(adj: Adj, start: Node, end: Node, W: seq<seq<nat>>,
                  visited: set<Node>, D: map<Node, nat>, exact: bool)
    requires Inv(adj, start, end, [], W, visited, D, exact)
    ensures !Reachable(adj, start, end)
  {
    if Reachable(adj, start, end) {
      var p, ws :| IsWalkFromTo(adj, start, end, p, ws);
      var k := FirstExit(adj, p, ws, visited);
      assert false;
    }
  }

  /** Settling a node of the universe shrinks the set still to be settled. */
  lemma Shrinks(U: set<Node>, visited: set<Node>, n: Node)
    requires n in U && n !in visited
    ensures |U - (visited + {n})| < |U - visited|
  {
    assert U - (visited + {n}) == (U - visited) - {n};
  }
}
