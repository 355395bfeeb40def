/** The graph builder of src/traffic_api.py and its built-in fallback
    dataset. `Built(data)` is the graph value that folding the segments of
    `data` into an empty graph yields; the lemmas below describe that value
    directly in terms of `data`: which nodes and keys it has, in which
    order, which entries each adjacency list holds, how many entries there
    are, and where each node is placed. */
module TrafficApi {
  import opened Roads
  import opened Graphs

  /** One iteration of the builder loop: both endpoints with their
      positions, then the edge. */
  function Ingest(g: GraphState, s: Segment): GraphState
  {
    WithEdge(WithNode(WithNode(g, s.from, Some(s.fromPos)), s.to, Some(s.toPos)), s.from, s.to, s.weight)
  }

  function Built(data: seq<Segment>): GraphState
  {
    if data == [] then EmptyGraph()
    else Ingest(Built(data[..|data| - 1]), data[|data| - 1])
  }

  /** `n` is the `from` or the `to` of some segment. */
  ghost predicate Mentioned(data: seq<Segment>, n: Node)
  {
    exists j :: 0 <= j < |data| && (data[j].from == n || data[j].to == n)
  }

  function AddOnce(keys: seq<Node>, n: Node): seq<Node>
  {
    if n in keys then keys else keys + [n]
  }

  /** `seen` followed by the endpoints of `data` not in it, in order of
      first mention (`from` before `to`). */
  function MentionsAfter(seen: seq<Node>, data: seq<Segment>): seq<Node>
    decreases |data|
  {
    if data == [] then seen
    else MentionsAfter(AddOnce(AddOnce(seen, data[0].from), data[0].to), data[1..])
  }

  /** The endpoints of `data` in order of first mention. */
  function FirstMentions(data: seq<Segment>): seq<Node>
  {
    MentionsAfter([], data)
  }

  /** The `(to, weight)` entries of the segments leaving `k`, in input order. */
  function EntriesFrom(data: seq<Segment>, k: Node): seq<Entry>
  {
    if data == [] then []
    else (if data[0].from == k then [Entry(data[0].to, data[0].weight)] else []) + EntriesFrom(data[1..], k)
  }

  lemma {:induction false} MentionsAfterSnoc(seen: seq<Node>, data: seq<Segment>, s: Segment)
    ensures MentionsAfter(seen, data + [s]) == AddOnce(AddOnce(MentionsAfter(seen, data), s.from), s.to)
    decreases |data|
  {
    if data == [] {
      assert ([s])[1..] == [];
    } else {
      assert (data + [s])[1..] == data[1..] + [s];
      MentionsAfterSnoc(AddOnce(AddOnce(seen, data[0].from), data[0].to), data[1..], s);
    }
  }

  lemma {:induction false} EntriesFromSnoc(data: seq<Segment>, s: Segment, k: Node)
    ensures EntriesFrom(data + [s], k) == EntriesFrom(data, k) + (if s.from == k then [Entry(s.to, s.weight)] else [])
  {
    if data == [] {
      assert ([s])[1..] == [];
    } else {
      assert (data + [s])[1..] == data[1..] + [s];
      EntriesFromSnoc(data[1..], s, k);
    }
  }

  /** An entry is in `EntriesFrom(data, k)` exactly when some segment leaves
      `k` with that neighbor and weight. */
  lemma {:induction false} InEntriesFrom(data: seq<Segment>, k: Node, e: Entry)
    ensures e in EntriesFrom(data, k) <==>
              exists j :: 0 <= j < |data| && data[j].from == k && Entry(data[j].to, data[j].weight) == e
  {
    if data != [] {
      InEntriesFrom(data[1..], k, e);
      if e in EntriesFrom(data[1..], k) {
        var j :| 0 <= j < |data[1..]| && data[1..][j].from == k && Entry(data[1..][j].to, data[1..][j].weight) == e;
        assert data[j + 1] == data[1..][j];
      }
      if exists j :: 0 <= j < |data| && data[j].from == k && Entry(data[j].to, data[j].weight) == e {
        var j :| 0 <= j < |data| && data[j].from == k && Entry(data[j].to, data[j].weight) == e;
        if j > 0 {
          assert data[1..][j - 1] == data[j];
        }
      }
    }
  }

  /** The position `n` was given last: within one segment `to_pos` is
      written after `from_pos`. */
  function LastPos(data: seq<Segment>, n: Node): Option<Pos>
  {
    if data == [] then None
    else
      var s := data[|data| - 1];
      if s.to == n then Some(s.toPos)
      else if s.from == n then Some(s.fromPos)
      else LastPos(data[..|data| - 1], n)
  }

  lemma MentionedSnoc(data: seq<Segment>, s: Segment, n: Node)
    ensures Mentioned(data + [s], n) <==> Mentioned(data, n) || s.from == n || s.to == n
  {
    var d := data + [s];
    if Mentioned(d, n) {
      var j :| 0 <= j < |d| && (d[j].from == n || d[j].to == n);
      if j < |data| {
        assert data[j] == d[j];
      }
    }
    if Mentioned(data, n) {
      var j :| 0 <= j < |data| && (data[j].from == n || data[j].to == n);
      assert d[j] == data[j];
    }
    if s.from == n || s.to == n {
      assert d[|data|] == s;
    }
  }

  lemma {:induction false} FirstMentionsSpec(data: seq<Segment>)
    ensures Distinct(FirstMentions(data))
    ensures forall n :: n in FirstMentions(data) <==> Mentioned(data, n)
  {
    if data != [] {
      var n := |data| - 1;
      assert data == data[..n] + [data[n]];
      FirstMentionsSpec(data[..n]);
      MentionsAfterSnoc([], data[..n], data[n]);
      forall m ensures m in FirstMentions(data) <==> Mentioned(data, m) {
        MentionedSnoc(data[..n], data[n], m);
      }
    }
  }

  lemma BuiltStep(data: seq<Segment>, t: nat)
    requires t < |data|
    ensures Built(data[..t + 1]) == Ingest(Built(data[..t]), data[t])
  {
    assert data[..t + 1][..t] == data[..t];
  }

  /** The built graph keeps the shape every graph keeps. */
  lemma {:induction false} BuiltWellFormed(data: seq<Segment>)
    ensures WellFormed(Built(data))
  {
    if data != [] {
      var g, s := Built(data[..|data| - 1]), data[|data| - 1];
      BuiltWellFormed(data[..|data| - 1]);
      var g1 := WithNode(g, s.from, Some(s.fromPos));
      WithNodeWellFormed(g, s.from, Some(s.fromPos));
      WithNodeWellFormed(g1, s.to, Some(s.toPos));
      WithEdgeWellFormed(WithNode(g1, s.to, Some(s.toPos)), s.from, s.to, s.weight);
    }
  }

  lemma BuiltAgree(data: seq<Segment>)
    ensures forall k :: k in Built(data).adj <==> k in Built(data).keys
    ensures forall k :: k in Built(data).positions <==> k in Built(data).posKeys
  {
    BuiltWellFormed(data);
  }

  /** One builder round adds each endpoint to both key orders unless it is
      already there. */
  lemma IngestKeys(g: GraphState, s: Segment)
    requires forall k :: k in g.adj <==> k in g.keys
    requires forall k :: k in g.positions <==> k in g.posKeys
    ensures Ingest(g, s).keys == AddOnce(AddOnce(g.keys, s.from), s.to)
    ensures Ingest(g, s).posKeys == AddOnce(AddOnce(g.posKeys, s.from), s.to)
  {
    var g1 := WithNode(g, s.from, Some(s.fromPos));
    assert g1.keys == AddOnce(g.keys, s.from);
    assert g1.posKeys == AddOnce(g.posKeys, s.from);
    assert s.to in g1.adj <==> s.to in g1.keys;
    assert s.to in g1.positions <==> s.to in g1.posKeys;
  }

  /** One builder round adds both endpoints as nodes and keys, appends the
      segment's entry to the list of its `from`, and leaves the other lists
      as they were (or empty, for a new `to`). */
  lemma IngestAdj(g: GraphState, s: Segment)
    ensures Ingest(g, s).nodes == g.nodes + {s.from, s.to}
    ensures Ingest(g, s).adj.Keys == g.adj.Keys + {s.from, s.to}
    ensures Ingest(g, s).adj[s.from] == (if s.from in g.adj then g.adj[s.from] else []) + [Entry(s.to, s.weight)]
    ensures forall k :: k in g.adj && k != s.from ==> Ingest(g, s).adj[k] == g.adj[k]
    ensures forall k :: k !in g.adj && k != s.from && k in Ingest(g, s).adj ==> Ingest(g, s).adj[k] == []
  {
    var g2 := WithNode(WithNode(g, s.from, Some(s.fromPos)), s.to, Some(s.toPos));
    assert s.from in g2.adj && s.to in g2.adj;
    assert g2.adj[s.from] == (if s.from in g.adj then g.adj[s.from] else []);
  }

  lemma KeysStep(g: GraphState, init: seq<Segment>, s: Segment)
    requires g.keys == FirstMentions(init) && g.posKeys == FirstMentions(init)
    requires forall k :: k in g.adj <==> k in g.keys
    requires forall k :: k in g.positions <==> k in g.posKeys
    ensures Ingest(g, s).keys == FirstMentions(init + [s]) && Ingest(g, s).posKeys == FirstMentions(init + [s])
  {
    MentionsAfterSnoc([], init, s);
    IngestKeys(g, s);
  }

  /** Both key orders of the built graph list the mentioned endpoints in
      order of first mention. */
  lemma {:induction false} BuiltKeys(data: seq<Segment>)
    ensures Built(data).keys == FirstMentions(data) && Built(data).posKeys == FirstMentions(data)
  {
    if data != [] {
      var init, s := data[..|data| - 1], data[|data| - 1];
      assert data == init + [s];
      BuiltKeys(init);
      BuiltAgree(init);
      KeysStep(Built(init), init, s);
    }
  }

  /** The nodes and the keys of the built graph are exactly the mentioned
      endpoints. */
  lemma BuiltMentioned(data: seq<Segment>)
    ensures forall n :: n in Built(data).adj <==> Mentioned(data, n)
    ensures forall n :: n in Built(data).nodes <==> Mentioned(data, n)
  {
    BuiltKeys(data);
    BuiltAgree(data);
    FirstMentionsSpec(data);
    BuiltNodes(data);
  }

  lemma {:induction false} BuiltNodes(data: seq<Segment>)
    ensures forall n :: n in Built(data).nodes <==> Mentioned(data, n)
  {
    if data != [] {
      var init, s := data[..|data| - 1], data[|data| - 1];
      assert data == init + [s];
      BuiltNodes(init);
      IngestAdj(Built(init), s);
      forall m ensures m in Built(data).nodes <==> Mentioned(data, m) {
        MentionedSnoc(init, s, m);
      }
    }
  }

  /** A node no segment leaves has no entries. */
  lemma EntriesFromNone(data: seq<Segment>, k: Node)
    requires !Mentioned(data, k)
    ensures EntriesFrom(data, k) == []
  {
    if EntriesFrom(data, k) != [] {
      InEntriesFrom(data, k, EntriesFrom(data, k)[0]);
    }
  }

  lemma EntriesStep(g: GraphState, init: seq<Segment>, s: Segment, k: Node)
    requires k in g.adj <==> Mentioned(init, k)
    requires k in g.adj ==> g.adj[k] == EntriesFrom(init, k)
    requires k in Ingest(g, s).adj
    ensures Ingest(g, s).adj[k] == EntriesFrom(init + [s], k)
  {
    EntriesFromSnoc(init, s, k);
    IngestAdj(g, s);
    if k !in g.adj {
      EntriesFromNone(init, k);
    }
  }

  /** Each adjacency list of the built graph holds the entries of the
      segments leaving its node, in input order. */
  lemma {:induction false} BuiltEntries(data: seq<Segment>)
    ensures forall k :: k in Built(data).adj ==> Built(data).adj[k] == EntriesFrom(data, k)
  {
    if data != [] {
      var init, s := data[..|data| - 1], data[|data| - 1];
      assert data == init + [s];
      BuiltEntries(init);
      BuiltMentioned(init);
      forall k | k in Built(data).adj ensures Built(data).adj[k] == EntriesFrom(data, k) {
        EntriesStep(Built(init), init, s, k);
      }
    }
  }

  /** Every segment's endpoints are nodes and keys of the built graph. */
  lemma BuiltEndpoints(data: seq<Segment>, j: nat)
    requires j < |data|
    ensures data[j].from in Built(data).nodes && data[j].to in Built(data).nodes
    ensures data[j].from in Built(data).adj && data[j].to in Built(data).adj
  {
    BuiltMentioned(data);
    assert Mentioned(data, data[j].from) && Mentioned(data, data[j].to);
  }

  /** Each node's position is the one it was given last. */
  lemma {:induction false} BuiltPositions(data: seq<Segment>)
    ensures forall n :: n in Built(data).positions <==> LastPos(data, n).Some?
    ensures forall n :: n in Built(data).positions ==> Built(data).positions[n] == LastPos(data, n).value
  {
    if data != [] {
      BuiltPositions(data[..|data| - 1]);
    }
  }

  /** One adjacency entry per segment. */
  lemma {:induction false} BuiltCount(data: seq<Segment>)
    ensures TotalEntries(Built(data)) == |data|
  {
    if data != [] {
      var n := |data| - 1;
      var g, s := Built(data[..n]), data[n];
      BuiltCount(data[..n]);
      BuiltWellFormed(data[..n]);
      var g1 := WithNode(g, s.from, Some(s.fromPos));
      var g2 := WithNode(g1, s.to, Some(s.toPos));
      WithNodeWellFormed(g, s.from, Some(s.fromPos));
      WithNodeWellFormed(g1, s.to, Some(s.toPos));
      WithNodeCount(g, s.from, Some(s.fromPos));
      WithNodeCount(g1, s.to, Some(s.toPos));
      WithEdgeCount(g2, s.from, s.to, s.weight);
    }
  }

  /** `build_graph_from_traffic`: a fresh graph, then one `add_node`,
      `add_node`, `add_edge` round per segment. */
  method BuildGraphFromTraffic(data: seq<Segment>) returns (graph: Graph)
    ensures fresh(graph) && graph.Valid() && graph.State() == Built(data)
  {
    graph := new Graph();
    for t := 0 to |data|
      invariant graph.Valid() && graph.State() == Built(data[..t])
    {
      var s := data[t];
      graph.AddNode(s.from, Some(s.fromPos));
      graph.AddNode(s.to, Some(s.toPos));
      graph.AddEdge(s.from, s.to, s.weight);
      BuiltStep(data, t);
    }
    assert data[..|data|] == data;
  }

  // ---------------------------------------------------------------------
  // The fallback dataset
  // ---------------------------------------------------------------------

  /** Where the fallback dataset places its six nodes (degrees times 10^4). */
  function FallbackPos(n: Node): Pos
  {
    if n == "A" then Pos(525200, 134050)
    else if n == "B" then Pos(525205, 134060)
    else if n == "C" then Pos(525210, 134070)
    else if n == "D" then Pos(525215, 134080)
    else if n == "E" then Pos(525220, 134090)
    else Pos(525225, 134100)
  }

  function Seg(from: Node, to: Node, weight: nat): Segment
  {
    Segment(from, to, weight, FallbackPos(from), FallbackPos(to))
  }

  /** The mock segments returned when no live data is available. */
  const FALLBACK: seq<Segment> := [
    Segment("A", "B", 5, Pos(525200, 134050), Pos(525205, 134060)),
    Segment("B", "C", 3, Pos(525205, 134060), Pos(525210, 134070)),
    Segment("A", "C", 10, Pos(525200, 134050), Pos(525210, 134070)),
    Segment("B", "D", 8, Pos(525205, 134060), Pos(525215, 134080)),
    Segment("C", "D", 2, Pos(525210, 134070), Pos(525215, 134080)),
    Segment("D", "E", 4, Pos(525215, 134080), Pos(525220, 134090)),
    Segment("E", "F", 6, Pos(525220, 134090), Pos(525225, 134100)),
    Segment("C", "F", 12, Pos(525210, 134070), Pos(525225, 134100)),
    Segment("A", "E", 15, Pos(525200, 134050), Pos(525220, 134090)),
    Segment("B", "E", 7, Pos(525205, 134060), Pos(525220, 134090))
  ]

  const FALLBACK_NODES: seq<Node> := ["A", "B", "C", "D", "E", "F"]

  /** Ten segments over the nodes A to F, every weight positive, and every
      node placed at the same position by every segment that mentions it. */
  lemma FallbackFacts()
    ensures |FALLBACK| == 10
    ensures forall j :: 0 <= j < |FALLBACK| ==> FALLBACK[j].weight > 0
    ensures forall j :: 0 <= j < |FALLBACK| ==> FALLBACK[j].from in FALLBACK_NODES && FALLBACK[j].to in FALLBACK_NODES
    ensures forall j :: 0 <= j < |FALLBACK| ==>
              FALLBACK[j] == Seg(FALLBACK[j].from, FALLBACK[j].to, FALLBACK[j].weight)
  {
    forall j | 0 <= j < |FALLBACK|
      ensures FALLBACK[j].weight > 0
      ensures FALLBACK[j].from in FALLBACK_NODES && FALLBACK[j].to in FALLBACK_NODES
      ensures FALLBACK[j] == Seg(FALLBACK[j].from, FALLBACK[j].to, FALLBACK[j].weight)
    {
      assert j in {0, 1, 2, 3, 4, 5, 6, 7, 8, 9};
    }
  }
}
