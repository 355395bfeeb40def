/** Hotspot detection and the hotspot-avoiding route of src/congestion_map.py.

    An adjacency entry is a hotspot when its weight reaches the congestion
    threshold. `HotspotsOf` lists the hotspots of a graph in the order
    `find_hotspots` visits them; `Light` and `Heavy` split one adjacency
    list into its entries below and at-or-above the threshold. */
module Congestion {
  import opened Roads
  import opened Frontier
  import opened Graphs

  const CONGESTION_THRESHOLD: nat := 7

  /** A hotspot triple `(from, to, weight)`. */
  datatype Hotspot = Hotspot(from: Node, to: Node, weight: nat)

  predicate IsHot(e: Entry)
  {
    e.weight >= CONGESTION_THRESHOLD
  }

  /** The entries of `l` below the threshold, in order. */
  function Light(l: seq<Entry>): seq<Entry>
  {
    if l == [] then []
    else Light(l[..|l| - 1]) + (if IsHot(l[|l| - 1]) then [] else [l[|l| - 1]])
  }

  /** The entries of `l` at or above the threshold, in order. */
  function Heavy(l: seq<Entry>): seq<Entry>
  {
    if l == [] then []
    else Heavy(l[..|l| - 1]) + (if IsHot(l[|l| - 1]) then [l[|l| - 1]] else [])
  }

  /** The adjacency map with every hotspot entry taken out. */
  ghost function LightAdj(adj: Adj): Adj
  {
    map k | k in adj :: Light(adj[k])
  }

  /** The hotspots of the list of `from`, in list order. */
  function HotspotsFrom(from: Node, l: seq<Entry>): seq<Hotspot>
  {
    if l == [] then []
    else
      var e := l[|l| - 1];
      HotspotsFrom(from, l[..|l| - 1]) + (if IsHot(e) then [Hotspot(from, e.to, e.weight)] else [])
  }

  /** `find_hotspots`: the hotspots of every list, keys in insertion order. */
  function HotspotsOf(keys: seq<Node>, adj: Adj): seq<Hotspot>
  {
    if keys == [] then []
    else
      var k := keys[|keys| - 1];
      HotspotsOf(keys[..|keys| - 1], adj) + (if k in adj then HotspotsFrom(k, adj[k]) else [])
  }

  /** The entries named by the hotspots of `hs` that leave `k`, in order. */
  function Proj(hs: seq<Hotspot>, k: Node): seq<Entry>
  {
    if hs == [] then []
    else
      var h := hs[|hs| - 1];
      Proj(hs[..|hs| - 1], k) + (if h.from == k then [Entry(h.to, h.weight)] else [])
  }

  lemma {:induction false} InLight(l: seq<Entry>, e: Entry)
    ensures e in Light(l) <==> e in l && !IsHot(e)
  {
    if l != [] {
      InLight(l[..|l| - 1], e);
      assert l == l[..|l| - 1] + [l[|l| - 1]];
    }
  }

  lemma {:induction false} InHeavy(l: seq<Entry>, e: Entry)
    ensures e in Heavy(l) <==> e in l && IsHot(e)
  {
    if l != [] {
      InHeavy(l[..|l| - 1], e);
      assert l == l[..|l| - 1] + [l[|l| - 1]];
    }
  }

  lemma {:induction false} LightAppend(a: seq<Entry>, b: seq<Entry>)
    ensures Light(a + b) == Light(a) + Light(b)
  {
    if b == [] {
      assert a + b == a;
    } else {
      assert (a + b)[..|a + b| - 1] == a + b[..|b| - 1];
      LightAppend(a, b[..|b| - 1]);
    }
  }

  lemma {:induction false} ProjAppend(a: seq<Hotspot>, b: seq<Hotspot>, k: Node)
    ensures Proj(a + b, k) == Proj(a, k) + Proj(b, k)
  {
    if b == [] {
      assert a + b == a;
    } else {
      assert (a + b)[..|a + b| - 1] == a + b[..|b| - 1];
      ProjAppend(a, b[..|b| - 1], k);
    }
  }

  /** Splitting a list into light and heavy entries loses and adds nothing. */
  lemma {:induction false} LightHeavyBag(l: seq<Entry>)
    ensures multiset(Light(l)) + multiset(Heavy(l)) == multiset(l)
  {
    if l != [] {
      LightHeavyBag(l[..|l| - 1]);
      assert l == l[..|l| - 1] + [l[|l| - 1]];
    }
  }

  lemma {:induction false} AllLight(l: seq<Entry>)
    requires forall e :: e in l ==> !IsHot(e)
    ensures Light(l) == l
  {
    if l != [] {
      AllLight(l[..|l| - 1]);
      assert l == l[..|l| - 1] + [l[|l| - 1]];
    }
  }

  lemma {:induction false} ProjHotspotsFrom(from: Node, l: seq<Entry>, k: Node)
    ensures Proj(HotspotsFrom(from, l), k) == if from == k then Heavy(l) else []
  {
    if l != [] {
      var init, e := l[..|l| - 1], l[|l| - 1];
      ProjHotspotsFrom(from, init, k);
      var tail := if IsHot(e) then [Hotspot(from, e.to, e.weight)] else [];
      ProjAppend(HotspotsFrom(from, init), tail, k);
      if IsHot(e) {
        assert Proj(tail, k) == Proj([], k) + (if from == k then [Entry(e.to, e.weight)] else []);
      }
    }
  }

  /** Restricted to one node, the hotspot list is exactly the heavy part of
      that node's adjacency list, in list order and with its repetitions. */
  lemma {:induction false} ProjHotspots(keys: seq<Node>, adj: Adj, k: Node)
    requires Distinct(keys)
    ensures Proj(HotspotsOf(keys, adj), k) == if k in keys && k in adj then Heavy(adj[k]) else []
  {
    if keys != [] {
      var init, last := keys[..|keys| - 1], keys[|keys| - 1];
      ProjHotspots(init, adj, k);
      var tail := if last in adj then HotspotsFrom(last, adj[last]) else [];
      ProjAppend(HotspotsOf(init, adj), tail, k);
      if last in adj {
        ProjHotspotsFrom(last, adj[last], k);
      }
      assert k in keys <==> k in init || k == last;
      if k == last {
        assert k !in init;
      }
    }
  }

  lemma {:induction false} InProj(hs: seq<Hotspot>, h: Hotspot)
    ensures h in hs <==> Entry(h.to, h.weight) in Proj(hs, h.from)
  {
    if hs != [] {
      InProj(hs[..|hs| - 1], h);
      assert hs == hs[..|hs| - 1] + [hs[|hs| - 1]];
    }
  }

  /** A triple is reported exactly when it is a heavy entry of the graph. */
  lemma HotspotMember(keys: seq<Node>, adj: Adj, h: Hotspot)
    requires Distinct(keys) && forall k :: k in adj <==> k in keys
    ensures h in HotspotsOf(keys, adj) <==>
              h.from in adj && Entry(h.to, h.weight) in adj[h.from] && h.weight >= CONGESTION_THRESHOLD
  {
    InProj(HotspotsOf(keys, adj), h);
    ProjHotspots(keys, adj, h.from);
    if h.from in adj {
      InHeavy(adj[h.from], Entry(h.to, h.weight));
    }
  }

  /** A walk avoids every hotspot exactly when it is a walk of the original
      graph whose every hop weighs less than the threshold. */
  lemma LightWalk(adj: Adj, p: seq<Node>, ws: seq<nat>)
    ensures IsWalk(LightAdj(adj), p, ws) <==>
              IsWalk(adj, p, ws) && forall i :: 0 <= i < |ws| ==> ws[i] < CONGESTION_THRESHOLD
  {
    var la := LightAdj(adj);
    if IsWalk(la, p, ws) {
      forall i | 0 <= i < |ws| ensures p[i] in adj && Entry(p[i + 1], ws[i]) in adj[p[i]] && ws[i] < CONGESTION_THRESHOLD {
        assert Entry(p[i + 1], ws[i]) in Light(adj[p[i]]);
        InLight(adj[p[i]], Entry(p[i + 1], ws[i]));
      }
    }
    if IsWalk(adj, p, ws) && forall i :: 0 <= i < |ws| ==> ws[i] < CONGESTION_THRESHOLD {
      forall i | 0 <= i < |ws| ensures p[i] in la && Entry(p[i + 1], ws[i]) in la[p[i]] {
        InLight(adj[p[i]], Entry(p[i + 1], ws[i]));
      }
    }
  }

  /** A route of the hotspot-free graph is a route of the graph itself, and
      its cost is least among the walks that only use light hops. */
  lemma AvoidingRoute(adj: Adj, s: Node, t: Node, path: seq<Node>, c: nat)
    ensures IsRoute(LightAdj(adj), s, t, path, c) ==> IsRoute(adj, s, t, path, c)
    ensures IsShortest(LightAdj(adj), s, t, c) <==>
              forall p, ws :: IsWalkFromTo(adj, s, t, p, ws) && (forall i :: 0 <= i < |ws| ==> ws[i] < CONGESTION_THRESHOLD) ==>
                c <= Sum(ws)
  {
    forall p, ws
      ensures IsWalkFromTo(LightAdj(adj), s, t, p, ws) <==>
                IsWalkFromTo(adj, s, t, p, ws) && forall i :: 0 <= i < |ws| ==> ws[i] < CONGESTION_THRESHOLD
    {
      LightWalk(adj, p, ws);
    }
  }

  method FindHotspots(graph: Graph) returns (hotspots: seq<Hotspot>)
    requires graph.Valid()
    ensures hotspots == HotspotsOf(graph.keys, graph.adj)
  {
    hotspots := [];
    for i := 0 to |graph.keys|
      invariant hotspots == HotspotsOf(graph.keys[..i], graph.adj)
    {
      var from := graph.keys[i];
      var neighbors := graph.adj[from];
      ghost var before := hotspots;
      for j := 0 to |neighbors|
        invariant hotspots == before + HotspotsFrom(from, neighbors[..j])
      {
        var e := neighbors[j];
        assert neighbors[..j + 1][..j] == neighbors[..j];
        if e.weight >= CONGESTION_THRESHOLD {
          hotspots := hotspots + [Hotspot(from, e.to, e.weight)];
        }
      }
      assert neighbors[..|neighbors|] == neighbors;
      assert graph.keys[..i + 1][..i] == graph.keys[..i];
    }
    assert graph.keys[..|graph.keys|] == graph.keys;
  }

  /** Taking a heavy entry out of a list keeps its light part... */
  lemma PopLight(l: seq<Entry>, i: nat)
    requires i < |l| && IsHot(l[i])
    ensures Light(l[..i] + l[i + 1..]) == Light(l)
  {
    var a, x, b := l[..i], l[i], l[i + 1..];
    assert Light(a + [x]) == Light(a) by {
      assert (a + [x])[..|a|] == a;
    }
    assert l == (a + [x]) + b;
    LightAppend(a + [x], b);
    LightAppend(a, b);
  }

  /** The number of copies of `e` in `l`. */
  function Count(l: seq<Entry>, e: Entry): nat
  {
    if l == [] then 0
    else Count(l[..|l| - 1], e) + (if l[|l| - 1] == e then 1 else 0)
  }

  lemma {:induction false} CountAppend(a: seq<Entry>, b: seq<Entry>, e: Entry)
    ensures Count(a + b, e) == Count(a, e) + Count(b, e)
  {
    if b == [] {
      assert a + b == a;
    } else {
      assert (a + b)[..|a + b| - 1] == a + b[..|b| - 1];
      CountAppend(a, b[..|b| - 1], e);
    }
  }

  lemma {:induction false} CountIn(l: seq<Entry>, e: Entry)
    ensures e in l <==> Count(l, e) > 0
  {
    if l != [] {
      CountIn(l[..|l| - 1], e);
      assert l == l[..|l| - 1] + [l[|l| - 1]];
    }
  }

  /** Every copy of an entry is in exactly one of the two parts. */
  lemma {:induction false} CountSplit(l: seq<Entry>, e: Entry)
    ensures Count(Light(l), e) + Count(Heavy(l), e) == Count(l, e)
  {
    if l != [] {
      var init, x := l[..|l| - 1], l[|l| - 1];
      CountSplit(init, e);
      CountAppend(Light(init), if IsHot(x) then [] else [x], e);
      CountAppend(Heavy(init), if IsHot(x) then [x] else [], e);
      assert Count([x], e) == Count([], e) + (if x == e then 1 else 0);
      assert Count([], e) == 0;
    }
  }

  /** ...and every other entry. */
  lemma PopCount(l: seq<Entry>, i: nat, e: Entry)
    requires i < |l|
    ensures Count(l[..i] + l[i + 1..], e) + (if l[i] == e then 1 else 0) == Count(l, e)
  {
    assert l == (l[..i] + [l[i]]) + l[i + 1..];
    CountAppend(l[..i] + [l[i]], l[i + 1..], e);
    CountAppend(l[..i], [l[i]], e);
    CountAppend(l[..i], l[i + 1..], e);
    assert Count([l[i]], e) == Count([], e) + (if l[i] == e then 1 else 0);
  }

  /** While the hotspots are being taken out one by one, a list keeps its
      light part and has lost exactly the heavy entries `P` named so far. */
  ghost predicate KeyRemoving(l0: seq<Entry>, l: seq<Entry>, P: seq<Entry>)
  {
    Light(l) == Light(l0) && forall e :: Count(l, e) + Count(P, e) == Count(l0, e)
  }

  ghost predicate Removing(adj0: Adj, adj: Adj, hs: seq<Hotspot>)
  {
    && adj.Keys == adj0.Keys
    && forall k :: k in adj0 ==> KeyRemoving(adj0[k], adj[k], Proj(hs, k))
  }

  lemma KeyStep(l0: seq<Entry>, l: seq<Entry>, P: seq<Entry>, i: nat)
    requires KeyRemoving(l0, l, P) && i < |l| && IsHot(l[i])
    ensures KeyRemoving(l0, l[..i] + l[i + 1..], P + [l[i]])
  {
    PopLight(l, i);
    forall e ensures Count(l[..i] + l[i + 1..], e) + Count(P + [l[i]], e) == Count(l0, e) {
      PopCount(l, i, e);
      CountAppend(P, [l[i]], e);
      assert Count([l[i]], e) == Count([], e) + (if l[i] == e then 1 else 0);
    }
  }

  /** `Proj` of one more hotspot. */
  lemma ProjSnoc(hs: seq<Hotspot>, t: nat, k: Node)
    requires t < |hs|
    ensures Proj(hs[..t + 1], k) == Proj(hs[..t], k) + (if hs[t].from == k then [Entry(hs[t].to, hs[t].weight)] else [])
  {
    assert hs[..t + 1][..t] == hs[..t];
  }

  /** The hotspots before position `t` name fewer copies of the entry of
      hotspot `t` than its list holds. */
  lemma ProjNext(keys: seq<Node>, adj0: Adj, t: nat)
    requires Distinct(keys) && (forall k :: k in adj0 <==> k in keys)
    requires t < |HotspotsOf(keys, adj0)|
    ensures var h := HotspotsOf(keys, adj0)[t];
      h.from in adj0 &&
      Count(Proj(HotspotsOf(keys, adj0)[..t], h.from), Entry(h.to, h.weight)) < Count(adj0[h.from], Entry(h.to, h.weight))
  {
    var hs := HotspotsOf(keys, adj0);
    var h := hs[t];
    var k, x := h.from, Entry(h.to, h.weight);
    HotspotMember(keys, adj0, h);
    ProjSnoc(hs, t, k);
    assert hs == hs[..t + 1] + hs[t + 1..];
    ProjAppend(hs[..t + 1], hs[t + 1..], k);
    ProjHotspots(keys, adj0, k);
    var P := Proj(hs[..t], k);
    assert Heavy(adj0[k]) == (P + [x]) + Proj(hs[t + 1..], k);
    CountAppend(P + [x], Proj(hs[t + 1..], k), x);
    CountAppend(P, [x], x);
    assert Count([x], x) == Count([], x) + 1;
    CountSplit(adj0[k], x);
  }

  /** The next hotspot still has an entry to take out. */
  lemma NextPresent(adj0: Adj, adj: Adj, keys: seq<Node>, t: nat)
    requires Distinct(keys) && (forall k :: k in adj0 <==> k in keys)
    requires t < |HotspotsOf(keys, adj0)|
    requires Removing(adj0, adj, HotspotsOf(keys, adj0)[..t])
    ensures HotspotsOf(keys, adj0)[t].from in adj
    ensures Entry(HotspotsOf(keys, adj0)[t].to, HotspotsOf(keys, adj0)[t].weight) in adj[HotspotsOf(keys, adj0)[t].from]
  {
    var hs := HotspotsOf(keys, adj0);
    var h := hs[t];
    var k, x := h.from, Entry(h.to, h.weight);
    ProjNext(keys, adj0, t);
    assert KeyRemoving(adj0[k], adj[k], Proj(hs[..t], k));
    assert Count(adj[k], x) + Count(Proj(hs[..t], k), x) == Count(adj0[k], x);
    CountIn(adj[k], x);
  }

  /** A list that lost all the heavy entries of `l0` holds no heavy entry. */
  lemma BagLight(l0: seq<Entry>, l: seq<Entry>)
    requires forall e :: Count(l, e) + Count(Heavy(l0), e) == Count(l0, e)
    ensures forall e :: e in l ==> !IsHot(e)
  {
    forall e | e in l ensures !IsHot(e) {
      CountSplit(l0, e);
      CountIn(l, e);
      CountIn(Light(l0), e);
      InLight(l0, e);
    }
  }

  /** A list that kept the light part of `l0` and lost all of its heavy
      entries is the light part of `l0`. */
  lemma OnlyLight(l0: seq<Entry>, l: seq<Entry>)
    requires KeyRemoving(l0, l, Heavy(l0))
    ensures l == Light(l0)
  {
    BagLight(l0, l);
    AllLight(l);
  }

  /** Once every hotspot is out, each list is exactly its light part. */
  lemma RemovedAll(adj0: Adj, adj: Adj, keys: seq<Node>)
    requires Distinct(keys) && (forall k :: k in adj0 <==> k in keys)
    requires Removing(adj0, adj, HotspotsOf(keys, adj0))
    ensures adj == LightAdj(adj0)
  {
    forall k | k in adj0 ensures adj[k] == Light(adj0[k]) {
      ProjHotspots(keys, adj0, k);
      assert KeyRemoving(adj0[k], adj[k], Proj(HotspotsOf(keys, adj0), k));
      OnlyLight(adj0[k], adj[k]);
    }
  }

  /** Popping the first copy of the `t`-th hotspot from its list extends
      the removal by that hotspot. */
  lemma PopStep(adj0: Adj, adj: Adj, keys: seq<Node>, t: nat, h: Hotspot, i: nat)
    requires Distinct(keys) && (forall k :: k in adj0 <==> k in keys)
    requires t < |HotspotsOf(keys, adj0)| && h == HotspotsOf(keys, adj0)[t]
    requires Removing(adj0, adj, HotspotsOf(keys, adj0)[..t])
    requires h.from in adj && i < |adj[h.from]| && adj[h.from][i] == Entry(h.to, h.weight)
    ensures Removing(adj0, adj[h.from := adj[h.from][..i] + adj[h.from][i + 1..]], HotspotsOf(keys, adj0)[..t + 1])
  {
    HotspotMember(keys, adj0, h);
    RemoveStep(adj0, adj, HotspotsOf(keys, adj0), t, i);
  }

  /** One pass of the inner `enumerate` loop: the `t`-th hotspot is still in
      its list, and popping its first copy extends the removal by one. */
  method PopHotspot(graph: Graph, ghost adj0: Adj, ghost keys: seq<Node>, t: nat, h: Hotspot) returns (i: nat)
    requires Distinct(keys) && (forall k :: k in adj0 <==> k in keys)
    requires t < |HotspotsOf(keys, adj0)| && h == HotspotsOf(keys, adj0)[t]
    requires Removing(adj0, graph.adj, HotspotsOf(keys, adj0)[..t])
    modifies graph
    ensures Removing(adj0, graph.adj, HotspotsOf(keys, adj0)[..t + 1])
    ensures h.from in old(graph.adj) && i < |old(graph.adj)[h.from]|
    ensures old(graph.adj)[h.from][i] == Entry(h.to, h.weight)
    ensures forall j :: 0 <= j < i ==> old(graph.adj)[h.from][j] != Entry(h.to, h.weight)
    ensures graph.adj == old(graph.adj)[h.from := old(graph.adj)[h.from][..i] + old(graph.adj)[h.from][i + 1..]]
    ensures graph.nodes == old(graph.nodes) && graph.keys == old(graph.keys)
    ensures graph.posKeys == old(graph.posKeys) && graph.positions == old(graph.positions)
  {
    ghost var adj := graph.adj;
    NextPresent(adj0, adj, keys, t);
    var neighbors := graph.adj[h.from];
    i := FirstMatch(neighbors, h.to, h.weight);
    if i < |neighbors| {
      PopStep(adj0, adj, keys, t, h, i);
      graph.adj := graph.adj[h.from := neighbors[..i] + neighbors[i + 1..]];
    } else {
      assert false;
    }
  }

  /** The removal loop of `suggest_alternate_path`: for each hotspot, take
      out the first entry of its list that matches it. Every hotspot finds
      its entry, so all of them are recorded as removed. */
  method RemoveHotspots(graph: Graph, hotspots: seq<Hotspot>) returns (removed: seq<Hotspot>)
    requires Distinct(graph.keys) && (forall k :: k in graph.adj <==> k in graph.keys)
    requires hotspots == HotspotsOf(graph.keys, graph.adj)
    modifies graph
    ensures removed == hotspots
    ensures graph.adj == LightAdj(old(graph.adj))
    ensures graph.nodes == old(graph.nodes) && graph.keys == old(graph.keys)
    ensures graph.posKeys == old(graph.posKeys) && graph.positions == old(graph.positions)
  {
    ghost var adj0, keys := graph.adj, graph.keys;
    removed := [];
    for t := 0 to |hotspots|
      invariant graph.nodes == old(graph.nodes) && graph.keys == keys
      invariant graph.posKeys == old(graph.posKeys) && graph.positions == old(graph.positions)
      invariant removed == hotspots[..t]
      invariant Removing(adj0, graph.adj, removed)
    {
      var h := hotspots[t];
      var _ := PopHotspot(graph, adj0, keys, t, h);
      removed := removed + [h];
      TakeSnoc(hotspots, t);
    }
    assert hotspots[..|hotspots|] == hotspots;
    RemovedAll(adj0, graph.adj, keys);
  }

  /** The scan `for i, (n, w) in enumerate(neighbors): if n == to and w == weight: ... break`:
      the index of the first matching entry, or the list's length when none matches. */
  method FirstMatch(neighbors: seq<Entry>, to: Node, weight: nat) returns (i: nat)
    ensures i <= |neighbors|
    ensures i < |neighbors| ==> neighbors[i] == Entry(to, weight)
    ensures forall j :: 0 <= j < i ==> neighbors[j] != Entry(to, weight)
    ensures i < |neighbors| <==> Entry(to, weight) in neighbors
  {
    i := 0;
    while i < |neighbors| && !(neighbors[i].to == to && neighbors[i].weight == weight)
      invariant i <= |neighbors|
      invariant forall j :: 0 <= j < i ==> neighbors[j] != Entry(to, weight)
    {
      i := i + 1;
    }
  }

  /** Taking the matching entry out of the list of hotspot `t` extends the
      removal invariant by that hotspot. */
  lemma RemoveStep(adj0: Adj, adj: Adj, hs: seq<Hotspot>, t: nat, i: nat)
    requires t < |hs| && Removing(adj0, adj, hs[..t]) && hs[t].from in adj
    requires i < |adj[hs[t].from]| && adj[hs[t].from][i] == Entry(hs[t].to, hs[t].weight)
    requires IsHot(Entry(hs[t].to, hs[t].weight))
    ensures Removing(adj0, adj[hs[t].from := adj[hs[t].from][..i] + adj[hs[t].from][i + 1..]], hs[..t + 1])
  {
    forall k | k in adj0
      ensures KeyRemoving(adj0[k], adj[hs[t].from := adj[hs[t].from][..i] + adj[hs[t].from][i + 1..]][k], Proj(hs[..t + 1], k))
    {
      RemoveStepKey(adj0, adj, hs, t, i, k);
    }
  }

  lemma RemoveStepKey(adj0: Adj, adj: Adj, hs: seq<Hotspot>, t: nat, i: nat, k: Node)
    requires t < |hs| && Removing(adj0, adj, hs[..t]) && hs[t].from in adj
    requires i < |adj[hs[t].from]| && adj[hs[t].from][i] == Entry(hs[t].to, hs[t].weight)
    requires IsHot(Entry(hs[t].to, hs[t].weight))
    requires k in adj0
    ensures KeyRemoving(adj0[k], adj[hs[t].from := adj[hs[t].from][..i] + adj[hs[t].from][i + 1..]][k], Proj(hs[..t + 1], k))
  {
    var h := hs[t];
    if k == h.from {
      RemoveStepAt(adj0[h.from], adj[h.from], hs, t, i);
    } else {
      ProjSnoc(hs, t, k);
      assert Proj(hs[..t], k) + [] == Proj(hs[..t], k);
    }
  }

  lemma RemoveStepAt(l0: seq<Entry>, l: seq<Entry>, hs: seq<Hotspot>, t: nat, i: nat)
    requires t < |hs| && KeyRemoving(l0, l, Proj(hs[..t], hs[t].from))
    requires i < |l| && l[i] == Entry(hs[t].to, hs[t].weight) && IsHot(l[i])
    ensures KeyRemoving(l0, l[..i] + l[i + 1..], Proj(hs[..t + 1], hs[t].from))
  {
    ProjSnoc(hs, t, hs[t].from);
    KeyStep(l0, l, Proj(hs[..t], hs[t].from), i);
  }

  /** The restore loop of `suggest_alternate_path`: append every removed
      entry back to the end of its list. */
  method RestoreEdges(graph: Graph, removed: seq<Hotspot>)
    requires forall r :: r in removed ==> r.from in graph.adj
    modifies graph
    ensures graph.adj.Keys == old(graph.adj).Keys
    ensures forall k :: k in old(graph.adj) ==> graph.adj[k] == old(graph.adj)[k] + Proj(removed, k)
    ensures graph.nodes == old(graph.nodes) && graph.keys == old(graph.keys)
    ensures graph.posKeys == old(graph.posKeys) && graph.positions == old(graph.positions)
  {
    ghost var adj0 := graph.adj;
    for t := 0 to |removed|
      invariant graph.nodes == old(graph.nodes) && graph.keys == old(graph.keys)
      invariant graph.posKeys == old(graph.posKeys) && graph.positions == old(graph.positions)
      invariant Restoring(adj0, graph.adj, removed[..t])
    {
      var r := removed[t];
      RestoreStep(adj0, graph.adj, removed, t);
      graph.adj := graph.adj[r.from := graph.adj[r.from] + [Entry(r.to, r.weight)]];
    }
    assert removed[..|removed|] == removed;
  }

  /** Each list holds its entries before the restore, then the entries of
      the hotspots appended so far. */
  ghost predicate Restoring(adj0: Adj, adj: Adj, rs: seq<Hotspot>)
  {
    adj.Keys == adj0.Keys && forall k :: k in adj0 ==> adj[k] == adj0[k] + Proj(rs, k)
  }

  lemma RestoreStep(adj0: Adj, adj: Adj, rs: seq<Hotspot>, t: nat)
    requires t < |rs| && Restoring(adj0, adj, rs[..t]) && rs[t].from in adj
    ensures Restoring(adj0, adj[rs[t].from := adj[rs[t].from] + [Entry(rs[t].to, rs[t].weight)]], rs[..t + 1])
  {
    forall k | k in adj0 {
      ProjSnoc(rs, t, k);
    }
  }

  /** Appending the hotspots, in the order they were found, to the light
      lists puts each heavy part back after its light part. */
  lemma RestoredLists(adj0: Adj, keys: seq<Node>, adj: Adj)
    requires Distinct(keys) && (forall k :: k in adj0 <==> k in keys)
    requires adj.Keys == LightAdj(adj0).Keys
    requires forall k :: k in LightAdj(adj0) ==> adj[k] == LightAdj(adj0)[k] + Proj(HotspotsOf(keys, adj0), k)
    ensures adj.Keys == adj0.Keys
    ensures forall k :: k in adj0 ==> adj[k] == Light(adj0[k]) + Heavy(adj0[k])
  {
    forall k | k in adj0 ensures adj[k] == Light(adj0[k]) + Heavy(adj0[k]) {
      ProjHotspots(keys, adj0, k);
    }
  }

  /** Each list ends as its light part followed by its heavy part, which
      holds the same entries as before. */
  lemma Restored(adj0: Adj, adj: Adj)
    requires adj.Keys == adj0.Keys
    requires forall k :: k in adj0 ==> adj[k] == Light(adj0[k]) + Heavy(adj0[k])
    ensures SameEntries(adj, adj0)
  {
    forall k, e | k in adj
      ensures e in adj[k] <==> e in adj0[k]
    {
      InLight(adj0[k], e);
      InHeavy(adj0[k], e);
    }
  }

  /** ...and the same bag of entries. */
  lemma RestoredBag(adj0: Adj, adj: Adj)
    requires adj.Keys == adj0.Keys
    requires forall k :: k in adj0 ==> adj[k] == Light(adj0[k]) + Heavy(adj0[k])
    ensures forall k :: k in adj0 ==> multiset(adj[k]) == multiset(adj0[k])
  {
    forall k | k in adj0 ensures multiset(adj[k]) == multiset(adj0[k]) {
      LightHeavyBag(adj0[k]);
    }
  }

  /** The restore loop after the search, starting from the hotspot-free
      graph: each list ends as its light part followed by its heavy part. */
  method RestoreAll(graph: Graph, ghost adj0: Adj, ghost keys: seq<Node>, removed: seq<Hotspot>)
    requires Distinct(keys) && (forall k :: k in adj0 <==> k in keys)
    requires removed == HotspotsOf(keys, adj0) && graph.adj == LightAdj(adj0)
    modifies graph
    ensures graph.adj.Keys == adj0.Keys
    ensures forall k :: k in adj0 ==> graph.adj[k] == Light(adj0[k]) + Heavy(adj0[k])
    ensures forall k :: k in adj0 ==> multiset(graph.adj[k]) == multiset(adj0[k])
    ensures SameEntries(graph.adj, adj0)
    ensures graph.nodes == old(graph.nodes) && graph.keys == old(graph.keys)
    ensures graph.posKeys == old(graph.posKeys) && graph.positions == old(graph.positions)
  {
    forall r | r in removed ensures r.from in graph.adj {
      HotspotMember(keys, adj0, r);
    }
    RestoreEdges(graph, removed);
    RestoredLists(adj0, keys, graph.adj);
    Restored(adj0, graph.adj);
    RestoredBag(adj0, graph.adj);
  }

  /** `suggest_alternate_path`: take every hotspot entry out of the graph,
      search it with Dijkstra, then append the removed entries back. */
  method SuggestAlternatePath(graph: Graph, start: Node, end: Node) returns (path: seq<Node>, cost: Cost)
    requires graph.Valid()
    modifies graph
    ensures graph.Valid()
    ensures graph.nodes == old(graph.nodes) && graph.keys == old(graph.keys)
    ensures graph.posKeys == old(graph.posKeys) && graph.positions == old(graph.positions)
    ensures graph.adj.Keys == old(graph.adj).Keys
    ensures forall k :: k in old(graph.adj) ==> graph.adj[k] == Light(old(graph.adj)[k]) + Heavy(old(graph.adj)[k])
    ensures SameEntries(graph.adj, old(graph.adj))
    ensures path == [] <==> cost == Inf
    ensures path == [] <==> !Reachable(LightAdj(old(graph.adj)), start, end)
    ensures path != [] ==> IsRoute(LightAdj(old(graph.adj)), start, end, path, cost.value)
    ensures path != [] ==> IsShortest(LightAdj(old(graph.adj)), start, end, cost.value)
    ensures forall k :: k in old(graph.adj) ==> multiset(graph.adj[k]) == multiset(old(graph.adj)[k])
  {
    ghost var adj0 := graph.adj;
    ghost var keys := graph.keys;
    var hotspots := FindHotspots(graph);
    var removed := RemoveHotspots(graph, hotspots);
    ghost var expansions;
    path, cost, expansions := graph.Dijkstra(start, end);
    RestoreAll(graph, adj0, keys, removed);
  }
}
