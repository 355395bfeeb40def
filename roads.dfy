/** Values shared by every part of the routing model: node identifiers,
    positions, adjacency entries, segment records, route costs, and the
    notion of a walk through an adjacency map. */
module Roads {

  /** A road-network node: an intersection key or a stringified coordinate pair. */
  type Node = string

  /** A (latitude, longitude) pair, kept as fixed-point integers
      (degrees scaled by 10^4); no arithmetic is done on it in the model. */
  datatype Pos = Pos(lat: int, lon: int)

  datatype Option<T> = None | Some(value: T)

  /** One element `(neighbor, weight)` of an adjacency list. */
  datatype Entry = Entry(to: Node, weight: nat)

  /** The adjacency dictionary: node -> list of outgoing entries. */
  type Adj = map<Node, seq<Entry>>

  /** A traffic segment record `{from, to, weight, from_pos, to_pos}`. */
  datatype Segment = Segment(from: Node, to: Node, weight: nat, fromPos: Pos, toPos: Pos)

  /** The cost a search reports: a finite total, or the `inf` of "no route". */
  datatype Cost = Fin(value: nat) | Inf

  function Sum(ws: seq<nat>): nat
  {
    if ws == [] then 0 else ws[0] + Sum(ws[1..])
  }

  predicate Distinct(s: seq<Node>)
  {
    forall i, j :: 0 <= i < j < |s| ==> s[i] != s[j]
  }

  /** `p` visits nodes hop by hop and `ws[i]` is the weight of an adjacency
      entry of `p[i]` that leads to `p[i + 1]`. */
  predicate IsWalk(adj: Adj, p: seq<Node>, ws: seq<nat>)
  {
    |p| == |ws| + 1 &&
    forall i :: 0 <= i < |ws| ==> p[i] in adj && Entry(p[i + 1], ws[i]) in adj[p[i]]
  }

  predicate IsWalkFromTo(adj: Adj, s: Node, t: Node, p: seq<Node>, ws: seq<nat>)
  {
    IsWalk(adj, p, ws) && p[0] == s && p[|p| - 1] == t
  }

  ghost predicate Reachable(adj: Adj, s: Node, t: Node)
  {
    exists p, ws :: IsWalkFromTo(adj, s, t, p, ws)
  }

  /** `path` is a simple route from `s` to `t` whose hop weights add up to `cost`. */
  ghost predicate IsRoute(adj: Adj, s: Node, t: Node, path: seq<Node>, cost: nat)
  {
    Distinct(path) && exists ws :: IsWalkFromTo(adj, s, t, path, ws) && Sum(ws) == cost
  }

  /** No walk from `s` to `t` is cheaper than `cost`. */
  ghost predicate IsShortest(adj: Adj, s: Node, t: Node, cost: nat)
  {
    forall p, ws :: IsWalkFromTo(adj, s, t, p, ws) ==> cost <= Sum(ws)
  }

  /** Two adjacency maps with the same keys whose lists hold the same entries
      (in any order, with any multiplicity) admit the same walks. */
  ghost predicate SameEntries(a: Adj, b: Adj)
  {
    a.Keys == b.Keys && forall k, e :: k in a ==> (e in a[k] <==> e in b[k])
  }

  lemma {:induction false} SumAppend(a: seq<nat>, b: seq<nat>)
    ensures Sum(a + b) == Sum(a) + Sum(b)
  {
    if a == [] {
      assert a + b == b;
    } else {
      assert (a + b)[1..] == a[1..] + b;
      SumAppend(a[1..], b);
    }
  }

  lemma SumPrefix(ws: seq<nat>, k: nat)
    requires k < |ws|
    ensures Sum(ws[..k]) + ws[k] == Sum(ws[..k + 1]) <= Sum(ws)
  {
    assert ws[..k + 1] == ws[..k] + [ws[k]];
    SumAppend(ws[..k], [ws[k]]);
    assert ws == ws[..k + 1] + ws[k + 1..];
    SumAppend(ws[..k + 1], ws[k + 1..]);
  }

  lemma TakeSnoc<T>(s: seq<T>, t: nat)
    requires t < |s|
    ensures s[..t + 1] == s[..t] + [s[t]]
  {
  }

  lemma WalkPrefix(adj: Adj, p: seq<Node>, ws: seq<nat>, k: nat)
    requires IsWalk(adj, p, ws) && k < |p|
    ensures IsWalk(adj, p[..k + 1], ws[..k])
  {
  }

  lemma WalkExtend(adj: Adj, p: seq<Node>, ws: seq<nat>, e: Entry)
    requires IsWalk(adj, p, ws)
    requires p[|p| - 1] in adj && e in adj[p[|p| - 1]]
    ensures IsWalk(adj, p + [e.to], ws + [e.weight])
  {
    var p', ws' := p + [e.to], ws + [e.weight];
    forall i | 0 <= i < |ws'|
      ensures p'[i] in adj && Entry(p'[i + 1], ws'[i]) in adj[p'[i]]
    {
      if i < |ws| {
        assert p'[i] == p[i] && p'[i + 1] == p[i + 1] && ws'[i] == ws[i];
      }
    }
  }

  /** A walk that starts inside `S` and ends outside it leaves `S` along some hop. */
  lemma FirstExit(adj: Adj, p: seq<Node>, ws: seq<nat>, S: set<Node>) returns (k: nat)
    requires IsWalk(adj, p, ws) && p[0] in S && p[|p| - 1] !in S
    ensures k < |ws| && p[k] in S && p[k + 1] !in S
  {
    k := 0;
    while p[k + 1] in S
      invariant k < |ws| && p[k] in S
      decreases |ws| - k
    {
      k := k + 1;
    }
  }

  /** A route from a node to itself is the one-node path of cost 0. */
  lemma TrivialRoute(adj: Adj, s: Node, path: seq<Node>, cost: nat)
    requires IsRoute(adj, s, s, path, cost)
    ensures path == [s] && cost == 0
  {
    var ws :| IsWalkFromTo(adj, s, s, path, ws) && Sum(ws) == cost;
    if |path| > 1 {
      assert false;
    }
  }

  /** Two shortest routes between the same nodes cost the same. */
  lemma ShortestCostUnique(adj: Adj, s: Node, t: Node, p1: seq<Node>, c1: nat, p2: seq<Node>, c2: nat)
    requires IsRoute(adj, s, t, p1, c1) && IsShortest(adj, s, t, c1)
    requires IsRoute(adj, s, t, p2, c2) && IsShortest(adj, s, t, c2)
    ensures c1 == c2
  {
    var w1 :| IsWalkFromTo(adj, s, t, p1, w1) && Sum(w1) == c1;
    var w2 :| IsWalkFromTo(adj, s, t, p2, w2) && Sum(w2) == c2;
  }

  lemma SameEntriesWalk(a: Adj, b: Adj, p: seq<Node>, ws: seq<nat>)
    requires SameEntries(a, b)
    ensures IsWalk(a, p, ws) <==> IsWalk(b, p, ws)
  {
    if IsWalk(a, p, ws) {
      forall i | 0 <= i < |ws| ensures p[i] in b && Entry(p[i + 1], ws[i]) in b[p[i]] {
        assert Entry(p[i + 1], ws[i]) in a[p[i]];
      }
    }
    if IsWalk(b, p, ws) {
      forall i | 0 <= i < |ws| ensures p[i] in a && Entry(p[i + 1], ws[i]) in a[p[i]] {
        assert Entry(p[i + 1], ws[i]) in b[p[i]];
      }
    }
  }

  /** Routes, reachability and shortest costs depend only on which entries
      each adjacency list holds, not on their order. */
  lemma SameEntriesRoutes(a: Adj, b: Adj, s: Node, t: Node)
    requires SameEntries(a, b)
    ensures Reachable(a, s, t) <==> Reachable(b, s, t)
    ensures forall path, c :: IsRoute(a, s, t, path, c) <==> IsRoute(b, s, t, path, c)
    ensures forall c :: IsShortest(a, s, t, c) <==> IsShortest(b, s, t, c)
  {
    forall p, ws ensures IsWalkFromTo(a, s, t, p, ws) <==> IsWalkFromTo(b, s, t, p, ws) {
      SameEntriesWalk(a, b, p, ws);
    }
  }
}
