/** Historical traffic of src/historical_traffic.py. The history file is
    modelled as the `snapshots` field of a `HistoryStore`; each snapshot is
    the segment list of one poll. `average_congestion_per_edge` folds every
    segment of every snapshot into a running sum and count per edge key
    `"from->to"` and divides the two. */
module History {
  import opened Roads

  type Snapshot = seq<Segment>

  /** The dictionary key `f"{from}->{to}"`. */
  function EdgeKey(s: Segment): string
  {
    s.from + "->" + s.to
  }

  /** The segments of all snapshots, snapshot after snapshot. */
  function Flatten(history: seq<Snapshot>): seq<Segment>
  {
    if history == [] then []
    else Flatten(history[..|history| - 1]) + history[|history| - 1]
  }

  // ---------------------------------------------------------------------
  // Reference definitions: per-key count and total
  // ---------------------------------------------------------------------

  /** Some segment has key `k`. */
  ghost predicate Occurs(segs: seq<Segment>, k: string)
  {
    exists j :: 0 <= j < |segs| && EdgeKey(segs[j]) == k
  }

  /** How many segments have key `k`. */
  function KeyCount(segs: seq<Segment>, k: string): nat
  {
    if segs == [] then 0
    else KeyCount(segs[..|segs| - 1], k) + (if EdgeKey(segs[|segs| - 1]) == k then 1 else 0)
  }

  /** The total weight of the segments with key `k`. */
  function KeySum(segs: seq<Segment>, k: string): nat
  {
    if segs == [] then 0
    else KeySum(segs[..|segs| - 1], k) + (if EdgeKey(segs[|segs| - 1]) == k then segs[|segs| - 1].weight else 0)
  }

  // ---------------------------------------------------------------------
  // The two dictionaries the loop fills
  // ---------------------------------------------------------------------

  /** `m[k] = m.get(k, 0) + w`. */
  function AddTo(m: map<string, nat>, k: string, w: nat): map<string, nat>
  {
    m[k := (if k in m then m[k] else 0) + w]
  }

  /** `edge_sums` after folding `segs` in. */
  function Sums(segs: seq<Segment>): map<string, nat>
  {
    if segs == [] then map[]
    else
      var s := segs[|segs| - 1];
      AddTo(Sums(segs[..|segs| - 1]), EdgeKey(s), s.weight)
  }

  /** `edge_counts` after folding `segs` in. */
  function Counts(segs: seq<Segment>): map<string, nat>
  {
    if segs == [] then map[]
    else
      AddTo(Counts(segs[..|segs| - 1]), EdgeKey(segs[|segs| - 1]), 1)
  }

  /** One more segment adds its weight to its key's total and one to its
      count in the dictionaries. */
  lemma SumsSnoc(segs: seq<Segment>, s: Segment)
    ensures Sums(segs + [s]) == AddTo(Sums(segs), EdgeKey(s), s.weight)
    ensures Counts(segs + [s]) == AddTo(Counts(segs), EdgeKey(s), 1)
  {
    assert (segs + [s])[..|segs|] == segs;
  }

  lemma KeySnoc(segs: seq<Segment>, s: Segment, k: string)
    ensures KeySum(segs + [s], k) == KeySum(segs, k) + (if EdgeKey(s) == k then s.weight else 0)
    ensures KeyCount(segs + [s], k) == KeyCount(segs, k) + (if EdgeKey(s) == k then 1 else 0)
  {
    assert (segs + [s])[..|segs|] == segs;
  }

  /** The dictionaries hold `k` iff it occurs, with its total weight and its
      number of occurrences, which is at least one. */
  lemma {:induction false} SumsCountsAt(segs: seq<Segment>, k: string)
    ensures k in Sums(segs) <==> Occurs(segs, k)
    ensures k in Counts(segs) <==> Occurs(segs, k)
    ensures k in Sums(segs) ==> Sums(segs)[k] == KeySum(segs, k)
    ensures k in Counts(segs) ==> Counts(segs)[k] == KeyCount(segs, k) >= 1
  {
    if segs != [] {
      var init := segs[..|segs| - 1];
      var s := segs[|segs| - 1];
      assert segs == init + [s];
      SumsCountsAt(init, k);
      OccursSnoc(init, s, k);
      SumsSnoc(init, s);
      KeySnoc(init, s, k);
      if !Occurs(init, k) {
        CountZero(init, k);
        SumZero(init, k);
      }
    }
  }

  lemma SumsCounts(segs: seq<Segment>)
    ensures forall k :: k in Sums(segs) <==> Occurs(segs, k)
    ensures forall k :: k in Counts(segs) <==> Occurs(segs, k)
    ensures forall k :: k in Sums(segs) ==> Sums(segs)[k] == KeySum(segs, k)
    ensures forall k :: k in Counts(segs) ==> Counts(segs)[k] == KeyCount(segs, k) >= 1
  {
    forall k
      ensures k in Sums(segs) <==> Occurs(segs, k)
      ensures k in Counts(segs) <==> Occurs(segs, k)
      ensures k in Sums(segs) ==> Sums(segs)[k] == KeySum(segs, k)
      ensures k in Counts(segs) ==> Counts(segs)[k] == KeyCount(segs, k) >= 1
    {
      SumsCountsAt(segs, k);
    }
  }

  lemma OccursSnoc(segs: seq<Segment>, s: Segment, k: string)
    ensures Occurs(segs + [s], k) <==> Occurs(segs, k) || EdgeKey(s) == k
  {
    if Occurs(segs, k) {
      var j :| 0 <= j < |segs| && EdgeKey(segs[j]) == k;
      assert (segs + [s])[j] == segs[j];
    }
    if EdgeKey(s) == k {
      assert (segs + [s])[|segs|] == s;
    }
  }

  /** No occurrence, no count. */
  lemma {:induction false} CountZero(segs: seq<Segment>, k: string)
    ensures KeyCount(segs, k) == 0 <==> !Occurs(segs, k)
  {
    if segs != [] {
      var init := segs[..|segs| - 1];
      CountZero(init, k);
      OccursSnoc(init, segs[|segs| - 1], k);
      assert segs == init + [segs[|segs| - 1]];
    }
  }

  // ---------------------------------------------------------------------
  // The averages
  // ---------------------------------------------------------------------

  /** The comprehension `{k: edge_sums[k] / edge_counts[k] for k in edge_sums}`. */
  function Averages(segs: seq<Segment>): map<string, real>
  {
    SumsCounts(segs);
    map k | k in Sums(segs) :: Sums(segs)[k] as real / Counts(segs)[k] as real
  }

  /** The result has exactly the keys that occur in some segment of some
      snapshot; an empty history gives an empty dictionary. */
  lemma AveragesKeys(history: seq<Snapshot>)
    ensures forall k :: k in Averages(Flatten(history)) <==> Occurs(Flatten(history), k)
    ensures history == [] ==> Averages(Flatten(history)) == map[]
  {
    SumsCounts(Flatten(history));
  }

  /** Each average is the total weight for its key over the number of
      segments with that key. */
  lemma AveragesValue(segs: seq<Segment>, k: string)
    requires k in Averages(segs)
    ensures KeyCount(segs, k) >= 1
    ensures Averages(segs)[k] == KeySum(segs, k) as real / KeyCount(segs, k) as real
  {
    SumsCounts(segs);
  }

  /** Count and total of a key that only the `j`-th segment has. */
  lemma {:induction false} OnlyOne(segs: seq<Segment>, j: nat)
    requires j < |segs|
    requires forall i :: 0 <= i < |segs| && i != j ==> EdgeKey(segs[i]) != EdgeKey(segs[j])
    ensures KeyCount(segs, EdgeKey(segs[j])) == 1
    ensures KeySum(segs, EdgeKey(segs[j])) == segs[j].weight
  {
    var k := EdgeKey(segs[j]);
    var init := segs[..|segs| - 1];
    if j < |segs| - 1 {
      forall i | 0 <= i < |init| && i != j ensures EdgeKey(init[i]) != EdgeKey(init[j]) {
        assert init[i] == segs[i];
      }
      OnlyOne(init, j);
      assert init[j] == segs[j];
    } else {
      assert KeyCount(init, k) == 0 && KeySum(init, k) == 0 by {
        forall j | 0 <= j < |init| ensures EdgeKey(init[j]) != k {
          assert init[j] == segs[j];
        }
        CountZero(init, k);
        SumZero(init, k);
      }
    }
  }

  lemma {:induction false} SumZero(segs: seq<Segment>, k: string)
    requires KeyCount(segs, k) == 0
    ensures KeySum(segs, k) == 0
  {
    if segs != [] {
      SumZero(segs[..|segs| - 1], k);
    }
  }

  /** A key seen once maps to that segment's weight. */
  lemma SeenOnce(segs: seq<Segment>, j: nat)
    requires j < |segs|
    requires forall i :: 0 <= i < |segs| && i != j ==> EdgeKey(segs[i]) != EdgeKey(segs[j])
    ensures EdgeKey(segs[j]) in Averages(segs)
    ensures Averages(segs)[EdgeKey(segs[j])] == segs[j].weight as real
  {
    SumsCounts(segs);
    OnlyOne(segs, j);
  }

  lemma MulSucc(a: nat, x: nat)
    ensures (a + 1) * x == a * x + x
  {
  }

  /** The total for a key lies between `count * lo` and `count * hi` when
      every weight for it does. */
  lemma {:induction false} SumBetween(segs: seq<Segment>, k: string, lo: nat, hi: nat)
    requires forall j :: 0 <= j < |segs| && EdgeKey(segs[j]) == k ==> lo <= segs[j].weight <= hi
    ensures KeyCount(segs, k) * lo <= KeySum(segs, k) <= KeyCount(segs, k) * hi
  {
    if segs != [] {
      var init := segs[..|segs| - 1];
      var s := segs[|segs| - 1];
      forall j | 0 <= j < |init| && EdgeKey(init[j]) == k ensures lo <= init[j].weight <= hi {
        assert init[j] == segs[j];
      }
      SumBetween(init, k, lo, hi);
      if EdgeKey(s) == k {
        MulSucc(KeyCount(init, k), lo);
        MulSucc(KeyCount(init, k), hi);
      }
    }
  }

  lemma DivBetween(c: nat, t: nat, lo: nat, hi: nat)
    requires c >= 1 && c * lo <= t <= c * hi
    ensures lo as real <= t as real / c as real <= hi as real
  {
    var q := t as real / c as real;
    assert q * c as real == t as real;
    assert (lo as real) * (c as real) <= q * (c as real);
    assert q * (c as real) <= (hi as real) * (c as real);
  }

  /** Every average lies between the smallest and the largest weight
      recorded for its key. */
  lemma AverageBetween(segs: seq<Segment>, k: string, lo: nat, hi: nat)
    requires k in Averages(segs)
    requires forall j :: 0 <= j < |segs| && EdgeKey(segs[j]) == k ==> lo <= segs[j].weight <= hi
    ensures lo as real <= Averages(segs)[k] <= hi as real
  {
    AveragesValue(segs, k);
    SumBetween(segs, k, lo, hi);
    DivBetween(KeyCount(segs, k), KeySum(segs, k), lo, hi);
  }

  /** Keys are built by concatenation, so `("a->b", "c")` and
      `("a", "b->c")` share the key `"a->b->c"` and their weights are
      averaged together. */
  lemma KeyCollision(p: Pos)
    ensures var s1 := Segment("a->b", "c", 2, p, p);
            var s2 := Segment("a", "b->c", 8, p, p);
            (s1.from, s1.to) != (s2.from, s2.to) &&
            EdgeKey(s1) == EdgeKey(s2) == "a->b->c" &&
            Averages([s1, s2]) == map["a->b->c" := 5.0]
  {
    var s1 := Segment("a->b", "c", 2, p, p);
    var s2 := Segment("a", "b->c", 8, p, p);
    assert EdgeKey(s1) == "a->b->c";
    assert EdgeKey(s2) == "a->b->c";
    SumsSnoc([], s1);
    SumsSnoc([s1], s2);
    assert [] + [s1] == [s1];
    assert [s1] + [s2] == [s1, s2];
    assert Sums([s1, s2]) == map["a->b->c" := 10];
    assert Counts([s1, s2]) == map["a->b->c" := 2];
  }

  /** `average_congestion_per_edge`. */
  method AverageCongestionPerEdge(history: seq<Snapshot>) returns (averages: map<string, real>)
    ensures averages == Averages(Flatten(history))
  {
    var edgeSums: map<string, nat> := map[];
    var edgeCounts: map<string, nat> := map[];
    ghost var done: seq<Segment> := [];
    for i := 0 to |history|
      invariant done == Flatten(history[..i])
      invariant edgeSums == Sums(done) && edgeCounts == Counts(done)
    {
      var snapshot := history[i];
      ghost var before := done;
      for j := 0 to |snapshot|
        invariant done == before + snapshot[..j]
        invariant edgeSums == Sums(done) && edgeCounts == Counts(done)
      {
        var segment := snapshot[j];
        var edgeKey := segment.from + "->" + segment.to;
        edgeSums := AddTo(edgeSums, edgeKey, segment.weight);
        edgeCounts := AddTo(edgeCounts, edgeKey, 1);
        TakeSnoc(snapshot, j);
        SumsSnoc(done, segment);
        done := done + [segment];
      }
      assert snapshot[..|snapshot|] == snapshot;
      TakeSnoc(history, i);
      assert history[..i + 1][..i] == history[..i];
    }
    assert history[..|history|] == history;
    SumsCounts(done);
    averages := map k | k in edgeSums :: edgeSums[k] as real / edgeCounts[k] as real;
  }

  /** The history file. */
  class HistoryStore {
    var snapshots: seq<Snapshot>

    /** No history file yet: `load_historical_data` gives `[]`. */
    constructor()
      ensures snapshots == []
    {
      snapshots := [];
    }

    /** `save_traffic_snapshot`: the snapshot becomes the last one stored. */
    method SaveTrafficSnapshot(data: Snapshot)
      modifies this
      ensures snapshots == old(snapshots) + [data]
    {
      snapshots := snapshots + [data];
    }

    /** `load_historical_data`. */
    method LoadHistoricalData() returns (h: seq<Snapshot>)
      ensures h == snapshots
    {
      h := snapshots;
    }
  }
}
