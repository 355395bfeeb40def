/** Congestion alerts of src/alerts.py. The alert file is modelled as the
    `alerts` field of an `AlertStore`: `add_alert` and `remove_alert` load
    it, change it and save it back, which here is one update of the field.
    `check_alerts` pairs every alert with every segment of the current
    traffic data and reports those at or above `ALERT_THRESHOLD`. */
module Alerts {
  import opened Roads

  const ALERT_THRESHOLD: nat := 7

  /** A watched edge `{"from": .., "to": ..}`. */
  datatype Alert = Alert(from: Node, to: Node)

  predicate Matches(a: Alert, from: Node, to: Node)
  {
    a.from == from && a.to == to
  }

  // ---------------------------------------------------------------------
  // add_alert
  // ---------------------------------------------------------------------

  /** The stored list after `add_alert(a.from, a.to)`. */
  function WithAlert(alerts: seq<Alert>, a: Alert): seq<Alert>
  {
    if a in alerts then alerts else alerts + [a]
  }

  /** After adding, the alert is present, nothing else was added, and the
      old alerts keep their places. */
  lemma WithAlertSpec(alerts: seq<Alert>, a: Alert)
    ensures a in WithAlert(alerts, a)
    ensures forall x :: x in WithAlert(alerts, a) <==> x in alerts || x == a
    ensures WithAlert(alerts, a)[..|alerts|] == alerts
    ensures |WithAlert(alerts, a)| == if a in alerts then |alerts| else |alerts| + 1
  {
  }

  /** Adding the same alert twice is the same as adding it once, so the
      second call reports that nothing was added. */
  lemma WithAlertIdempotent(alerts: seq<Alert>, a: Alert)
    ensures a in WithAlert(alerts, a)
    ensures WithAlert(WithAlert(alerts, a), a) == WithAlert(alerts, a)
  {
  }

  /** `add_alert` never stores a duplicate. */
  lemma WithAlertDistinct(alerts: seq<Alert>, a: Alert)
    requires forall i, j :: 0 <= i < j < |alerts| ==> alerts[i] != alerts[j]
    ensures var r := WithAlert(alerts, a);
      forall i, j :: 0 <= i < j < |r| ==> r[i] != r[j]
  {
    var r := WithAlert(alerts, a);
    if a !in alerts {
      forall i, j | 0 <= i < j < |r| ensures r[i] != r[j] {
        if j == |alerts| {
          assert r[i] == alerts[i];
        }
      }
    }
  }

  // ---------------------------------------------------------------------
  // remove_alert
  // ---------------------------------------------------------------------

  /** The list comprehension of `remove_alert`: the alerts not matching
      `(from, to)`, in their original order. */
  function Without(alerts: seq<Alert>, from: Node, to: Node): seq<Alert>
  {
    if alerts == [] then []
    else
      var last := alerts[|alerts| - 1];
      Without(alerts[..|alerts| - 1], from, to) + (if Matches(last, from, to) then [] else [last])
  }

  /** Exactly the non-matching alerts survive: no matching one remains. */
  lemma {:induction false} WithoutMembers(alerts: seq<Alert>, from: Node, to: Node)
    ensures forall x :: x in Without(alerts, from, to) <==> x in alerts && !Matches(x, from, to)
  {
    if alerts != [] {
      var init := alerts[..|alerts| - 1];
      WithoutMembers(init, from, to);
      assert alerts == init + [alerts[|alerts| - 1]];
    }
  }

  /** Filtering commutes with concatenation, so the survivors keep their
      relative order. */
  lemma {:induction false} WithoutAppend(xs: seq<Alert>, ys: seq<Alert>, from: Node, to: Node)
    ensures Without(xs + ys, from, to) == Without(xs, from, to) + Without(ys, from, to)
    decreases |ys|
  {
    if ys == [] {
      assert xs + ys == xs;
    } else {
      var init := ys[..|ys| - 1];
      var last := ys[|ys| - 1];
      WithoutAppend(xs, init, from, to);
      assert (xs + ys)[..|xs + ys| - 1] == xs + init;
      assert (xs + ys)[|xs + ys| - 1] == last;
    }
  }

  /** A single alert survives iff it does not match. */
  lemma WithoutSingle(a: Alert, from: Node, to: Node)
    ensures Without([a], from, to) == if Matches(a, from, to) then [] else [a]
  {
    assert [a][..0] == [];
  }

  /** The list gets shorter iff some alert matched, so `remove_alert`'s
      `len(alerts) != len(new_alerts)` says whether anything was removed. */
  lemma {:induction false} WithoutShorter(alerts: seq<Alert>, from: Node, to: Node)
    ensures |Without(alerts, from, to)| <= |alerts|
    ensures |Without(alerts, from, to)| != |alerts| <==>
            exists i :: 0 <= i < |alerts| && Matches(alerts[i], from, to)
  {
    if alerts != [] {
      var init := alerts[..|alerts| - 1];
      WithoutShorter(init, from, to);
      if exists i :: 0 <= i < |init| && Matches(init[i], from, to) {
        var i :| 0 <= i < |init| && Matches(init[i], from, to);
        assert alerts[i] == init[i];
      }
      if exists i :: 0 <= i < |alerts| && Matches(alerts[i], from, to) {
        var i :| 0 <= i < |alerts| && Matches(alerts[i], from, to);
        if i < |init| {
          assert init[i] == alerts[i];
        }
      }
    }
  }

  // ---------------------------------------------------------------------
  // check_alerts
  // ---------------------------------------------------------------------

  /** The decimal digits of `n`, as Python's `str` of an int writes them. */
  function Decimal(n: nat): (r: string)
    ensures |r| >= 1
    ensures forall i :: 0 <= i < |r| ==> '0' <= r[i] <= '9'
  {
    if n < 10 then [DigitChar(n)] else Decimal(n / 10) + [DigitChar(n % 10)]
  }

  function DigitChar(d: nat): (c: char)
    requires d < 10
    ensures '0' <= c <= '9'
  {
    (d + '0' as int) as char
  }

  /** The number a string of decimal digits denotes. */
  function DecimalValue(s: string): nat
    requires forall i :: 0 <= i < |s| ==> '0' <= s[i] <= '9'
  {
    if s == [] then 0
    else DecimalValue(s[..|s| - 1]) * 10 + (s[|s| - 1] as int - '0' as int)
  }

  /** The weight printed in a message reads back as the weight. */
  lemma {:induction false} DecimalRoundTrip(n: nat)
    ensures DecimalValue(Decimal(n)) == n
  {
    if n >= 10 {
      DecimalRoundTrip(n / 10);
      var s := Decimal(n);
      assert s[..|s| - 1] == Decimal(n / 10);
    }
  }

  /** `segment` triggers `alert`: same endpoints, weight at the threshold or above. */
  predicate Fires(a: Alert, s: Segment)
  {
    s.from == a.from && s.to == a.to && s.weight >= ALERT_THRESHOLD
  }

  /** One triggered alert: the alert and the weight of the segment that fired it. */
  datatype Hit = Hit(alert: Alert, weight: nat)

  /** The text of a message up to its weight. */
  function MessageHead(a: Alert): string
  {
    "ALERT: Congestion on " + a.from + " -> " + a.to + " (weight: "
  }

  function Message(h: Hit): string
  {
    MessageHead(h.alert) + Decimal(h.weight) + ")"
  }

  /** A message names its alert, then holds only digits up to its closing
      parenthesis, and those digits read back as the segment's weight. */
  lemma MessageReadBack(h: Hit)
    ensures var m, p := Message(h), MessageHead(h.alert);
      && |p| < |m| - 1 && m[..|p|] == p && m[|m| - 1] == ')'
      && (forall i :: |p| <= i < |m| - 1 ==> '0' <= m[i] <= '9')
      && DecimalValue(m[|p|..|m| - 1]) == h.weight
  {
    var m, p, d := Message(h), MessageHead(h.alert), Decimal(h.weight);
    assert m == p + d + ")";
    assert m[|p|..|m| - 1] == d;
    DecimalRoundTrip(h.weight);
  }

  /** Two messages for the same alert are equal exactly when they report
      the same weight. */
  lemma MessageWeights(h1: Hit, h2: Hit)
    requires h1.alert == h2.alert
    ensures Message(h1) == Message(h2) <==> h1.weight == h2.weight
  {
    if Message(h1) == Message(h2) {
      MessageReadBack(h1);
      MessageReadBack(h2);
    }
  }

  /** The message of every hit, in order. */
  function Render(hs: seq<Hit>): (r: seq<string>)
    ensures |r| == |hs|
    ensures forall k :: 0 <= k < |hs| ==> r[k] == Message(hs[k])
  {
    seq(|hs|, k requires 0 <= k < |hs| => Message(hs[k]))
  }

  lemma RenderSnoc(hs: seq<Hit>, h: Hit)
    ensures Render(hs + [h]) == Render(hs) + [Message(h)]
  {
  }

  /** The hits one alert gets, in segment order. */
  function AlertHits(a: Alert, data: seq<Segment>): seq<Hit>
  {
    if data == [] then []
    else
      var s := data[|data| - 1];
      AlertHits(a, data[..|data| - 1]) + (if Fires(a, s) then [Hit(a, s.weight)] else [])
  }

  /** The hits of all alerts, alerts outer and segments inner. */
  function Hits(alerts: seq<Alert>, data: seq<Segment>): seq<Hit>
  {
    if alerts == [] then []
    else Hits(alerts[..|alerts| - 1], data) + AlertHits(alerts[|alerts| - 1], data)
  }

  /** One alert is hit iff it fires on some segment, with that segment's
      weight. */
  lemma {:induction false} AlertHitsMembers(a: Alert, data: seq<Segment>)
    ensures forall h :: h in AlertHits(a, data) <==>
      exists j :: 0 <= j < |data| && Fires(a, data[j]) && h == Hit(a, data[j].weight)
  {
    if data != [] {
      var init := data[..|data| - 1];
      AlertHitsMembers(a, init);
      forall h ensures h in AlertHits(a, data) <==>
        exists j :: 0 <= j < |data| && Fires(a, data[j]) && h == Hit(a, data[j].weight)
      {
        if h in AlertHits(a, init) {
          var j :| 0 <= j < |init| && Fires(a, init[j]) && h == Hit(a, init[j].weight);
          assert data[j] == init[j];
        }
        if exists j :: 0 <= j < |data| && Fires(a, data[j]) && h == Hit(a, data[j].weight) {
          var j :| 0 <= j < |data| && Fires(a, data[j]) && h == Hit(a, data[j].weight);
          if j < |init| {
            assert init[j] == data[j];
          }
        }
      }
    }
  }

  /** A hit is reported iff some stored alert fires on some segment, and it
      names that alert and that segment's weight; with no alerts stored,
      nothing is reported. */
  lemma HitsMembers(alerts: seq<Alert>, data: seq<Segment>)
    ensures forall h :: h in Hits(alerts, data) <==>
      exists i, j :: 0 <= i < |alerts| && 0 <= j < |data| &&
        Fires(alerts[i], data[j]) && h == Hit(alerts[i], data[j].weight)
  {
    forall h ensures h in Hits(alerts, data) <==>
      exists i, j :: 0 <= i < |alerts| && 0 <= j < |data| &&
        Fires(alerts[i], data[j]) && h == Hit(alerts[i], data[j].weight)
    {
      HitsAlerts(alerts, data, h);
      if h in Hits(alerts, data) {
        var i :| 0 <= i < |alerts| && h in AlertHits(alerts[i], data);
        AlertHitsMembers(alerts[i], data);
      }
      if exists i, j :: 0 <= i < |alerts| && 0 <= j < |data| &&
           Fires(alerts[i], data[j]) && h == Hit(alerts[i], data[j].weight) {
        var i, j :| 0 <= i < |alerts| && 0 <= j < |data| &&
          Fires(alerts[i], data[j]) && h == Hit(alerts[i], data[j].weight);
        AlertHitsMembers(alerts[i], data);
      }
    }
  }

  /** A hit comes from the hits of one of the stored alerts. */
  lemma {:induction false} HitsAlerts(alerts: seq<Alert>, data: seq<Segment>, h: Hit)
    ensures h in Hits(alerts, data) <==> exists i :: 0 <= i < |alerts| && h in AlertHits(alerts[i], data)
  {
    if alerts != [] {
      var init := alerts[..|alerts| - 1];
      var last := alerts[|alerts| - 1];
      HitsAlerts(init, data, h);
      if h in Hits(init, data) {
        var i :| 0 <= i < |init| && h in AlertHits(init[i], data);
        assert alerts[i] == init[i];
      }
      if h in AlertHits(last, data) {
        assert h in AlertHits(alerts[|alerts| - 1], data);
      }
      if exists i :: 0 <= i < |alerts| && h in AlertHits(alerts[i], data) {
        var i :| 0 <= i < |alerts| && h in AlertHits(alerts[i], data);
        if i < |init| {
          assert init[i] == alerts[i];
        }
      }
    }
  }

  /** Segments are scanned in order: the hits for `d1 + d2` are those for
      `d1` followed by those for `d2`. */
  lemma {:induction false} AlertHitsAppend(a: Alert, d1: seq<Segment>, d2: seq<Segment>)
    ensures AlertHits(a, d1 + d2) == AlertHits(a, d1) + AlertHits(a, d2)
    decreases |d2|
  {
    if d2 == [] {
      assert d1 + d2 == d1;
    } else {
      var init := d2[..|d2| - 1];
      AlertHitsAppend(a, d1, init);
      assert (d1 + d2)[..|d1 + d2| - 1] == d1 + init;
      assert (d1 + d2)[|d1 + d2| - 1] == d2[|d2| - 1];
    }
  }

  /** One segment hits an alert it fires, and nothing otherwise. */
  lemma AlertHitsSingle(a: Alert, s: Segment)
    ensures AlertHits(a, [s]) == if Fires(a, s) then [Hit(a, s.weight)] else []
  {
    assert [s][..0] == [];
  }

  /** Alerts are the outer loop: the hits for `a1 + a2` are those for `a1`
      followed by those for `a2`. */
  lemma {:induction false} HitsAppend(a1: seq<Alert>, a2: seq<Alert>, data: seq<Segment>)
    ensures Hits(a1 + a2, data) == Hits(a1, data) + Hits(a2, data)
    decreases |a2|
  {
    if a2 == [] {
      assert a1 + a2 == a1;
    } else {
      var init := a2[..|a2| - 1];
      HitsAppend(a1, init, data);
      assert (a1 + a2)[..|a1 + a2| - 1] == a1 + init;
      assert (a1 + a2)[|a1 + a2| - 1] == a2[|a2| - 1];
    }
  }

  lemma HitsSingle(a: Alert, data: seq<Segment>)
    ensures Hits([a], data) == AlertHits(a, data)
  {
    assert [a][..0] == [];
  }

  lemma AlertHitsStep(a: Alert, data: seq<Segment>, j: nat)
    requires j < |data|
    ensures AlertHits(a, data[..j + 1]) ==
      AlertHits(a, data[..j]) + (if Fires(a, data[j]) then [Hit(a, data[j].weight)] else [])
  {
    assert data[..j + 1][..j] == data[..j];
  }

  lemma HitsStep(alerts: seq<Alert>, data: seq<Segment>, i: nat)
    requires i < |alerts|
    ensures Hits(alerts[..i + 1], data) == Hits(alerts[..i], data) + AlertHits(alerts[i], data)
  {
    assert alerts[..i + 1][..i] == alerts[..i];
  }

  // ---------------------------------------------------------------------
  // The alert store
  // ---------------------------------------------------------------------

  /** The contents of the alert file. */
  class AlertStore {
    var alerts: seq<Alert>

    /** No alert file yet: `load_alerts` gives `[]`. */
    constructor()
      ensures alerts == []
    {
      alerts := [];
    }

    /** `add_alert`: appends the pair unless it is already stored, and
        says whether it did. */
    method AddAlert(from: Node, to: Node) returns (added: bool)
      modifies this
      ensures added <==> Alert(from, to) !in old(alerts)
      ensures alerts == WithAlert(old(alerts), Alert(from, to))
    {
      var a := Alert(from, to);
      if a !in alerts {
        alerts := alerts + [a];
        added := true;
      } else {
        added := false;
      }
    }

    /** `remove_alert`: keeps the non-matching alerts and says whether any
        alert was dropped. */
    method RemoveAlert(from: Node, to: Node) returns (removed: bool)
      modifies this
      ensures alerts == Without(old(alerts), from, to)
      ensures removed <==> exists i :: 0 <= i < |old(alerts)| && Matches(old(alerts)[i], from, to)
    {
      var before := alerts;
      alerts := Without(before, from, to);
      WithoutShorter(before, from, to);
      removed := |before| != |alerts|;
    }

    /** `list_alerts`. */
    method ListAlerts() returns (r: seq<Alert>)
      ensures r == alerts
    {
      r := alerts;
    }

    /** `check_alerts`: for every stored alert, for every segment, one
        message when the segment fires the alert. */
    method CheckAlerts(data: seq<Segment>) returns (triggered: seq<string>)
      ensures triggered == Render(Hits(alerts, data))
    {
      triggered := [];
      ghost var hits: seq<Hit> := [];
      for i := 0 to |alerts|
        invariant hits == Hits(alerts[..i], data)
        invariant triggered == Render(hits)
      {
        var alert := alerts[i];
        ghost var before := hits;
        for j := 0 to |data|
          invariant hits == before + AlertHits(alert, data[..j])
          invariant triggered == Render(hits)
        {
          var segment := data[j];
          AlertHitsStep(alert, data, j);
          if segment.from == alert.from && segment.to == alert.to && segment.weight >= ALERT_THRESHOLD {
            RenderSnoc(hits, Hit(alert, segment.weight));
            hits := hits + [Hit(alert, segment.weight)];
            triggered := triggered + [Message(Hit(alert, segment.weight))];
          }
        }
        assert data[..|data|] == data;
        HitsStep(alerts, data, i);
      }
      assert alerts[..|alerts|] == alerts;
    }
  }
}
