/**
 The suppression window is in data time: the time of a route counts, and the wall clock only for a route
 that has none.  So a replay and a live stream behave the same.
 */
module MonitorTimes {
  import opened Monitor
  import opened MonitorReports
  import opened MonitorRuns
  import opened Suppression

  /** The same routes, at the same clock where that is all there is. */
  predicate SameData(a: seq<Sighting>, b: seq<Sighting>) {
    && |a| == |b|
    && forall i :: 0 <= i < |a| ==> a[i].route == b[i].route && (a[i].route.time == 0 ==> a[i].clock == b[i].clock)
  }

  /** Two runs over the same data raise, emit and remember the same, whenever they are made.  If every
      route has a time, the clocks do not matter at all. */
  lemma {:induction false} ClocksDoNotMatter(
    cfg: Config, base: Baseline, table: Table, a: seq<Sighting>, b: seq<Sighting>)
    requires SameData(a, b)
    ensures AllRaised(cfg, base, a) == AllRaised(cfg, base, b)
    ensures AllEmitted(cfg, base, table, a) == AllEmitted(cfg, base, table, b)
    ensures EndOf(cfg, base, table, a) == EndOf(cfg, base, table, b)
    decreases |a|
  {
    if a != [] {
      var r, now := a[0].route, TimeOf(a[0].route, a[0].clock);
      assert now == TimeOf(b[0].route, b[0].clock);
      var after := Admit(cfg, table, Raw(cfg, base, r), now).1;
      ClocksDoNotMatter(cfg, NextBaseline(cfg, base, r), after, a[1..], b[1..]);
    }
  }

  /** Data time from one sighting to another. */
  function Elapsed(from: Sighting, to: Sighting): int {
    (if to.route.time == 0 then to.clock else to.route.time)
    - (if from.route.time == 0 then from.clock else from.route.time)
  }

  /** Earlier detections come from earlier sightings. */
  lemma SightingsInOrder(cfg: Config, run: seq<Sighting>, x: Raised, q: nat, k: nat, n: nat,
                         y: Raised, p: nat, l: nat, m: nat)
    requires RaisedFrom(cfg, run, x, q, k, n) && RaisedFrom(cfg, run, y, p, l, m) && q < p
    ensures k <= l
  {
    if l < k {
      RaisedAround(cfg, run, l);
      assert run[..k][..l + 1] == run[..l + 1];
      RaisedGrows(cfg, run[..k], l + 1);
    }
  }

  /** The q-th detection of a run, or an emitted one that it repeats. */
  lemma EmittedFor(cfg: Config, run: seq<Sighting>, raised: seq<Raised>, q: nat) returns (p: nat)
    requires raised == AllRaised(cfg, FRESH, run) && q < |raised|
    ensures p <= q && raised[p].event in AllEmitted(cfg, FRESH, map[], run)
    ensures KeyOf(cfg, raised[p].event) == KeyOf(cfg, raised[q].event)
    ensures p == q || 0 <= raised[q].now - raised[p].now < cfg.windowNs
  {
    p := q;
    if SuppressedAt(cfg.windowNs, Requests(cfg, raised), q) {
      NoAnomalyLost(cfg, run, q);
      p :| p < q && raised[p].event in AllEmitted(cfg, FRESH, map[], run)
           && KeyOf(cfg, raised[p].event) == KeyOf(cfg, raised[q].event)
           && 0 <= raised[q].now - raised[p].now < cfg.windowNs;
    } else {
      UnsuppressedIsEmitted(cfg, run, q);
    }
  }

  /** Detection n of sighting k is emitted, or it repeats an emitted one of the same anomaly, of a sighting
      no later in the run, at most now and less than a window before in data time. */
  lemma NoSightingLost(cfg: Config, run: seq<Sighting>, k: nat, n: nat) returns (e: Event, j: nat, m: nat)
    requires k < |run| && n < |DetectedAt(cfg, run, k)|
    ensures e in AllEmitted(cfg, FRESH, map[], run) && StemsFrom(cfg, run, e, j, m) && j <= k
    ensures KeyOf(cfg, e) == KeyOf(cfg, DetectedAt(cfg, run, k)[n])
    ensures (j, m) == (k, n) || 0 <= Elapsed(run[j], run[k]) < cfg.windowNs
  {
    var raised := AllRaised(cfg, FRESH, run);
    var q := DetectionIsRaised(cfg, run, k, n);
    var p := EmittedFor(cfg, run, raised, q);
    e := raised[p].event;
    if p == q {
      j, m := k, n;
    } else {
      assert run[..|run|] == run;
      j, m := RaisedIsDetection(cfg, run, |run|, p);
      SightingsInOrder(cfg, run, raised[p], p, j, m, raised[q], q, k, n);
    }
  }

  predicate DataInOrder(run: seq<Sighting>) {
    forall i, j :: 0 <= i < j < |run| ==> Elapsed(run[i], run[j]) >= 0
  }

  /** On a run in the order of its data that never clears, two emitted events of one anomaly come from
      sightings at least a window of data time apart. */
  lemma ReportsAreSpaced(cfg: Config, run: seq<Sighting>, k: nat, l: nat) returns (i: nat, n: nat, j: nat, m: nat)
    requires DataInOrder(run) && NeverClears(cfg.windowNs, Requests(cfg, AllRaised(cfg, FRESH, run)))
    requires cfg.windowNs > 0 && k < l < |AllEmitted(cfg, FRESH, map[], run)|
    requires KeyOf(cfg, AllEmitted(cfg, FRESH, map[], run)[k]) == KeyOf(cfg, AllEmitted(cfg, FRESH, map[], run)[l])
    ensures StemsFrom(cfg, run, AllEmitted(cfg, FRESH, map[], run)[k], i, n)
    ensures StemsFrom(cfg, run, AllEmitted(cfg, FRESH, map[], run)[l], j, m)
    ensures i <= j && Elapsed(run[i], run[j]) >= cfg.windowNs
  {
    assert InOrder(run) by {
      forall a, b | 0 <= a < b < |run|
        ensures TimeOf(run[a].route, run[a].clock) <= TimeOf(run[b].route, run[b].clock)
      {
        assert Elapsed(run[a], run[b]) >= 0;
      }
    }
    var raised := AllRaised(cfg, FRESH, run);
    var at := Passing(cfg, raised);
    EmittedEventsAreSpaced(cfg, run, k, l);
    EmittedIsSubsequence(cfg, run);
    assert run[..|run|] == run;
    i, n := RaisedIsDetection(cfg, run, |run|, at[k]);
    j, m := RaisedIsDetection(cfg, run, |run|, at[l]);
    SightingsInOrder(cfg, run, raised[at[k]], at[k], i, n, raised[at[l]], at[l], j, m);
  }
}
