/**
 What a run reports, end to end: an anomaly (a kind, a prefix text, and an origin or the leaked networks)
 reaches the output if and only if some sighting of the run shows it.  Suppression decides how often it is
 reported, never whether.
 */
module MonitorReports {
  import opened Wrappers
  import opened Networks
  import opened RouteOrigin
  import opened Monitor
  import opened MonitorRuns
  import opened Suppression

  /** Sighting k shows an anomaly of this kind, in terms of the run, the configuration and the ROAs alone. */
  ghost predicate Shows(cfg: Config, run: seq<Sighting>, k: nat, kind: Kind)
    requires k < |run|
  {
    var route := run[k].route;
    var origin := OriginAsn(route.path);
    && Match(cfg, route.prefix).Some?
    && var mp := cfg.monitored[Match(cfg, route.prefix).value];
    match kind
    case OriginChange =>
      exists j :: LastOf(run[..k], route.prefix, j) && OriginAsn(run[j].route.path) != origin
    case PossibleHijack => mp.expectedOrigins != [] && origin !in mp.expectedOrigins
    case PossibleLeak => exists i :: 0 <= i < |route.path| - 1 && route.path[i] in mp.noTransit
    case RpkiInvalid => OriginRefused(cfg, cfg.parse(route.prefix).value, origin)
  }

  /** What sighting k raises, against the baseline left by the sightings before it. */
  function DetectedAt(cfg: Config, run: seq<Sighting>, k: nat): seq<Event>
    requires k < |run|
  {
    Raw(cfg, BaselineAfter(cfg, run[..k]), run[k].route)
  }

  lemma ShowsIffRaises(cfg: Config, run: seq<Sighting>, k: nat, kind: Kind)
    requires k < |run|
    ensures Shows(cfg, run, k, kind) <==> Raises(DetectedAt(cfg, run, k), kind)
  {
    var route, base := run[k].route, BaselineAfter(cfg, run[..k]);
    if Match(cfg, route.prefix).Some? {
      DetectionsAreExact(cfg, base, route, Match(cfg, route.prefix).value);
      OriginChangeIsAdjacent(cfg, run, k);
    }
  }

  /** The detections of a run are those of its sightings, each against the baseline left by the ones
      before it. */
  lemma RaisedAround(cfg: Config, run: seq<Sighting>, k: nat)
    requires k < |run|
    ensures AllRaised(cfg, FRESH, run[..k + 1])
         == AllRaised(cfg, FRESH, run[..k]) + Tag(DetectedAt(cfg, run, k), TimeOf(run[k].route, run[k].clock))
  {
    var s := run[k];
    assert run[..k + 1] == run[..k] + [s] && [s][1..] == [];
    RunInPieces(cfg, FRESH, map[], run[..k], [s]);
    RunBaseline(cfg, run[..k]);
    var tagged := Tag(DetectedAt(cfg, run, k), TimeOf(s.route, s.clock));
    assert tagged + [] == tagged;
  }

  lemma RaisedGrows(cfg: Config, run: seq<Sighting>, k: nat)
    requires k <= |run|
    ensures AllRaised(cfg, FRESH, run[..k]) <= AllRaised(cfg, FRESH, run)
  {
    assert run == run[..k] + run[k..];
    RunInPieces(cfg, FRESH, map[], run[..k], run[k..]);
  }

  /** The event is detection n of sighting k. */
  ghost predicate StemsFrom(cfg: Config, run: seq<Sighting>, e: Event, k: nat, n: nat) {
    k < |run| && n < |DetectedAt(cfg, run, k)| && e == DetectedAt(cfg, run, k)[n]
  }

  /** Data time: that of the route, and the clock exactly for a route without one. */
  predicate Stamped(s: Sighting, now: int) { now == if s.route.time == 0 then s.clock else s.route.time }

  /** Detection n of sighting k is the q-th of the run, raised at the data time of that sighting. */
  ghost predicate RaisedFrom(cfg: Config, run: seq<Sighting>, x: Raised, q: nat, k: nat, n: nat) {
    && StemsFrom(cfg, run, x.event, k, n) && Stamped(run[k], x.now)
    && q == |AllRaised(cfg, FRESH, run[..k])| + n
  }

  lemma DetectionIsRaised(cfg: Config, run: seq<Sighting>, k: nat, n: nat) returns (q: nat)
    requires k < |run| && n < |DetectedAt(cfg, run, k)|
    ensures q < |AllRaised(cfg, FRESH, run)| && RaisedFrom(cfg, run, AllRaised(cfg, FRESH, run)[q], q, k, n)
  {
    RaisedAround(cfg, run, k);
    RaisedGrows(cfg, run, k + 1);
    q := |AllRaised(cfg, FRESH, run[..k])| + n;
    assert AllRaised(cfg, FRESH, run)[q] == AllRaised(cfg, FRESH, run[..k + 1])[q];
  }

  lemma {:induction false} RaisedIsDetection(cfg: Config, run: seq<Sighting>, m: nat, q: nat)
    returns (k: nat, n: nat)
    requires m <= |run| && q < |AllRaised(cfg, FRESH, run[..m])|
    ensures RaisedFrom(cfg, run, AllRaised(cfg, FRESH, run[..m])[q], q, k, n)
    decreases m
  {
    assert m > 0;
    var last := m - 1;
    var earlier := AllRaised(cfg, FRESH, run[..last]);
    var tagged := Tag(DetectedAt(cfg, run, last), TimeOf(run[last].route, run[last].clock));
    RaisedAround(cfg, run, last);
    assert AllRaised(cfg, FRESH, run[..m]) == earlier + tagged;
    if q < |earlier| {
      k, n := RaisedIsDetection(cfg, run, last, q);
    } else {
      k, n := last, q - |earlier|;
      assert (earlier + tagged)[q] == tagged[n];
    }
  }

  /** Every detection of a run is reported, in the sense of suppression: an event with its key is emitted. */
  lemma DetectionIsReported(cfg: Config, run: seq<Sighting>, k: nat, n: nat) returns (e: Event)
    requires k < |run| && n < |DetectedAt(cfg, run, k)|
    ensures e in AllEmitted(cfg, FRESH, map[], run)
    ensures KeyOf(cfg, e) == KeyOf(cfg, DetectedAt(cfg, run, k)[n])
  {
    var q := DetectionIsRaised(cfg, run, k, n);
    var raised := AllRaised(cfg, FRESH, run);
    if SuppressedAt(cfg.windowNs, Requests(cfg, raised), q) {
      NoAnomalyLost(cfg, run, q);
      var j :| 0 <= j < q && raised[j].event in AllEmitted(cfg, FRESH, map[], run)
            && KeyOf(cfg, raised[j].event) == KeyOf(cfg, raised[q].event);
      e := raised[j].event;
    } else {
      UnsuppressedIsEmitted(cfg, run, q);
      e := raised[q].event;
    }
  }

  lemma EmittedIsRaised(cfg: Config, run: seq<Sighting>, e: Event) returns (q: nat)
    requires e in AllEmitted(cfg, FRESH, map[], run)
    ensures q < |AllRaised(cfg, FRESH, run)| && AllRaised(cfg, FRESH, run)[q].event == e
  {
    var raised := AllRaised(cfg, FRESH, run);
    RunEmitsTheUnsuppressed(cfg, run);
    PassingInOrder(cfg, raised);
    var p :| 0 <= p < |Unsuppressed(cfg, raised)| && Unsuppressed(cfg, raised)[p] == e;
    q := Passing(cfg, raised)[p];
  }

  /** Every emitted event is a detection of the run. */
  lemma ReportIsDetection(cfg: Config, run: seq<Sighting>, e: Event) returns (k: nat, n: nat)
    requires e in AllEmitted(cfg, FRESH, map[], run)
    ensures StemsFrom(cfg, run, e, k, n)
  {
    var q := EmittedIsRaised(cfg, run, e);
    assert run[..|run|] == run;
    k, n := RaisedIsDetection(cfg, run, |run|, q);
  }

  /** The hops before the last that must not transit, in the order of the path. */
  function LeakList(path: seq<int>, noTransit: seq<int>): seq<int> {
    if |path| <= 1 then []
    else (if path[0] in noTransit then [path[0]] else []) + LeakList(path[1..], noTransit)
  }

  lemma {:induction false} AmongIsLeakList(path: seq<int>, noTransit: seq<int>)
    ensures Among(Transit(path), noTransit) == LeakList(path, noTransit)
  {
    if |path| > 1 {
      AmongIsLeakList(path[1..], noTransit);
      assert Transit(path)[0] == path[0] && Transit(path)[1..] == Transit(path[1..]);
    }
  }

  /** What tells two anomalies of one kind and prefix apart: the leaked networks, or the origin. */
  function DetailOf(cfg: Config, route: Route, kind: Kind): Detail {
    var i := Match(cfg, route.prefix);
    if kind == PossibleLeak then
      Leaked(LeakList(route.path, if i.Some? then cfg.monitored[i.value].noTransit else []))
    else if route.path == [] then Asn(0)
    else Asn(route.path[|route.path| - 1])
  }

  lemma DetectedKeys(cfg: Config, run: seq<Sighting>, k: nat, n: nat)
    requires k < |run| && n < |DetectedAt(cfg, run, k)|
    ensures var e, route := DetectedAt(cfg, run, k)[n], run[k].route;
            KeyOf(cfg, e) == Key(route.prefix, e.kind, DetailOf(cfg, route, e.kind))
  {
    var base, route := BaselineAfter(cfg, run[..k]), run[k].route;
    AmongIsLeakList(route.path, NoTransitOf(cfg, route.prefix));
    AtMostFourEvents(cfg, base, route);
    DetectNamesOrigin(cfg.monitored[Match(cfg, route.prefix).value], StatusOf(cfg, route), base, route);
  }

  predicate NamesOrigin(events: seq<Event>, origin: int) {
    forall n :: 0 <= n < |events| ==> events[n].newOrigin == origin
  }

  lemma AddNaming(events: seq<Event>, b: bool, e: Event, origin: int)
    requires NamesOrigin(events, origin) && e.newOrigin == origin
    ensures NamesOrigin(events + When(b, e), origin)
  {
  }

  lemma DetectNamesOrigin(mp: Monitored, status: Status, base: Baseline, route: Route)
    ensures NamesOrigin(Detect(mp, status, base, route), OriginAsn(route.path))
  {
    var origin := OriginAsn(route.path);
    var e1 := When(Changed(base, route), ChangeEvent(mp, status, base, route));
    var e2 := e1 + When(Unexpected(mp, route), Plain(PossibleHijack, mp, status, route));
    var e3 := e2 + When(Leaks(mp, route.path), Plain(PossibleLeak, mp, status, route));
    AddNaming(e1, Unexpected(mp, route), Plain(PossibleHijack, mp, status, route), origin);
    AddNaming(e2, Leaks(mp, route.path), Plain(PossibleLeak, mp, status, route), origin);
    AddNaming(e3, status == Invalid, Plain(RpkiInvalid, mp, status, route), origin);
  }

  predicate Reports(cfg: Config, events: seq<Event>, key: Key) {
    exists e :: e in events && KeyOf(cfg, e) == key
  }

  ghost predicate ShownAt(cfg: Config, run: seq<Sighting>, k: nat, key: Key)
    requires k < |run|
  {
    && run[k].route.prefix == key.prefix && DetailOf(cfg, run[k].route, key.kind) == key.detail
    && Shows(cfg, run, k, key.kind)
  }

  /** Nothing is missed and nothing is invented, over every run: in any order of times, through every
      repeat and every clear of the table, an anomaly is reported exactly if some sighting shows it. */
  lemma ReportedIffShown(cfg: Config, run: seq<Sighting>, key: Key)
    ensures Reports(cfg, AllEmitted(cfg, FRESH, map[], run), key)
       <==> exists k :: 0 <= k < |run| && ShownAt(cfg, run, k, key)
  {
    var out := AllEmitted(cfg, FRESH, map[], run);
    if e :| e in out && KeyOf(cfg, e) == key {
      var k, n := ReportIsDetection(cfg, run, e);
      DetectedKeys(cfg, run, k, n);
      ShowsIffRaises(cfg, run, k, key.kind);
      assert ShownAt(cfg, run, k, key);
    }
    if k :| 0 <= k < |run| && ShownAt(cfg, run, k, key) {
      ShowsIffRaises(cfg, run, k, key.kind);
      var n :| 0 <= n < |DetectedAt(cfg, run, k)| && DetectedAt(cfg, run, k)[n].kind == key.kind;
      DetectedKeys(cfg, run, k, n);
      var e := DetectionIsReported(cfg, run, k, n);
    }
  }
}
