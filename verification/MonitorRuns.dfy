/**
 Whole runs of the monitor: what the match means, what every observation keeps, how prefixes do not
 interfere, and what suppression does to the stream of events.
 */
module MonitorRuns {
  import opened Basics
  import opened Wrappers
  import opened Networks
  import opened RouteOrigin
  import opened Monitor
  import opened Suppression

  // ---- Most-specific match ----

  /** Monitored prefix i covers the network; all others that do are shorter, or the same network
      configured later. */
  predicate MostSpecific(monitored: seq<Monitored>, net: Network, i: nat) {
    && i < |monitored| && Covers(monitored[i].network, net)
    && forall j :: 0 <= j < |monitored| && Covers(monitored[j].network, net) ==>
         monitored[j].network.len < monitored[i].network.len
         || (monitored[j].network == monitored[i].network && i <= j)
  }

  lemma {:induction false} MatchUpToIsMostSpecific(monitored: seq<Monitored>, net: Network, n: nat)
    requires n <= |monitored|
    ensures var best := MatchUpTo(monitored, net, n);
            if best.Some? then MostSpecific(monitored[..n], net, best.value)
            else forall j :: 0 <= j < n ==> !Covers(monitored[j].network, net)
  {
    if n > 0 {
      MatchUpToIsMostSpecific(monitored, net, n - 1);
      var before := MatchUpTo(monitored, net, n - 1);
      var last := monitored[n - 1].network;
      if Covers(last, net) && before.Some? {
        assert Covers(monitored[..n - 1][before.value].network, net);
        CoveringNetworksNest(last, monitored[before.value].network, net);
      }
      forall j | 0 <= j < n - 1 ensures monitored[..n][j] == monitored[..n - 1][j] {
      }
    }
  }

  /** The match is the longest monitored prefix covering the announcement, the first configured one
      on ties, and there is none exactly when nothing covers it. */
  lemma MatchIsLongestPrefix(cfg: Config, prefix: string)
    ensures match Match(cfg, prefix)
            case Some(i) =>
              cfg.parse(prefix).Some? && MostSpecific(cfg.monitored, cfg.parse(prefix).value, i)
            case None =>
              cfg.parse(prefix).Some? ==>
                forall j :: 0 <= j < |cfg.monitored| ==> !Covers(cfg.monitored[j].network, cfg.parse(prefix).value)
  {
    if cfg.parse(prefix).Some? {
      MatchUpToIsMostSpecific(cfg.monitored, cfg.parse(prefix).value, |cfg.monitored|);
      assert cfg.monitored[..|cfg.monitored|] == cfg.monitored;
    }
  }

  // ---- One observation ----

  predicate DistinctKinds(events: seq<Event>) {
    forall i, j :: 0 <= i < j < |events| ==> events[i].kind != events[j].kind
  }

  predicate About(events: seq<Event>, route: Route) {
    forall i :: 0 <= i < |events| ==> events[i].prefix == route.prefix && events[i].newPath == route.path
  }

  /** The order in which one observation raises its events. */
  function Rank(k: Kind): nat {
    match k case OriginChange => 0 case PossibleHijack => 1 case PossibleLeak => 2 case RpkiInvalid => 3
  }

  /** Events about the route, in strictly increasing rank, all below r. */
  predicate Ranked(events: seq<Event>, route: Route, r: nat) {
    && About(events, route) && |events| <= r
    && (forall i :: 0 <= i < |events| ==> Rank(events[i].kind) < r)
    && forall i, j :: 0 <= i < j < |events| ==> Rank(events[i].kind) < Rank(events[j].kind)
  }

  lemma AddWhen(events: seq<Event>, route: Route, r: nat, b: bool, e: Event)
    requires Ranked(events, route, r) && Rank(e.kind) == r && e.prefix == route.prefix && e.newPath == route.path
    ensures Ranked(events + When(b, e), route, r + 1)
  {
  }

  lemma DetectIsRanked(mp: Monitored, status: Status, base: Baseline, route: Route)
    ensures Ranked(Detect(mp, status, base, route), route, 4)
  {
    var e1 := When(Changed(base, route), ChangeEvent(mp, status, base, route));
    var e2 := e1 + When(Unexpected(mp, route), Plain(PossibleHijack, mp, status, route));
    var e3 := e2 + When(Leaks(mp, route.path), Plain(PossibleLeak, mp, status, route));
    assert Ranked(e1, route, 1);
    AddWhen(e1, route, 1, Unexpected(mp, route), Plain(PossibleHijack, mp, status, route));
    AddWhen(e2, route, 2, Leaks(mp, route.path), Plain(PossibleLeak, mp, status, route));
    AddWhen(e3, route, 3, status == Invalid, Plain(RpkiInvalid, mp, status, route));
  }

  /** One observation raises at most four events, all about the route's prefix, no two of one kind. */
  lemma AtMostFourEvents(cfg: Config, base: Baseline, route: Route)
    ensures |Raw(cfg, base, route)| <= 4
    ensures DistinctKinds(Raw(cfg, base, route)) && About(Raw(cfg, base, route), route)
  {
    if Match(cfg, route.prefix).Some? {
      DetectIsRanked(cfg.monitored[Match(cfg, route.prefix).value], StatusOf(cfg, route), base, route);
    }
  }

  lemma KeysAreDistinct(cfg: Config, base: Baseline, route: Route, i: nat, j: nat)
    requires i < j < |Raw(cfg, base, route)|
    ensures KeyOf(cfg, Raw(cfg, base, route)[i]) != KeyOf(cfg, Raw(cfg, base, route)[j])
  {
    AtMostFourEvents(cfg, base, route);
  }

  predicate Raises(events: seq<Event>, kind: Kind) {
    exists k :: 0 <= k < |events| && events[k].kind == kind
  }

  lemma RaisesWhen(events: seq<Event>, b: bool, e: Event, kind: Kind)
    ensures Raises(events + When(b, e), kind) <==> Raises(events, kind) || (b && e.kind == kind)
  {
    if k :| 0 <= k < |events| && events[k].kind == kind {
      assert (events + When(b, e))[k].kind == kind;
    }
    if b && e.kind == kind {
      assert (events + When(b, e))[|events|].kind == kind;
    }
  }

  lemma DetectRaises(mp: Monitored, status: Status, base: Baseline, route: Route, kind: Kind)
    ensures Raises(Detect(mp, status, base, route), kind)
       <==> match kind
            case OriginChange => Changed(base, route)
            case PossibleHijack => Unexpected(mp, route)
            case PossibleLeak => Leaks(mp, route.path)
            case RpkiInvalid => status == Invalid
  {
    var e1 := When(Changed(base, route), ChangeEvent(mp, status, base, route));
    var e2 := e1 + When(Unexpected(mp, route), Plain(PossibleHijack, mp, status, route));
    var e3 := e2 + When(Leaks(mp, route.path), Plain(PossibleLeak, mp, status, route));
    assert Raises(e1, kind) <==> Changed(base, route) && kind == OriginChange by {
      if Changed(base, route) { assert e1[0].kind == OriginChange; }
    }
    RaisesWhen(e1, Unexpected(mp, route), Plain(PossibleHijack, mp, status, route), kind);
    RaisesWhen(e2, Leaks(mp, route.path), Plain(PossibleLeak, mp, status, route), kind);
    RaisesWhen(e3, status == Invalid, Plain(RpkiInvalid, mp, status, route), kind);
  }

  /** Some loaded ROA covers the announcement and none authorises its origin at its length. */
  ghost predicate OriginRefused(cfg: Config, net: Network, origin: int) {
    && cfg.vrp.Some?
    && (exists r :: r in cfg.vrp.value && Covers(r.network, net))
    && !exists r :: r in cfg.vrp.value && Authorises(r, net, origin)
  }

  /** When each of the other three detections is raised, in terms of the route, the matched prefix and
      the loaded ROAs alone. */
  lemma DetectionsAreExact(cfg: Config, base: Baseline, route: Route, i: nat)
    requires Match(cfg, route.prefix) == Some(i)
    ensures var events, mp := Raw(cfg, base, route), cfg.monitored[i];
            && (Raises(events, PossibleHijack)
                <==> mp.expectedOrigins != [] && OriginAsn(route.path) !in mp.expectedOrigins)
            && (Raises(events, PossibleLeak)
                <==> exists k :: 0 <= k < |route.path| - 1 && route.path[k] in mp.noTransit)
            && (Raises(events, RpkiInvalid)
                <==> OriginRefused(cfg, cfg.parse(route.prefix).value, OriginAsn(route.path)))
  {
    var mp, status := cfg.monitored[i], StatusOf(cfg, route);
    DetectRaises(mp, status, base, route, PossibleHijack);
    DetectRaises(mp, status, base, route, PossibleLeak);
    DetectRaises(mp, status, base, route, RpkiInvalid);
    InvalidMeansRefused(cfg, route);
    LeaksMidPath(mp, route.path);
  }

  lemma LeaksMidPath(mp: Monitored, path: seq<int>)
    ensures Leaks(mp, path) <==> exists k :: 0 <= k < |path| - 1 && path[k] in mp.noTransit
  {
    if k :| 0 <= k < |path| - 1 && path[k] in mp.noTransit {
      assert Transit(path)[k] in mp.noTransit;
    }
  }

  lemma InvalidMeansRefused(cfg: Config, route: Route)
    requires cfg.parse(route.prefix).Some?
    ensures StatusOf(cfg, route) == Invalid
       <==> OriginRefused(cfg, cfg.parse(route.prefix).value, OriginAsn(route.path))
  {
    if cfg.vrp.Some? {
      ValidateBySet(cfg.vrp.value, cfg.parse(route.prefix).value, OriginAsn(route.path));
      assert forall r :: r in Payloads(cfg.vrp.value) <==> r in cfg.vrp.value;
    }
  }

  lemma {:induction false} AmongMembers(hops: seq<int>, banned: seq<int>)
    ensures forall a :: a in Among(hops, banned) <==> a in hops && a in banned
  {
    if hops != [] {
      AmongMembers(hops[1..], banned);
      assert hops == [hops[0]] + hops[1..];
    }
  }

  lemma LeakEventMeansLeak(mp: Monitored, status: Status, base: Baseline, route: Route, k: nat)
    requires k < |Detect(mp, status, base, route)| && Detect(mp, status, base, route)[k].kind == PossibleLeak
    ensures Leaks(mp, route.path)
  {
  }

  /** Re-matching the prefix of a leak event gives a detail that is not empty and names exactly the
      no-transit ASes the path goes through. */
  lemma LeakDetailNamesTheLeaked(cfg: Config, base: Baseline, route: Route, k: nat)
    requires k < |Raw(cfg, base, route)| && Raw(cfg, base, route)[k].kind == PossibleLeak
    ensures var i := Match(cfg, route.prefix).value;
            var detail := KeyOf(cfg, Raw(cfg, base, route)[k]).detail;
            && detail.Leaked? && detail.asns != []
            && forall a :: a in detail.asns <==> a in Transit(route.path) && a in cfg.monitored[i].noTransit
  {
    AtMostFourEvents(cfg, base, route);
    var mp := cfg.monitored[Match(cfg, route.prefix).value];
    LeakEventMeansLeak(mp, StatusOf(cfg, route), base, route, k);
    LeakKeyNamesTheLeaked(cfg, Raw(cfg, base, route)[k], mp);
  }

  lemma LeakKeyNamesTheLeaked(cfg: Config, e: Event, mp: Monitored)
    requires e.kind == PossibleLeak && NoTransitOf(cfg, e.prefix) == mp.noTransit && Leaks(mp, e.newPath)
    ensures var detail := KeyOf(cfg, e).detail;
            && detail.Leaked? && detail.asns != []
            && forall a :: a in detail.asns <==> a in Transit(e.newPath) && a in mp.noTransit
  {
    AmongMembers(Transit(e.newPath), mp.noTransit);
    var i :| 0 <= i < |Transit(e.newPath)| && Transit(e.newPath)[i] in mp.noTransit;
    var a := Transit(e.newPath)[i];
    assert a in Transit(e.newPath) && a in mp.noTransit;
    assert a in Among(Transit(e.newPath), mp.noTransit);
  }

  // ---- Runs ----

  datatype Sighting = Sighting(route: Route, clock: int)

  /** An event and the data time it was raised at. */
  datatype Raised = Raised(event: Event, now: int)

  function Tag(events: seq<Event>, now: int): (r: seq<Raised>)
    ensures |r| == |events|
    ensures forall i :: 0 <= i < |r| ==> r[i] == Raised(events[i], now)
  {
    if events == [] then [] else [Raised(events[0], now)] + Tag(events[1..], now)
  }

  /** All detections of a run, before suppression. */
  function AllRaised(cfg: Config, base: Baseline, run: seq<Sighting>): seq<Raised>
    decreases |run|
  {
    if run == [] then []
    else
      var s := run[0];
      Tag(Raw(cfg, base, s.route), TimeOf(s.route, s.clock))
      + AllRaised(cfg, NextBaseline(cfg, base, s.route), run[1..])
  }

  /** All events a run emits. */
  function AllEmitted(cfg: Config, base: Baseline, table: Table, run: seq<Sighting>): seq<Event>
    decreases |run|
  {
    if run == [] then []
    else
      var s := run[0];
      var (kept, after) := Admit(cfg, table, Raw(cfg, base, s.route), TimeOf(s.route, s.clock));
      kept + AllEmitted(cfg, NextBaseline(cfg, base, s.route), after, run[1..])
  }

  // ---- Suppression over a run ----

  function Requests(cfg: Config, raised: seq<Raised>): (reqs: seq<Request>)
    ensures |reqs| == |raised|
    ensures forall i :: 0 <= i < |reqs| ==> reqs[i] == Request(KeyOf(cfg, raised[i].event), raised[i].now)
  {
    if raised == [] then []
    else
      var n := |raised| - 1;
      Requests(cfg, raised[..n]) + [Request(KeyOf(cfg, raised[n].event), raised[n].now)]
  }

  /** Events of a stream that the table lets through, by position. */
  function Unsuppressed(cfg: Config, raised: seq<Raised>): seq<Event> {
    if raised == [] then []
    else
      var n := |raised| - 1;
      Unsuppressed(cfg, raised[..n])
      + if SuppressedAt(cfg.windowNs, Requests(cfg, raised), n) then [] else [raised[n].event]
  }

  /** The same, followed forward from a given table. */
  function Survivors(cfg: Config, table: Table, raised: seq<Raised>): (seq<Event>, Table)
    decreases |raised|
  {
    if raised == [] then ([], table)
    else
      var (first, t) := Survivor(cfg, table, raised[0]);
      var (later, after) := Survivors(cfg, t, raised[1..]);
      (first + later, after)
  }

  function Survivor(cfg: Config, table: Table, x: Raised): (seq<Event>, Table) {
    var key := KeyOf(cfg, x.event);
    (if Repeats(cfg.windowNs, table, key, x.now) then [] else [x.event], Remember(cfg.windowNs, table, key, x.now))
  }

  lemma {:induction false} SurvivorsInPieces(cfg: Config, table: Table, a: seq<Raised>, b: seq<Raised>)
    ensures var (first, t) := Survivors(cfg, table, a);
            var (later, after) := Survivors(cfg, t, b);
            Survivors(cfg, table, a + b) == (first + later, after)
    decreases |a|
  {
    if a == [] {
      assert a + b == b;
      assert [] + Survivors(cfg, table, b).0 == Survivors(cfg, table, b).0;
    } else {
      var (x, t) := Survivor(cfg, table, a[0]);
      SurvivorsInPieces(cfg, t, a[1..], b);
      assert (a + b)[0] == a[0] && (a + b)[1..] == a[1..] + b;
      Assoc(x, Survivors(cfg, t, a[1..]).0, Survivors(cfg, Survivors(cfg, t, a[1..]).1, b).0);
    }
  }

  lemma {:induction false} AdmitIsSurvivors(cfg: Config, table: Table, events: seq<Event>, now: int)
    ensures Admit(cfg, table, events, now) == Survivors(cfg, table, Tag(events, now))
    decreases |events|
  {
    if events != [] {
      var tagged := Tag(events, now);
      var (x, t) := Survivor(cfg, table, tagged[0]);
      assert tagged[1..] == Tag(events[1..], now);
      AdmitIsSurvivors(cfg, t, events[1..], now);
      if x == [] { assert x + Admit(cfg, t, events[1..], now).0 == Admit(cfg, t, events[1..], now).0; }
    }
  }

  lemma {:induction false} EmittedAreSurvivors(cfg: Config, base: Baseline, table: Table, run: seq<Sighting>)
    ensures AllEmitted(cfg, base, table, run) == Survivors(cfg, table, AllRaised(cfg, base, run)).0
    decreases |run|
  {
    if run != [] {
      var s := run[0];
      var now, events, next := TimeOf(s.route, s.clock), Raw(cfg, base, s.route), NextBaseline(cfg, base, s.route);
      AdmitIsSurvivors(cfg, table, events, now);
      EmittedAreSurvivors(cfg, next, Admit(cfg, table, events, now).1, run[1..]);
      SurvivorsInPieces(cfg, table, Tag(events, now), AllRaised(cfg, next, run[1..]));
    }
  }

  lemma {:induction false} SurvivorsAreUnsuppressed(cfg: Config, raised: seq<Raised>)
    ensures Survivors(cfg, map[], raised)
         == (Unsuppressed(cfg, raised), TableAfter(cfg.windowNs, Requests(cfg, raised)))
    decreases |raised|
  {
    if raised != [] {
      var n := |raised| - 1;
      var x := raised[n];
      SurvivorsAreUnsuppressed(cfg, raised[..n]);
      SurvivorsInPieces(cfg, map[], raised[..n], [x]);
      assert raised == raised[..n] + [x];
      assert Requests(cfg, raised)[..n] == Requests(cfg, raised[..n]);
      var table := TableAfter(cfg.windowNs, Requests(cfg, raised[..n]));
      JustOne(cfg, table, x);
    }
  }

  lemma JustOne(cfg: Config, table: Table, x: Raised)
    ensures Survivors(cfg, table, [x]) == Survivor(cfg, table, x)
  {
    assert [x][1..] == [];
    assert Survivor(cfg, table, x).0 + [] == Survivor(cfg, table, x).0;
  }

  const FRESH := Baseline(map[], map[])

  /** A run of the monitor emits exactly the detections that the suppression table lets through, in
      the order they were raised. */
  lemma RunEmitsTheUnsuppressed(cfg: Config, run: seq<Sighting>)
    ensures AllEmitted(cfg, FRESH, map[], run) == Unsuppressed(cfg, AllRaised(cfg, FRESH, run))
  {
    EmittedAreSurvivors(cfg, FRESH, map[], run);
    SurvivorsAreUnsuppressed(cfg, AllRaised(cfg, FRESH, run));
  }

  /** Positions of a stream that are not suppressed, in order. */
  function Passing(cfg: Config, raised: seq<Raised>): seq<nat> {
    if raised == [] then []
    else
      var n := |raised| - 1;
      Passing(cfg, raised[..n]) + if SuppressedAt(cfg.windowNs, Requests(cfg, raised), n) then [] else [n]
  }

  lemma RequestsPrefix(cfg: Config, raised: seq<Raised>, n: nat)
    requires n <= |raised|
    ensures Requests(cfg, raised[..n]) == Requests(cfg, raised)[..n]
  {
  }

  lemma {:induction false} PassingMembers(cfg: Config, raised: seq<Raised>, p: nat)
    ensures p in Passing(cfg, raised) <==> p < |raised| && !SuppressedAt(cfg.windowNs, Requests(cfg, raised), p)
  {
    if raised != [] {
      var n := |raised| - 1;
      var reqs := Requests(cfg, raised);
      PassingMembers(cfg, raised[..n], p);
      RequestsPrefix(cfg, raised, n);
      if p < n { assert reqs[..n][..p] == reqs[..p]; }
    }
  }

  lemma {:induction false} PassingInOrder(cfg: Config, raised: seq<Raised>)
    ensures var at, out := Passing(cfg, raised), Unsuppressed(cfg, raised);
            && |at| == |out|
            && (forall k :: 0 <= k < |at| ==> at[k] < |raised| && out[k] == raised[at[k]].event)
            && (forall k, l :: 0 <= k < l < |at| ==> at[k] < at[l])
  {
    if raised != [] {
      PassingInOrder(cfg, raised[..|raised| - 1]);
    }
  }

  /** The emitted stream is the raised stream at exactly the positions that are not suppressed, in
      their order: a subsequence, with nothing else dropped. */
  lemma EmittedIsSubsequence(cfg: Config, run: seq<Sighting>)
    ensures var raised, out := AllRaised(cfg, FRESH, run), AllEmitted(cfg, FRESH, map[], run);
            var at := Passing(cfg, raised);
            && |at| == |out|
            && (forall k :: 0 <= k < |at| ==> at[k] < |raised| && out[k] == raised[at[k]].event)
            && (forall k, l :: 0 <= k < l < |at| ==> at[k] < at[l])
            && (forall p: nat :: p in at <==> p < |raised| && !SuppressedAt(cfg.windowNs, Requests(cfg, raised), p))
  {
    var raised := AllRaised(cfg, FRESH, run);
    RunEmitsTheUnsuppressed(cfg, run);
    PassingInOrder(cfg, raised);
    forall p: nat
      ensures p in Passing(cfg, raised) <==> p < |raised| && !SuppressedAt(cfg.windowNs, Requests(cfg, raised), p)
    {
      PassingMembers(cfg, raised, p);
    }
  }

  lemma UnsuppressedIsEmitted(cfg: Config, run: seq<Sighting>, j: nat)
    requires var raised := AllRaised(cfg, FRESH, run);
             j < |raised| && !SuppressedAt(cfg.windowNs, Requests(cfg, raised), j)
    ensures AllRaised(cfg, FRESH, run)[j].event in AllEmitted(cfg, FRESH, map[], run)
  {
    var raised := AllRaised(cfg, FRESH, run);
    RunEmitsTheUnsuppressed(cfg, run);
    PassingInOrder(cfg, raised);
    PassingMembers(cfg, raised, j);
    var at := Passing(cfg, raised);
    var k :| 0 <= k < |at| && at[k] == j;
    assert Unsuppressed(cfg, raised)[k] == raised[j].event;
  }

  /** No anomaly is lost silently.  In every run of the monitor, a detection that is not emitted
      repeats one with the same key that was, raised at most now and less than a window before. */
  lemma NoAnomalyLost(cfg: Config, run: seq<Sighting>, i: nat)
    requires var raised := AllRaised(cfg, FRESH, run);
             i < |raised| && SuppressedAt(cfg.windowNs, Requests(cfg, raised), i)
    ensures var raised := AllRaised(cfg, FRESH, run);
            exists j :: 0 <= j < i
                        && j in Passing(cfg, raised) && raised[j].event in AllEmitted(cfg, FRESH, map[], run)
                        && KeyOf(cfg, raised[j].event) == KeyOf(cfg, raised[i].event)
                        && 0 <= raised[i].now - raised[j].now < cfg.windowNs
  {
    var raised := AllRaised(cfg, FRESH, run);
    var reqs := Requests(cfg, raised);
    SuppressedRepeatsEmitted(cfg.windowNs, reqs, i);
    var j: nat, time :| j < i && EmittedAt(cfg.windowNs, reqs, j, reqs[i].key, time)
                     && 0 <= reqs[i].now - time < cfg.windowNs;
    UnsuppressedIsEmitted(cfg, run, j);
    PassingMembers(cfg, raised, j);
  }

  // ---- The state a run leaves behind ----

  /** Baseline and suppression table after a run. */
  function EndOf(cfg: Config, base: Baseline, table: Table, run: seq<Sighting>): (Baseline, Table)
    decreases |run|
  {
    if run == [] then (base, table)
    else
      var s := run[0];
      var after := Admit(cfg, table, Raw(cfg, base, s.route), TimeOf(s.route, s.clock)).1;
      EndOf(cfg, NextBaseline(cfg, base, s.route), after, run[1..])
  }

  /** Two runs one after the other are one run: detections, emitted events and state. */
  lemma {:induction false} RunInPieces(cfg: Config, base: Baseline, table: Table, a: seq<Sighting>, b: seq<Sighting>)
    ensures var (mid, kept) := EndOf(cfg, base, table, a);
            && AllRaised(cfg, base, a + b) == AllRaised(cfg, base, a) + AllRaised(cfg, mid, b)
            && AllEmitted(cfg, base, table, a + b) == AllEmitted(cfg, base, table, a) + AllEmitted(cfg, mid, kept, b)
            && EndOf(cfg, base, table, a + b) == EndOf(cfg, mid, kept, b)
    decreases |a|
  {
    if a == [] {
      assert a + b == b;
      assert [] + AllRaised(cfg, base, b) == AllRaised(cfg, base, b);
      assert [] + AllEmitted(cfg, base, table, b) == AllEmitted(cfg, base, table, b);
    } else {
      var s := a[0];
      assert (a + b)[0] == s && (a + b)[1..] == a[1..] + b;
      var now, events, next := TimeOf(s.route, s.clock), Raw(cfg, base, s.route), NextBaseline(cfg, base, s.route);
      var (kept, after) := Admit(cfg, table, events, now);
      RunInPieces(cfg, next, after, a[1..], b);
      var (mid, end) := EndOf(cfg, next, after, a[1..]);
      Assoc(Tag(events, now), AllRaised(cfg, next, a[1..]), AllRaised(cfg, mid, b));
      Assoc(kept, AllEmitted(cfg, next, after, a[1..]), AllEmitted(cfg, mid, end, b));
    }
  }

  lemma {:induction false} EndTableIsSurvivors(cfg: Config, base: Baseline, table: Table, run: seq<Sighting>)
    ensures EndOf(cfg, base, table, run).1 == Survivors(cfg, table, AllRaised(cfg, base, run)).1
    decreases |run|
  {
    if run != [] {
      var s := run[0];
      var now, events, next := TimeOf(s.route, s.clock), Raw(cfg, base, s.route), NextBaseline(cfg, base, s.route);
      AdmitIsSurvivors(cfg, table, events, now);
      EndTableIsSurvivors(cfg, next, Admit(cfg, table, events, now).1, run[1..]);
      SurvivorsInPieces(cfg, table, Tag(events, now), AllRaised(cfg, next, run[1..]));
    }
  }

  /** The table a monitor holds after a run is that of the requests its detections made. */
  lemma RunTable(cfg: Config, run: seq<Sighting>)
    ensures EndOf(cfg, FRESH, map[], run).1 == TableAfter(cfg.windowNs, Requests(cfg, AllRaised(cfg, FRESH, run)))
  {
    EndTableIsSurvivors(cfg, FRESH, map[], run);
    SurvivorsAreUnsuppressed(cfg, AllRaised(cfg, FRESH, run));
  }

  lemma {:induction false} AdmitStaysBounded(cfg: Config, table: Table, events: seq<Event>, now: int)
    requires |table| <= 100_000
    ensures |Admit(cfg, table, events, now).1| <= 100_000
    decreases |events|
  {
    if events != [] {
      var key := KeyOf(cfg, events[0]);
      RememberStaysBounded(cfg.windowNs, table, key, now);
      AdmitStaysBounded(cfg, Remember(cfg.windowNs, table, key, now), events[1..], now);
    }
  }

  /** No run takes the monitor's table past its bound. */
  lemma {:induction false} RunStaysBounded(cfg: Config, base: Baseline, table: Table, run: seq<Sighting>)
    requires |table| <= 100_000
    ensures |EndOf(cfg, base, table, run).1| <= 100_000
    decreases |run|
  {
    if run != [] {
      var s := run[0];
      var events, now := Raw(cfg, base, s.route), TimeOf(s.route, s.clock);
      AdmitStaysBounded(cfg, table, events, now);
      RunStaysBounded(cfg, NextBaseline(cfg, base, s.route), Admit(cfg, table, events, now).1, run[1..]);
    }
  }

  // ---- Runs in the order of their times ----

  predicate InOrder(run: seq<Sighting>) {
    forall i, j :: 0 <= i < j < |run| ==> TimeOf(run[i].route, run[i].clock) <= TimeOf(run[j].route, run[j].clock)
  }

  /** Raised in order, from a given time on. */
  predicate From(raised: seq<Raised>, start: int) {
    && (forall i :: 0 <= i < |raised| ==> start <= raised[i].now)
    && (forall i, j :: 0 <= i < j < |raised| ==> raised[i].now <= raised[j].now)
  }

  lemma JoinInOrder(a: seq<Raised>, b: seq<Raised>, start: int, now: int)
    requires start <= now && (forall i :: 0 <= i < |a| ==> a[i].now == now) && From(b, now)
    ensures From(a + b, start)
  {
  }

  /** The detections of a run in order are in order. */
  lemma {:induction false} RaisedInOrder(cfg: Config, base: Baseline, run: seq<Sighting>, start: int)
    requires InOrder(run) && (run != [] ==> start <= TimeOf(run[0].route, run[0].clock))
    ensures From(AllRaised(cfg, base, run), start)
    decreases |run|
  {
    if run != [] {
      var now := TimeOf(run[0].route, run[0].clock);
      LaterInOrder(run);
      RaisedInOrder(cfg, NextBaseline(cfg, base, run[0].route), run[1..], now);
      JoinInOrder(Tag(Raw(cfg, base, run[0].route), now),
                  AllRaised(cfg, NextBaseline(cfg, base, run[0].route), run[1..]), start, now);
    }
  }

  lemma LaterInOrder(run: seq<Sighting>)
    requires InOrder(run) && run != []
    ensures InOrder(run[1..])
    ensures run[1..] != [] ==> TimeOf(run[0].route, run[0].clock) <= TimeOf(run[1..][0].route, run[1..][0].clock)
  {
  }

  lemma RequestsInOrder(cfg: Config, run: seq<Sighting>)
    requires InOrder(run)
    ensures Ordered(Requests(cfg, AllRaised(cfg, FRESH, run)))
  {
    if run != [] { RaisedInOrder(cfg, FRESH, run, TimeOf(run[0].route, run[0].clock)); }
  }

  /** The detections a table that never evicts would let through. */
  function UnsuppressedByFull(cfg: Config, raised: seq<Raised>): seq<Event> {
    if raised == [] then []
    else
      var n := |raised| - 1;
      UnsuppressedByFull(cfg, raised[..n])
      + if SuppressedByFull(cfg.windowNs, Requests(cfg, raised), n) then [] else [raised[n].event]
  }

  lemma {:induction false} BothLetThrough(cfg: Config, raised: seq<Raised>)
    requires Ordered(Requests(cfg, raised)) && NeverClears(cfg.windowNs, Requests(cfg, raised))
    ensures Unsuppressed(cfg, raised) == UnsuppressedByFull(cfg, raised)
  {
    if raised != [] {
      var n := |raised| - 1;
      RequestsPrefix(cfg, raised, n);
      PrefixFacts(cfg.windowNs, Requests(cfg, raised), n);
      BothLetThrough(cfg, raised[..n]);
      BoundedRefinesFull(cfg.windowNs, Requests(cfg, raised), n);
    }
  }

  /** A monitor that sees routes in the order of their times, and never clears its table, emits exactly
      what one with unbounded memory would emit. */
  lemma BoundedMonitorRefinesFull(cfg: Config, run: seq<Sighting>)
    requires InOrder(run) && NeverClears(cfg.windowNs, Requests(cfg, AllRaised(cfg, FRESH, run)))
    ensures AllEmitted(cfg, FRESH, map[], run) == UnsuppressedByFull(cfg, AllRaised(cfg, FRESH, run))
  {
    RequestsInOrder(cfg, run);
    RunEmitsTheUnsuppressed(cfg, run);
    BothLetThrough(cfg, AllRaised(cfg, FRESH, run));
  }

  /** Two events with one key that such a monitor emits are at least a window apart. */
  lemma EmittedEventsAreSpaced(cfg: Config, run: seq<Sighting>, k: nat, l: nat)
    requires InOrder(run) && NeverClears(cfg.windowNs, Requests(cfg, AllRaised(cfg, FRESH, run))) && cfg.windowNs > 0
    requires k < l < |AllEmitted(cfg, FRESH, map[], run)|
    requires KeyOf(cfg, AllEmitted(cfg, FRESH, map[], run)[k]) == KeyOf(cfg, AllEmitted(cfg, FRESH, map[], run)[l])
    ensures var raised := AllRaised(cfg, FRESH, run);
            var at := Passing(cfg, raised);
            && |at| == |AllEmitted(cfg, FRESH, map[], run)|
            && at[k] < |raised| && at[l] < |raised|
            && raised[at[l]].now - raised[at[k]].now >= cfg.windowNs
  {
    var raised := AllRaised(cfg, FRESH, run);
    var at := Passing(cfg, raised);
    RequestsInOrder(cfg, run);
    EmittedIsSubsequence(cfg, run);
    assert at[k] in at && at[l] in at;
    EmissionsAreSpaced(cfg.windowNs, Requests(cfg, raised), at[k], at[l]);
  }

  // ---- Prefixes do not interfere ----

  function Only(run: seq<Sighting>, prefix: string): seq<Sighting> {
    if run == [] then []
    else (if run[0].route.prefix == prefix then [run[0]] else []) + Only(run[1..], prefix)
  }

  function Naming(raised: seq<Raised>, prefix: string): seq<Raised> {
    if raised == [] then []
    else (if raised[0].event.prefix == prefix then [raised[0]] else []) + Naming(raised[1..], prefix)
  }

  predicate SameAt(a: Baseline, b: Baseline, prefix: string) {
    && (prefix in a.origin <==> prefix in b.origin) && (prefix in a.path <==> prefix in b.path)
    && (prefix in a.origin ==> a.origin[prefix] == b.origin[prefix])
    && (prefix in a.path ==> a.path[prefix] == b.path[prefix])
  }

  lemma {:induction false} NamingSum(a: seq<Raised>, b: seq<Raised>, prefix: string)
    ensures Naming(a + b, prefix) == Naming(a, prefix) + Naming(b, prefix)
    decreases |a|
  {
    if a == [] {
      assert a + b == b;
    } else {
      NamingSum(a[1..], b, prefix);
      assert (a + b)[0] == a[0] && (a + b)[1..] == a[1..] + b;
      var first := if a[0].event.prefix == prefix then [a[0]] else [];
      Assoc(first, Naming(a[1..], prefix), Naming(b, prefix));
    }
  }

  lemma {:induction false} NamingUniform(a: seq<Raised>, prefix: string, all: bool)
    requires forall i :: 0 <= i < |a| ==> (a[i].event.prefix == prefix) == all
    ensures Naming(a, prefix) == if all then a else []
  {
    if a != [] {
      NamingUniform(a[1..], prefix, all);
      assert a == [a[0]] + a[1..];
    }
  }

  /** The first sighting of a run contributes all of its detections or none. */
  lemma NamingFirst(cfg: Config, base: Baseline, run: seq<Sighting>, prefix: string,
                    first: seq<Raised>, later: seq<Raised>)
    requires run != [] && first == Tag(Raw(cfg, base, run[0].route), TimeOf(run[0].route, run[0].clock))
    requires later == AllRaised(cfg, NextBaseline(cfg, base, run[0].route), run[1..])
    ensures run[0].route.prefix == prefix ==> Naming(AllRaised(cfg, base, run), prefix) == first + Naming(later, prefix)
    ensures run[0].route.prefix != prefix ==> Naming(AllRaised(cfg, base, run), prefix) == Naming(later, prefix)
  {
    AtMostFourEvents(cfg, base, run[0].route);
    NamingSum(first, later, prefix);
    NamingUniform(first, prefix, run[0].route.prefix == prefix);
    assert [] + Naming(later, prefix) == Naming(later, prefix);
  }

  /** The detections that name a prefix text are those of the run reduced to that text. */
  lemma {:induction false} PrefixesDoNotInterfere(
    cfg: Config, a: Baseline, b: Baseline, run: seq<Sighting>, prefix: string)
    requires SameAt(a, b, prefix)
    ensures Naming(AllRaised(cfg, a, run), prefix) == AllRaised(cfg, b, Only(run, prefix))
    decreases |run|
  {
    if run != [] {
      var r := run[0].route;
      var first := Tag(Raw(cfg, a, r), TimeOf(r, run[0].clock));
      NamingFirst(cfg, a, run, prefix, first, AllRaised(cfg, NextBaseline(cfg, a, r), run[1..]));
      if r.prefix == prefix {
        assert Raw(cfg, a, r) == Raw(cfg, b, r);
        PrefixesDoNotInterfere(cfg, NextBaseline(cfg, a, r), NextBaseline(cfg, b, r), run[1..], prefix);
        assert Only(run, prefix)[0] == run[0] && Only(run, prefix)[1..] == Only(run[1..], prefix);
      } else {
        PrefixesDoNotInterfere(cfg, NextBaseline(cfg, a, r), b, run[1..], prefix);
        assert Only(run, prefix) == Only(run[1..], prefix);
      }
    }
  }

  // ---- Origin changes ----

  function BaselineAfter(cfg: Config, run: seq<Sighting>): Baseline {
    if run == [] then FRESH
    else NextBaseline(cfg, BaselineAfter(cfg, run[..|run| - 1]), run[|run| - 1].route)
  }

  lemma BaselineThen(cfg: Config, before: seq<Sighting>, s: Sighting)
    ensures EndOf(cfg, FRESH, map[], before + [s]).0
         == NextBaseline(cfg, EndOf(cfg, FRESH, map[], before).0, s.route)
  {
    RunInPieces(cfg, FRESH, map[], before, [s]);
    assert [s][1..] == [];
  }

  /** It is the baseline the monitor is left with. */
  lemma {:induction false} RunBaseline(cfg: Config, run: seq<Sighting>)
    ensures EndOf(cfg, FRESH, map[], run).0 == BaselineAfter(cfg, run)
    decreases |run|
  {
    if run != [] {
      var before, s := run[..|run| - 1], run[|run| - 1];
      RunBaseline(cfg, before);
      BaselineThen(cfg, before, s);
      assert run == before + [s];
    }
  }

  /** Sighting j is the last one of this text in the run. */
  predicate LastOf(run: seq<Sighting>, prefix: string, j: int) {
    && 0 <= j < |run| && run[j].route.prefix == prefix
    && forall k :: j < k < |run| ==> run[k].route.prefix != prefix
  }

  /** The baseline of a text is its last sighting, if the text is monitored and was seen. */
  lemma {:induction false} BaselineIsLastSighting(cfg: Config, run: seq<Sighting>, prefix: string)
    ensures var base := BaselineAfter(cfg, run);
            && (prefix in base.origin <==> Match(cfg, prefix).Some? && exists j :: LastOf(run, prefix, j))
            && (prefix in base.origin ==> prefix in base.path)
            && forall j :: LastOf(run, prefix, j) && prefix in base.origin ==>
                 base.origin[prefix] == OriginAsn(run[j].route.path) && base.path[prefix] == run[j].route.path
  {
    if run != [] {
      var n := |run| - 1;
      BaselineIsLastSighting(cfg, run[..n], prefix);
      if run[n].route.prefix == prefix {
        assert LastOf(run, prefix, n);
      } else {
        forall j ensures LastOf(run, prefix, j) <==> LastOf(run[..n], prefix, j) {
          if LastOf(run[..n], prefix, j) {
            forall k | j < k < |run| ensures run[k].route.prefix != prefix {
              if k < n { assert run[..n][k] == run[k]; }
            }
          }
        }
      }
    }
  }

  /** An origin change is raised at sighting i exactly when the text is monitored and its previous
      sighting had another origin, and it carries that sighting's origin and path. */
  lemma OriginChangeIsAdjacent(cfg: Config, run: seq<Sighting>, i: nat)
    requires i < |run|
    ensures var route := run[i].route;
            var events := Raw(cfg, BaselineAfter(cfg, run[..i]), route);
            && ((exists k :: 0 <= k < |events| && events[k].kind == OriginChange)
                <==> Match(cfg, route.prefix).Some?
                     && exists j :: LastOf(run[..i], route.prefix, j)
                                    && OriginAsn(run[j].route.path) != OriginAsn(route.path))
            && forall k, j :: 0 <= k < |events| && events[k].kind == OriginChange
                              && LastOf(run[..i], route.prefix, j) ==>
                 events[k].oldOrigin == OriginAsn(run[j].route.path) && events[k].oldPath == run[j].route.path
                 && events[k].newOrigin == OriginAsn(route.path) && events[k].newPath == route.path
  {
    var route := run[i].route;
    var base := BaselineAfter(cfg, run[..i]);
    var events := Raw(cfg, base, route);
    BaselineIsLastSighting(cfg, run[..i], route.prefix);
    if Match(cfg, route.prefix).Some? {
      var mp := cfg.monitored[Match(cfg, route.prefix).value];
      ChangeComesFirst(mp, StatusOf(cfg, route), base, route);
      if Changed(base, route) {
        var j :| LastOf(run[..i], route.prefix, j);
        assert run[..i][j] == run[j] && events[0].kind == OriginChange;
      }
      forall j | LastOf(run[..i], route.prefix, j) ensures run[..i][j] == run[j] {
      }
    }
  }

  lemma ChangeComesFirst(mp: Monitored, status: Status, base: Baseline, route: Route)
    ensures var events := Detect(mp, status, base, route);
            && (Changed(base, route) ==> events != [] && events[0] == ChangeEvent(mp, status, base, route))
            && forall k :: 0 <= k < |events| && events[k].kind == OriginChange ==> k == 0 && Changed(base, route)
  {
  }
}
