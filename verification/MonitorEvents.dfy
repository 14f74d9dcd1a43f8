/**
 What an event says is true: its verdict is that of the loaded ROAs, its origin that of its path, its
 expected origins those of the matched prefix, and it speaks of an earlier origin only if it reports a
 change.  Over every run, from any state.
 */
module MonitorEvents {
  import opened Wrappers
  import opened Networks
  import opened RouteOrigin
  import opened Monitor
  import opened MonitorRuns

  function Loaded(cfg: Config): seq<Roa> { if cfg.vrp.Some? then cfg.vrp.value else [] }

  ghost predicate SomeCovers(roas: seq<Roa>, net: Network) { exists r :: r in roas && Covers(r.network, net) }

  ghost predicate SomeAuthorises(roas: seq<Roa>, net: Network, origin: int) {
    exists r :: r in roas && Covers(r.network, net) && net.len <= r.maxLength && r.asn == origin
  }

  /** Each of the four verdicts, and when it is given. */
  ghost predicate TrueVerdict(roas: seq<Roa>, net: Network, origin: int, status: Status) {
    && (status == Valid <==> SomeAuthorises(roas, net, origin))
    && (status == Invalid <==> SomeCovers(roas, net) && !SomeAuthorises(roas, net, origin))
    && (status == NotFound <==> roas != [] && !SomeCovers(roas, net))
    && (status == Unknown <==> roas == [])
  }

  lemma StatusIsTrue(cfg: Config, route: Route)
    requires cfg.parse(route.prefix).Some?
    ensures TrueVerdict(Loaded(cfg), cfg.parse(route.prefix).value, OriginAsn(route.path), StatusOf(cfg, route))
  {
    var roas, net, origin := Loaded(cfg), cfg.parse(route.prefix).value, OriginAsn(route.path);
    ValidateBySet(roas, net, origin);
    forall r ensures r in Payloads(roas) <==> r in roas {
    }
    if r :| r in roas && Covers(r.network, net) && net.len <= r.maxLength && r.asn == origin {
      assert r in Payloads(roas) && Authorises(r, net, origin);
    }
    if r :| r in roas && Covers(r.network, net) {
      assert r in Payloads(roas);
    }
  }

  ghost predicate TrueEvent(cfg: Config, e: Event) {
    && Match(cfg, e.prefix).Some? && cfg.parse(e.prefix).Some?
    && e.expectedOrigins == cfg.monitored[Match(cfg, e.prefix).value].expectedOrigins
    && e.newOrigin == (if e.newPath == [] then 0 else e.newPath[|e.newPath| - 1])
    && (e.kind != OriginChange ==> e.oldOrigin == 0 && e.oldPath == [])
    && TrueVerdict(Loaded(cfg), cfg.parse(e.prefix).value, e.newOrigin, e.status)
  }

  ghost predicate AllTrue(cfg: Config, events: seq<Event>) { forall e :: e in events ==> TrueEvent(cfg, e) }

  lemma TrueWhen(cfg: Config, events: seq<Event>, b: bool, e: Event)
    requires AllTrue(cfg, events) && TrueEvent(cfg, e)
    ensures AllTrue(cfg, events + When(b, e))
  {
  }

  lemma RawIsTrue(cfg: Config, base: Baseline, route: Route)
    ensures AllTrue(cfg, Raw(cfg, base, route))
  {
    if Match(cfg, route.prefix).Some? {
      var mp, status := cfg.monitored[Match(cfg, route.prefix).value], StatusOf(cfg, route);
      StatusIsTrue(cfg, route);
      var change := ChangeEvent(mp, status, base, route);
      assert TrueEvent(cfg, change);
      TrueWhen(cfg, [], Changed(base, route), change);
      var e1 := [] + When(Changed(base, route), change);
      TrueWhen(cfg, e1, Unexpected(mp, route), Plain(PossibleHijack, mp, status, route));
      var e2 := e1 + When(Unexpected(mp, route), Plain(PossibleHijack, mp, status, route));
      TrueWhen(cfg, e2, Leaks(mp, route.path), Plain(PossibleLeak, mp, status, route));
      var e3 := e2 + When(Leaks(mp, route.path), Plain(PossibleLeak, mp, status, route));
      TrueWhen(cfg, e3, status == Invalid, Plain(RpkiInvalid, mp, status, route));
      assert e1 == When(Changed(base, route), change);
    }
  }

  ghost predicate AllRaisedTrue(cfg: Config, raised: seq<Raised>) {
    forall x :: x in raised ==> TrueEvent(cfg, x.event)
  }

  /** Every detection of every run is true. */
  lemma {:induction false} RaisedAreTrue(cfg: Config, base: Baseline, run: seq<Sighting>)
    ensures AllRaisedTrue(cfg, AllRaised(cfg, base, run))
    decreases |run|
  {
    if run != [] {
      var s := run[0];
      var events, next := Raw(cfg, base, s.route), NextBaseline(cfg, base, s.route);
      RawIsTrue(cfg, base, s.route);
      RaisedAreTrue(cfg, next, run[1..]);
      var tagged := Tag(events, TimeOf(s.route, s.clock));
      forall x | x in tagged ensures TrueEvent(cfg, x.event) {
        var i :| 0 <= i < |tagged| && tagged[i] == x;
        assert events[i] in events;
      }
    }
  }

  lemma {:induction false} SurvivorsAreRaised(cfg: Config, table: Table, raised: seq<Raised>)
    requires AllRaisedTrue(cfg, raised)
    ensures AllTrue(cfg, Survivors(cfg, table, raised).0)
    decreases |raised|
  {
    if raised != [] {
      assert raised[0] in raised;
      SurvivorsAreRaised(cfg, Survivor(cfg, table, raised[0]).1, raised[1..]);
    }
  }

  /** Every event of every run is true, whatever the monitor remembered before it. */
  lemma EmittedAreTrue(cfg: Config, base: Baseline, table: Table, run: seq<Sighting>)
    ensures AllTrue(cfg, AllEmitted(cfg, base, table, run))
  {
    RaisedAreTrue(cfg, base, run);
    EmittedAreSurvivors(cfg, base, table, run);
    SurvivorsAreRaised(cfg, table, AllRaised(cfg, base, run));
  }
}
