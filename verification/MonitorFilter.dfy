/**
 What loading only the ROAs that overlap the monitored prefixes does to a whole run of the monitor,
 compared with loading the complete export.
 */
module MonitorFilter {
  import opened Wrappers
  import opened Networks
  import opened RouteOrigin
  import opened Monitor
  import opened MonitorRuns

  function Nets(monitored: seq<Monitored>): (nets: seq<Network>)
    ensures |nets| == |monitored|
    ensures forall i :: 0 <= i < |nets| ==> nets[i] == monitored[i].network
  {
    if monitored == [] then [] else [monitored[0].network] + Nets(monitored[1..])
  }

  function WithRoas(cfg: Config, roas: seq<Roa>): Config { cfg.(vrp := Some(roas)) }

  /** The ROAs kept for this configuration. */
  function KeptRoas(cfg: Config, roas: seq<Roa>): seq<Roa> { Filtered(Nets(cfg.monitored), roas) }

  /** The kept set is non-empty, or there was nothing to keep from. */
  predicate Faithful(cfg: Config, roas: seq<Roa>) { KeptRoas(cfg, roas) != [] || roas == [] }

  lemma MatchedIsMonitored(cfg: Config, prefix: string)
    requires Match(cfg, prefix).Some?
    ensures cfg.parse(prefix).Some? && Monitors(Nets(cfg.monitored), cfg.parse(prefix).value)
  {
    MatchIsLongestPrefix(cfg, prefix);
    assert Covers(Nets(cfg.monitored)[Match(cfg, prefix).value], cfg.parse(prefix).value);
  }

  /** For every route the monitor looks at, the filtered set gives the verdict of the full export
      exactly when it is non-empty; otherwise it gives `unknown` for `not_found`.  INVALID is never
      gained or lost. */
  lemma StatusUnderFilter(cfg: Config, roas: seq<Roa>, route: Route)
    requires Match(cfg, route.prefix).Some?
    ensures var full, kept := StatusOf(WithRoas(cfg, roas), route), StatusOf(WithRoas(cfg, KeptRoas(cfg, roas)), route);
            && (kept == full <==> Faithful(cfg, roas))
            && (kept != full ==> kept == Unknown && full == NotFound)
  {
    MatchedIsMonitored(cfg, route.prefix);
    var ann := cfg.parse(route.prefix).value;
    FilterPreservesVerdicts(Nets(cfg.monitored), roas, ann, OriginAsn(route.path));
    FilterKeepsCovering(Nets(cfg.monitored), roas, ann);
  }

  lemma SameMatch(cfg: Config, roas: seq<Roa>, prefix: string)
    ensures Match(WithRoas(cfg, roas), prefix) == Match(cfg, prefix)
  {
  }

  /** An event without its verdict. */
  function Erase(e: Event): Event { e.(status := Unknown) }

  function EraseAll(events: seq<Event>): (r: seq<Event>)
    ensures |r| == |events|
    ensures forall i :: 0 <= i < |r| ==> r[i] == Erase(events[i])
  {
    if events == [] then [] else [Erase(events[0])] + EraseAll(events[1..])
  }

  lemma DetectUnderStatus(mp: Monitored, s: Status, t: Status, base: Baseline, route: Route)
    requires (s == Invalid) == (t == Invalid)
    ensures EraseAll(Detect(mp, s, base, route)) == EraseAll(Detect(mp, t, base, route))
  {
    var b1, b2, b3, b4 := Changed(base, route), Unexpected(mp, route), Leaks(mp, route.path), s == Invalid;
    var x1, y1 := ChangeEvent(mp, s, base, route), ChangeEvent(mp, t, base, route);
    var x2, y2 := Plain(PossibleHijack, mp, s, route), Plain(PossibleHijack, mp, t, route);
    var x3, y3 := Plain(PossibleLeak, mp, s, route), Plain(PossibleLeak, mp, t, route);
    var x4, y4 := Plain(RpkiInvalid, mp, s, route), Plain(RpkiInvalid, mp, t, route);
    EraseSum(When(b1, x1), When(b2, x2), When(b1, y1), When(b2, y2));
    EraseSum(When(b1, x1) + When(b2, x2), When(b3, x3), When(b1, y1) + When(b2, y2), When(b3, y3));
    EraseSum(When(b1, x1) + When(b2, x2) + When(b3, x3), When(b4, x4),
             When(b1, y1) + When(b2, y2) + When(b3, y3), When(b4, y4));
  }

  lemma EraseSum(a: seq<Event>, b: seq<Event>, a': seq<Event>, b': seq<Event>)
    requires EraseAll(a) == EraseAll(a') && EraseAll(b) == EraseAll(b')
    ensures EraseAll(a + b) == EraseAll(a' + b')
  {
    assert |a| == |EraseAll(a)| && |b| == |EraseAll(b)|;
    forall i | 0 <= i < |a + b| ensures EraseAll(a + b)[i] == EraseAll(a' + b')[i] {
      if i < |a| { assert Erase(a[i]) == EraseAll(a)[i]; } else { assert Erase(b[i - |a|]) == EraseAll(b)[i - |a|]; }
    }
  }

  /** One observation: the detections are the same but for their verdict field, and wholly the same
      exactly when the kept set is faithful or nothing was detected. */
  lemma RawUnderFilter(cfg: Config, roas: seq<Roa>, base: Baseline, route: Route)
    ensures var full, kept := Raw(WithRoas(cfg, roas), base, route),
                              Raw(WithRoas(cfg, KeptRoas(cfg, roas)), base, route);
            && EraseAll(kept) == EraseAll(full)
            && (kept == full <==> Faithful(cfg, roas) || full == [])
  {
    if Match(cfg, route.prefix).Some? {
      StatusUnderFilter(cfg, roas, route);
      var mp := cfg.monitored[Match(cfg, route.prefix).value];
      var s, t := StatusOf(WithRoas(cfg, roas), route), StatusOf(WithRoas(cfg, KeptRoas(cfg, roas)), route);
      SameMatch(cfg, roas, route.prefix);
      SameMatch(cfg, KeptRoas(cfg, roas), route.prefix);
      DetectUnderStatus(mp, s, t, base, route);
      SameOnlyIfSameStatus(mp, s, t, base, route);
    }
  }

  lemma SameOnlyIfSameStatus(mp: Monitored, s: Status, t: Status, base: Baseline, route: Route)
    ensures Detect(mp, t, base, route) == Detect(mp, s, base, route) ==> s == t || Detect(mp, s, base, route) == []
    ensures EraseAll(Detect(mp, t, base, route)) == EraseAll(Detect(mp, s, base, route)) ==>
              (Detect(mp, t, base, route) == [] <==> Detect(mp, s, base, route) == [])
  {
    CarriesStatus(mp, s, base, route);
    CarriesStatus(mp, t, base, route);
    var full, kept := Detect(mp, s, base, route), Detect(mp, t, base, route);
    assert |EraseAll(full)| == |full| && |EraseAll(kept)| == |kept|;
    if full != [] && full == kept { assert full[0].status == s && kept[0].status == t; }
  }

  lemma CarriesStatus(mp: Monitored, s: Status, base: Baseline, route: Route)
    ensures forall i :: 0 <= i < |Detect(mp, s, base, route)| ==> Detect(mp, s, base, route)[i].status == s
  {
  }

  lemma KeyIgnoresStatus(a: Config, b: Config, e: Event, f: Event)
    requires a.monitored == b.monitored && a.parse == b.parse && Erase(e) == Erase(f)
    ensures KeyOf(a, e) == KeyOf(b, f)
  {
    assert Match(a, e.prefix) == Match(b, f.prefix);
  }

  lemma {:induction false} AdmitIgnoresStatus(
    a: Config, b: Config, table: Table, es: seq<Event>, fs: seq<Event>, now: int)
    requires a.(vrp := None) == b.(vrp := None) && EraseAll(es) == EraseAll(fs)
    ensures Admit(a, table, es, now).1 == Admit(b, table, fs, now).1
    ensures EraseAll(Admit(a, table, es, now).0) == EraseAll(Admit(b, table, fs, now).0)
    decreases |es|
  {
    assert |EraseAll(es)| == |es| && |EraseAll(fs)| == |fs|;
    if es != [] {
      assert Erase(es[0]) == EraseAll(es)[0] && Erase(fs[0]) == EraseAll(fs)[0];
      KeyIgnoresStatus(a, b, es[0], fs[0]);
      var t := Remember(a.windowNs, table, KeyOf(a, es[0]), now);
      assert EraseAll(es)[1..] == EraseAll(es[1..]) && EraseAll(fs)[1..] == EraseAll(fs[1..]);
      AdmitIgnoresStatus(a, b, t, es[1..], fs[1..], now);
      assert EraseAll([es[0]]) == EraseAll([fs[0]]);
      EraseSum([es[0]], Admit(a, t, es[1..], now).0, [fs[0]], Admit(b, t, fs[1..], now).0);
    }
  }

  /** Whole runs: with the filtered export the monitor emits the events it would emit with the full
      one, in the same order, differing at most in the verdict field, and not even there exactly when the
      kept set is faithful or nothing is emitted. */
  lemma RunUnderFilter(cfg: Config, roas: seq<Roa>, base: Baseline, table: Table, run: seq<Sighting>)
    ensures var full, kept := WithRoas(cfg, roas), WithRoas(cfg, KeptRoas(cfg, roas));
            && EraseAll(AllEmitted(kept, base, table, run)) == EraseAll(AllEmitted(full, base, table, run))
            && (AllEmitted(kept, base, table, run) == AllEmitted(full, base, table, run)
                <==> Faithful(cfg, roas) || AllEmitted(full, base, table, run) == [])
  {
    RunSameButVerdicts(cfg, roas, base, table, run);
    var full, kept := WithRoas(cfg, roas), WithRoas(cfg, KeptRoas(cfg, roas));
    var ef, ek := AllEmitted(full, base, table, run), AllEmitted(kept, base, table, run);
    assert |EraseAll(ef)| == |ef| && |EraseAll(ek)| == |ek|;
    if !Faithful(cfg, roas) && ef != [] {
      RunVerdicts(full, base, table, run, NotFound, cfg, roas);
      RunVerdicts(kept, base, table, run, Unknown, cfg, roas);
      assert ef[0].status == NotFound && ek[0].status == Unknown;
    }
  }

  /** Every event carries this verdict. */
  predicate AllHave(events: seq<Event>, status: Status) {
    forall i :: 0 <= i < |events| ==> events[i].status == status
  }

  lemma {:induction false} AdmitKeepsVerdict(cfg: Config, table: Table, es: seq<Event>, now: int, status: Status)
    requires AllHave(es, status)
    ensures AllHave(Admit(cfg, table, es, now).0, status)
    decreases |es|
  {
    if es != [] {
      AdmitKeepsVerdict(cfg, Remember(cfg.windowNs, table, KeyOf(cfg, es[0]), now), es[1..], now, status);
    }
  }

  /** Over a run with an unfaithful set all events are marked alike: `not_found` with the full export,
      `unknown` with the kept one. */
  lemma {:induction false} RunVerdicts(c: Config, base: Baseline, table: Table, run: seq<Sighting>, status: Status,
                                       cfg: Config, roas: seq<Roa>)
    requires !Faithful(cfg, roas)
    requires (c == WithRoas(cfg, roas) && status == NotFound)
             || (c == WithRoas(cfg, KeptRoas(cfg, roas)) && status == Unknown)
    ensures AllHave(AllEmitted(c, base, table, run), status)
    decreases |run|
  {
    if run != [] {
      var s := run[0];
      var now, raw := TimeOf(s.route, s.clock), Raw(c, base, s.route);
      RawVerdict(c, base, s.route, status, cfg, roas);
      AdmitKeepsVerdict(c, table, raw, now, status);
      RunVerdicts(c, NextBaseline(c, base, s.route), Admit(c, table, raw, now).1, run[1..], status, cfg, roas);
    }
  }

  lemma RawVerdict(c: Config, base: Baseline, route: Route, status: Status, cfg: Config, roas: seq<Roa>)
    requires !Faithful(cfg, roas)
    requires (c == WithRoas(cfg, roas) && status == NotFound)
             || (c == WithRoas(cfg, KeptRoas(cfg, roas)) && status == Unknown)
    ensures AllHave(Raw(c, base, route), status)
  {
    if Match(cfg, route.prefix).Some? {
      StatusUnderFilter(cfg, roas, route);
      SameMatch(cfg, roas, route.prefix);
      SameMatch(cfg, KeptRoas(cfg, roas), route.prefix);
      CarriesStatus(cfg.monitored[Match(cfg, route.prefix).value], status, base, route);
    } else {
      SameMatch(cfg, roas, route.prefix);
      SameMatch(cfg, KeptRoas(cfg, roas), route.prefix);
    }
  }

  lemma {:induction false} RunSameButVerdicts(
    cfg: Config, roas: seq<Roa>, base: Baseline, table: Table, run: seq<Sighting>)
    ensures var full, kept := WithRoas(cfg, roas), WithRoas(cfg, KeptRoas(cfg, roas));
            && EraseAll(AllEmitted(kept, base, table, run)) == EraseAll(AllEmitted(full, base, table, run))
            && (Faithful(cfg, roas) ==> AllEmitted(kept, base, table, run) == AllEmitted(full, base, table, run))
    decreases |run|
  {
    if run != [] {
      var full, kept := WithRoas(cfg, roas), WithRoas(cfg, KeptRoas(cfg, roas));
      var s := run[0];
      var now := TimeOf(s.route, s.clock);
      var rf, rk := Raw(full, base, s.route), Raw(kept, base, s.route);
      RawUnderFilter(cfg, roas, base, s.route);
      AdmitIgnoresStatus(kept, full, table, rk, rf, now);
      SameMatch(cfg, roas, s.route.prefix);
      SameMatch(cfg, KeptRoas(cfg, roas), s.route.prefix);
      var next, after := NextBaseline(full, base, s.route), Admit(full, table, rf, now).1;
      assert next == NextBaseline(kept, base, s.route);
      RunSameButVerdicts(cfg, roas, next, after, run[1..]);
      EraseSum(Admit(kept, table, rk, now).0, AllEmitted(kept, next, after, run[1..]),
               Admit(full, table, rf, now).0, AllEmitted(full, next, after, run[1..]));
      if Faithful(cfg, roas) { AdmitSameConfig(kept, full, table, rf, now); }
    }
  }

  lemma {:induction false} AdmitSameConfig(a: Config, b: Config, table: Table, es: seq<Event>, now: int)
    requires a.(vrp := None) == b.(vrp := None)
    ensures Admit(a, table, es, now) == Admit(b, table, es, now)
    decreases |es|
  {
    if es != [] {
      KeyIgnoresStatus(a, b, es[0], es[0]);
      AdmitSameConfig(a, b, Remember(a.windowNs, table, KeyOf(a, es[0]), now), es[1..], now);
    }
  }

  /** The failing case is real: an export whose only ROA is elsewhere yields a hijack event marked
      `unknown` where the full export says `not_found`. */
  lemma EmptyKeptSetDegrades(cfg: Config, net: Network, roa: Roa, prefix: string)
    requires cfg.monitored == [Monitored(net, [1], [])] && cfg.parse(prefix) == Some(net)
    requires !RouteOrigin.Keep([net], roa.network)
    ensures var route := Route(prefix, [2], 1);
            var full, kept := Raw(WithRoas(cfg, [roa]), FRESH, route),
                              Raw(WithRoas(cfg, KeptRoas(cfg, [roa])), FRESH, route);
            && |full| == |kept| == 1 && full[0].kind == kept[0].kind == PossibleHijack
            && full[0].status == NotFound && kept[0].status == Unknown
  {
    var route := Route(prefix, [2], 1);
    assert Nets(cfg.monitored) == [net];
    assert !RouteOrigin.Keep([net], [roa][0].network) && Filtered([net], [roa][1..]) == [];
    assert KeptRoas(cfg, [roa]) == Filtered([net], [roa]) == [];
    MatchIsLongestPrefix(cfg, prefix);
    assert Covers(cfg.monitored[0].network, net);
    StatusUnderFilter(cfg, [roa], route);
    RawUnderFilter(cfg, [roa], FRESH, route);
    var mp := cfg.monitored[0];
    assert Match(cfg, prefix) == Some(0);
    assert !Changed(FRESH, route) && !Leaks(mp, route.path) && Unexpected(mp, route);
  }
}
