/**
 Per-prefix monitoring: most-specific matching, origin and path baselines, the four detections, and
 the bounded table that suppresses repeats.  The functions give the meaning of one observation; the
 class keeps the dictionaries and updates them in place, and is proved to compute those functions.
 */
module Monitor {
  import opened Wrappers
  import opened Networks
  import opened RouteOrigin

  const MAX_SUPPRESSION_KEYS := 100_000

  datatype Route = Route(prefix: string, path: seq<int>, time: int)

  datatype Monitored = Monitored(network: Network, expectedOrigins: seq<int>, noTransit: seq<int>)

  /** `parse` is `ip_network(text, strict=False)`; `vrp` is None when no export was loaded. */
  datatype Config = Config(
    monitored: seq<Monitored>, vrp: Option<seq<Roa>>, windowNs: int, parse: string -> Option<Network>)

  datatype Kind = OriginChange | PossibleHijack | PossibleLeak | RpkiInvalid

  datatype Event = Event(
    kind: Kind, prefix: string, newOrigin: int, oldOrigin: int, newPath: seq<int>, oldPath: seq<int>,
    expectedOrigins: seq<int>, status: Status)

  // ---- Most-specific match ----

  /** The running best after the first n monitored prefixes. */
  function MatchUpTo(monitored: seq<Monitored>, net: Network, n: nat): (best: Option<nat>)
    requires n <= |monitored|
    ensures best.Some? ==> best.value < n
  {
    if n == 0 then None
    else
      var best := MatchUpTo(monitored, net, n - 1);
      if Covers(monitored[n - 1].network, net)
         && (best.None? || monitored[n - 1].network.len > monitored[best.value].network.len)
      then Some(n - 1) else best
  }

  function Match(cfg: Config, prefix: string): (best: Option<nat>)
    ensures best.Some? ==> best.value < |cfg.monitored|
  {
    match cfg.parse(prefix)
    case None => None
    case Some(net) => MatchUpTo(cfg.monitored, net, |cfg.monitored|)
  }

  // ---- Detections ----

  /** Last origin and path per prefix text. */
  datatype Baseline = Baseline(origin: map<string, int>, path: map<string, seq<int>>)

  /** The hops before the origin. */
  function Transit(path: seq<int>): seq<int> {
    if path == [] then [] else path[..|path| - 1]
  }

  /** An export that kept no ROA counts as no export: an empty set is falsy. */
  function StatusOf(cfg: Config, route: Route): Status {
    if cfg.vrp.Some? && cfg.vrp.value != [] then
      Validate(cfg.vrp.value, cfg.parse(route.prefix), OriginAsn(route.path))
    else Unknown
  }

  predicate Leaks(mp: Monitored, path: seq<int>) {
    exists i :: 0 <= i < |Transit(path)| && Transit(path)[i] in mp.noTransit
  }

  function PriorPath(base: Baseline, prefix: string): seq<int> {
    if prefix in base.path then base.path[prefix] else []
  }

  /** An event with nothing but the route in it. */
  function Plain(kind: Kind, mp: Monitored, status: Status, route: Route): Event {
    Event(kind, route.prefix, OriginAsn(route.path), 0, route.path, [], mp.expectedOrigins, status)
  }

  function When(b: bool, e: Event): seq<Event> { if b then [e] else [] }

  /** The origin differs from the last sighting. */
  predicate Changed(base: Baseline, route: Route) {
    route.prefix in base.origin && base.origin[route.prefix] != OriginAsn(route.path)
  }

  function ChangeEvent(mp: Monitored, status: Status, base: Baseline, route: Route): Event {
    Plain(OriginChange, mp, status, route).(
      oldOrigin := if route.prefix in base.origin then base.origin[route.prefix] else 0,
      oldPath := PriorPath(base, route.prefix))
  }

  /** The origin is outside a non-empty allow-list. */
  predicate Unexpected(mp: Monitored, route: Route) {
    mp.expectedOrigins != [] && OriginAsn(route.path) !in mp.expectedOrigins
  }

  /** The events of one matched route, in the order they are raised. */
  function Detect(mp: Monitored, status: Status, base: Baseline, route: Route): seq<Event> {
    When(Changed(base, route), ChangeEvent(mp, status, base, route))
    + When(Unexpected(mp, route), Plain(PossibleHijack, mp, status, route))
    + When(Leaks(mp, route.path), Plain(PossibleLeak, mp, status, route))
    + When(status == Invalid, Plain(RpkiInvalid, mp, status, route))
  }

  function Raw(cfg: Config, base: Baseline, route: Route): seq<Event> {
    match Match(cfg, route.prefix)
    case None => []
    case Some(i) => Detect(cfg.monitored[i], StatusOf(cfg, route), base, route)
  }

  function NextBaseline(cfg: Config, base: Baseline, route: Route): Baseline {
    if Match(cfg, route.prefix).None? then base
    else Baseline(base.origin[route.prefix := OriginAsn(route.path)], base.path[route.prefix := route.path])
  }

  // ---- Repeat suppression ----

  datatype Detail = Asn(asn: int) | Leaked(asns: seq<int>)

  datatype Key = Key(prefix: string, kind: Kind, detail: Detail)

  function NoTransitOf(cfg: Config, prefix: string): seq<int> {
    match Match(cfg, prefix)
    case None => []
    case Some(i) => cfg.monitored[i].noTransit
  }

  function Among(hops: seq<int>, banned: seq<int>): seq<int> {
    if hops == [] then []
    else (if hops[0] in banned then [hops[0]] else []) + Among(hops[1..], banned)
  }

  function KeyOf(cfg: Config, e: Event): Key {
    Key(e.prefix, e.kind,
        if e.kind == PossibleLeak then Leaked(Among(Transit(e.newPath), NoTransitOf(cfg, e.prefix)))
        else Asn(e.newOrigin))
  }

  type Table = map<Key, int>

  /** An equal anomaly was emitted less than a window ago. */
  predicate Repeats(window: int, table: Table, key: Key, now: int) {
    window > 0 && key in table && 0 <= now - table[key] < window
  }

  function Live(window: int, table: Table, now: int): Table {
    map k | k in table && now - table[k] < window :: table[k]
  }

  /** Room for one more key: drop what has expired, or everything if nothing has. */
  function MakeRoom(window: int, table: Table, now: int): Table {
    if |table| < MAX_SUPPRESSION_KEYS then table
    else
      var live := Live(window, table, now);
      if |live| >= MAX_SUPPRESSION_KEYS then map[] else live
  }

  /** The table after a request. */
  function Remember(window: int, table: Table, key: Key, now: int): Table {
    if window <= 0 || Repeats(window, table, key, now) then table
    else MakeRoom(window, table, now)[key := now]
  }

  /** What is left of a batch of events raised at one data time, and the table after it. */
  function Admit(cfg: Config, table: Table, events: seq<Event>, now: int): (seq<Event>, Table)
    decreases |events|
  {
    if events == [] then ([], table)
    else
      var key := KeyOf(cfg, events[0]);
      var (kept, after) := Admit(cfg, Remember(cfg.windowNs, table, key, now), events[1..], now);
      (if Repeats(cfg.windowNs, table, key, now) then kept else [events[0]] + kept, after)
  }

  /** The data time of a route, or the clock when the route carries none. */
  function TimeOf(route: Route, clock: int): int {
    if route.time != 0 then route.time else clock
  }

  class PrefixMonitor {
    const cfg: Config

    var origin: map<string, int>
    var path: map<string, seq<int>>
    var lastEmitted: Table
    var suppressed: nat

    constructor (cfg: Config)
      ensures this.cfg == cfg && origin == map[] && path == map[] && lastEmitted == map[] && suppressed == 0
    {
      this.cfg := cfg;
      origin, path, lastEmitted, suppressed := map[], map[], map[], 0;
    }

    ghost function Base(): Baseline
      reads this
    {
      Baseline(origin, path)
    }

    method MatchPrefix(prefix: string) returns (best: Option<nat>)
      ensures best == Match(cfg, prefix)
    {
      var net := cfg.parse(prefix);
      if net.None? { return None; }
      best := None;
      var bestLen: int := -1;
      for i := 0 to |cfg.monitored|
        invariant best == MatchUpTo(cfg.monitored, net.value, i)
        invariant bestLen == if best.None? then -1 else cfg.monitored[best.value].network.len
      {
        var mon := cfg.monitored[i].network;
        if mon.version != net.value.version { continue; }
        if net.value.len >= mon.len && SubnetOf(net.value, mon) {
          if mon.len > bestLen {
            best, bestLen := Some(i), mon.len;
          }
        }
      }
    }

    method Suppress(key: Key, now: int) returns (repeat: bool)
      modifies this`lastEmitted, this`suppressed
      ensures repeat == Repeats(cfg.windowNs, old(lastEmitted), key, now)
      ensures lastEmitted == Remember(cfg.windowNs, old(lastEmitted), key, now)
      ensures suppressed == old(suppressed) + if repeat then 1 else 0
    {
      if cfg.windowNs <= 0 { return false; }
      if key in lastEmitted && 0 <= now - lastEmitted[key] < cfg.windowNs {
        suppressed := suppressed + 1;
        return true;
      }
      if |lastEmitted| >= MAX_SUPPRESSION_KEYS {
        lastEmitted := map k | k in lastEmitted && now - lastEmitted[k] < cfg.windowNs :: lastEmitted[k];
        if |lastEmitted| >= MAX_SUPPRESSION_KEYS {
          lastEmitted := map[];
        }
      }
      lastEmitted := lastEmitted[key := now];
      return false;
    }

    /** Detections of one route, and the new baseline. */
    method ObserveRaw(route: Route) returns (events: seq<Event>)
      modifies this`origin, this`path
      ensures events == Raw(cfg, old(Base()), route)
      ensures Base() == NextBaseline(cfg, old(Base()), route)
    {
      var m := MatchPrefix(route.prefix);
      if m.None? { return []; }
      var mp := cfg.monitored[m.value];
      var asn := OriginAsn(route.path);
      var status := StatusOf(cfg, route);
      var priorPath := if route.prefix in path then path[route.prefix] else [];
      var plain := Event(RpkiInvalid, route.prefix, asn, 0, route.path, [], mp.expectedOrigins, status);
      events := [];
      if route.prefix in origin && origin[route.prefix] != asn {
        events := events + [plain.(kind := OriginChange, oldOrigin := origin[route.prefix], oldPath := priorPath)];
      }
      ghost var seen := When(Changed(Base(), route), ChangeEvent(mp, status, Base(), route));
      assert events == seen;
      if mp.expectedOrigins != [] && asn !in mp.expectedOrigins {
        events := events + [plain.(kind := PossibleHijack)];
      }
      seen := seen + When(Unexpected(mp, route), Plain(PossibleHijack, mp, status, route));
      assert events == seen;
      if Leaks(mp, route.path) {
        events := events + [plain.(kind := PossibleLeak)];
      }
      seen := seen + When(Leaks(mp, route.path), Plain(PossibleLeak, mp, status, route));
      assert events == seen;
      if status == Invalid {
        events := events + [plain];
      }
      assert events == seen + When(status == Invalid, Plain(RpkiInvalid, mp, status, route));
      origin := origin[route.prefix := asn];
      path := path[route.prefix := route.path];
    }

    /** Drops the repeats from a batch of events raised at one data time. */
    method KeepNew(events: seq<Event>, now: int) returns (kept: seq<Event>)
      modifies this`lastEmitted, this`suppressed
      ensures (kept, lastEmitted) == Admit(cfg, old(lastEmitted), events, now)
      ensures suppressed + |kept| == old(suppressed) + |events|
    {
      kept := [];
      ghost var spec := Admit(cfg, lastEmitted, events, now);
      assert events[0..] == events && [] + spec.0 == spec.0;
      for i := 0 to |events|
        invariant suppressed + |kept| == old(suppressed) + i
        invariant spec.0 == kept + Admit(cfg, lastEmitted, events[i..], now).0
        invariant spec.1 == Admit(cfg, lastEmitted, events[i..], now).1
      {
        assert events[i..][0] == events[i] && events[i..][1..] == events[i + 1..];
        var repeat := Suppress(KeyOf(cfg, events[i]), now);
        if !repeat {
          ghost var later := Admit(cfg, lastEmitted, events[i + 1..], now).0;
          assert kept + ([events[i]] + later) == (kept + [events[i]]) + later;
          kept := kept + [events[i]];
        }
      }
      assert kept + [] == kept;
    }

    method Observe(route: Route, clock: int) returns (kept: seq<Event>)
      modifies this
      ensures (kept, lastEmitted) == Admit(cfg, old(lastEmitted), Raw(cfg, old(Base()), route), TimeOf(route, clock))
      ensures Base() == NextBaseline(cfg, old(Base()), route)
      ensures suppressed + |kept| == old(suppressed) + |Raw(cfg, old(Base()), route)|
    {
      var events := ObserveRaw(route);
      if events == [] { return []; }
      var now := if route.time != 0 then route.time else clock;
      kept := KeepNew(events, now);
    }
  }
}
