/**
 From the bytes of a dump to the events of the monitor.  A route read from a dump reaches the monitor as
 text, which the monitor parses again; `text` stands for the printing of an address and a length, `clock`
 for the wall clock read at each route.
 */
module MrtSightings {
  import opened Wrappers
  import opened Bytes
  import opened Networks
  import opened RouteOrigin
  import opened Monitor
  import opened MonitorRuns
  import opened MonitorReports
  import opened MrtEncoding
  import opened MrtRecords
  import opened MrtRuns
  import W = MrtWire

  const NO_PEERS := W.Memory([], 0)

  /** The routes of a dump, as the monitor sees them. */
  function Sightings(text: W.Cidr -> string, clock: nat -> int, routes: seq<W.Route>): (run: seq<Sighting>)
    ensures |run| == |routes|
    ensures forall i :: 0 <= i < |run| ==>
              run[i] == Sighting(Route(text(routes[i].prefix), routes[i].path, routes[i].time), clock(i))
  {
    seq(|routes|, i requires 0 <= i < |routes| =>
      Sighting(Route(text(routes[i].prefix), routes[i].path, routes[i].time), clock(i)))
  }

  function DumpRun(text: W.Cidr -> string, clock: nat -> int, src: W.Source, s: bytes): seq<Sighting> {
    Sightings(text, clock, W.Stream(src, NO_PEERS, s).routes)
  }

  // ---- Printing and parsing ----

  lemma {:induction false} OctetsAreBits(w: nat)
    ensures Power256(w) == Pow2(8 * w)
  {
    if w > 0 {
      OctetsAreBits(w - 1);
      Pow2Sum(8 * (w - 1), 8);
      assert Pow2(4) == 16 && Pow2(8) == 256;
    }
  }

  function HostBits(c: W.Cidr): nat
    requires Padded(c)
  {
    8 * AddressWidth(c.v6) - c.bits
  }

  lemma Multiple(q: nat, size: nat)
    requires size >= 1
    ensures (q * size) % size == 0
  {
    NoRemainder(q, q * size / size, (q * size) % size, size);
  }

  lemma NoRemainder(q: int, t: int, r: nat, size: nat)
    requires r < size && q * size == t * size + r
    ensures r == 0
  {
    assert (q - t) * size == r;
    if q > t { MulMono(1, q - t, size); }
  }

  lemma Quotient(x: nat, size: nat)
    requires size >= 1
    ensures 0 <= x / size * size <= x < x / size * size + size && (x / size * size) % size == 0
  {
    Multiple(x / size, size);
  }

  /** The multiple of a size at or below a number. */
  function RoundDown(x: nat, size: nat): (r: nat)
    requires size >= 1
    ensures r <= x < r + size && r % size == 0
  {
    Quotient(x, size);
    x / size * size
  }

  lemma RoundDownFits(x: nat, size: nat, count: nat)
    requires size >= 1 && x < count * size
    ensures RoundDown(x, size) + size <= count * size
  {
    Quotient(x, size);
    MulCancel(x / size, count, size);
  }

  function BlockBase(c: W.Cidr): nat
    requires Padded(c)
  {
    RoundDown(W.Num(c.address), Pow2(HostBits(c)))
  }

  lemma BlockFits(c: W.Cidr)
    requires Padded(c)
    ensures BlockBase(c) % Pow2(HostBits(c)) == 0
    ensures BlockBase(c) + Pow2(HostBits(c)) <= Pow2(8 * AddressWidth(c.v6))
  {
    NumFits(c.address);
    OctetsAreBits(AddressWidth(c.v6));
    Pow2Sum(c.bits, HostBits(c));
    RoundDownFits(W.Num(c.address), Pow2(HostBits(c)), Pow2(c.bits));
  }

  /** The network a printed prefix stands for: the bits past its length are cleared, announced or not. */
  function Block(c: W.Cidr): Network
    requires Padded(c)
  {
    BlockFits(c);
    RawNetwork(if c.v6 then V6 else V4, BlockBase(c), c.bits)
  }

  /** Parsing what was printed gives the network back. */
  ghost predicate Prints(parse: string -> Option<Network>, text: W.Cidr -> string) {
    forall c :: Padded(c) ==> parse(text(c)) == Some(Block(c))
  }

  /** The configured prefix that is most specific for the network is the one the text matches. */
  lemma MatchesBlock(cfg: Config, text: W.Cidr -> string, c: W.Cidr, i: nat)
    requires Prints(cfg.parse, text) && Padded(c) && MostSpecific(cfg.monitored, Block(c), i)
    ensures cfg.parse(text(c)) == Some(Block(c)) && Match(cfg, text(c)) == Some(i)
  {
    MatchIsLongestPrefix(cfg, text(c));
  }

  /** It is the block of its length that holds the announced address. */
  lemma BlockHoldsAddress(c: W.Cidr)
    requires Padded(c)
    ensures Block(c).len == c.bits && Holds(Block(c), W.Num(c.address))
  {
  }

  // ---- From one record in a dump to its events ----

  /** A dump: records before one, that one, and any bytes whatsoever after it. */
  function DumpAround(before: seq<Record>, rec: Record, rest: bytes): bytes {
    EncodeRecords(before) + (EncodeRecord(rec) + rest)
  }

  predicate Passable(src: W.Source, before: seq<Record>) {
    forall i :: 0 <= i < |before| ==> RecordFits(before[i]) && (src.seekable || Readable(src, before[i]))
  }

  lemma RoutesAround(src: W.Source, before: seq<Record>, rec: Record, rest: bytes) returns (more: seq<W.Route>)
    requires Passable(src, before) && RecordFits(rec) && Readable(src, rec)
    ensures W.Stream(src, NO_PEERS, DumpAround(before, rec, rest)).routes
         == AllRoutes(src, NO_PEERS, before) + (RoutesOf(src, FinalMemory(src, NO_PEERS, before), rec) + more)
  {
    var m := FinalMemory(src, NO_PEERS, before);
    StreamOfRecords(src, NO_PEERS, before, EncodeRecord(rec) + rest);
    OneRecord(src, m, rec, rest);
    more := W.Stream(src, MemoryOf(src, m, rec), rest).routes;
  }

  lemma Middle<T>(a: seq<T>, b: seq<T>, c: seq<T>, j: nat)
    requires j < |b|
    ensures (a + (b + c))[|a| + j] == b[j]
  {
  }

  /** Route j of a record anywhere in a dump is seen by the monitor. */
  lemma RecordIsSeen(text: W.Cidr -> string, clock: nat -> int, src: W.Source, before: seq<Record>, rec: Record,
                     rest: bytes, routes: seq<W.Route>, j: nat) returns (k: nat)
    requires Passable(src, before) && RecordFits(rec) && Readable(src, rec)
    requires routes == RoutesOf(src, FinalMemory(src, NO_PEERS, before), rec) && j < |routes|
    ensures var run := DumpRun(text, clock, src, DumpAround(before, rec, rest));
            && k < |run| && run[k].clock == clock(k)
            && run[k].route == Route(text(routes[j].prefix), routes[j].path, routes[j].time)
  {
    var first := AllRoutes(src, NO_PEERS, before);
    var more := RoutesAround(src, before, rec, rest);
    k := |first| + j;
    Middle(first, routes, more, j);
  }

  /** An UPDATE in a dump is seen as one route for each announced prefix, at the time of its record. */
  lemma UpdateIsSeen(text: W.Cidr -> string, clock: nat -> int, src: W.Source, before: seq<Record>, rec: Record,
                     rest: bytes, f: Framed, j: nat) returns (k: nat)
    requires Passable(src, before) && RecordFits(rec) && Readable(src, rec)
    requires SpellsUpdate(rec.typ, rec.sub, rec.body, f) && j < |Announced(f)|
    ensures var run := DumpRun(text, clock, src, DumpAround(before, rec, rest));
            k < |run| && run[k].route == Route(text(Announced(f)[j]), f.path, rec.time * 1_000_000_000)
  {
    var m := FinalMemory(src, NO_PEERS, before);
    UpdateRecordRoutes(m, rec.typ, rec.sub, rec.body, f, rec.time * 1_000_000_000);
    k := RecordIsSeen(text, clock, src, before, rec, rest, RoutesOf(src, m, rec), j);
  }

  /** So is one behind a microsecond field, that much later. */
  lemma LateUpdateIsSeen(text: W.Cidr -> string, clock: nat -> int, src: W.Source, before: seq<Record>, rec: Record,
                         rest: bytes, f: Framed, micros: nat, j: nat) returns (k: nat)
    requires Passable(src, before) && RecordFits(rec) && Readable(src, rec)
    requires SpellsLate(rec.typ, rec.sub, rec.body, f, micros) && j < |Announced(f)|
    ensures var run := DumpRun(text, clock, src, DumpAround(before, rec, rest));
            && k < |run|
            && run[k].route == Route(text(Announced(f)[j]), f.path, rec.time * 1_000_000_000 + 1000 * micros)
  {
    var m := FinalMemory(src, NO_PEERS, before);
    LateRecordRoutes(m, rec.typ, rec.sub, rec.body, f, micros, rec.time * 1_000_000_000);
    k := RecordIsSeen(text, clock, src, before, rec, rest, RoutesOf(src, m, rec), j);
  }

  /** A RIB record in a dump is seen as one route for each readable entry, for its prefix and family. */
  lemma RibIsSeen(text: W.Cidr -> string, clock: nat -> int, src: W.Source, before: seq<Record>, rec: Record,
                  rest: bytes, r: RibRecord, j: nat) returns (k: nat)
    requires Passable(src, before) && RecordFits(rec) && Readable(src, rec)
    requires SpellsRib(rec.typ, rec.sub, rec.body, r) && j < |r.entries|
    ensures var run := DumpRun(text, clock, src, DumpAround(before, rec, rest));
            k < |run| && run[k].route == Route(text(r.prefix), r.entries[j].path, rec.time * 1_000_000_000)
  {
    var m := FinalMemory(src, NO_PEERS, before);
    RibRecordRoutes(m, rec.typ, rec.sub, rec.body, r, rec.time * 1_000_000_000);
    k := RecordIsSeen(text, clock, src, before, rec, rest, RoutesOf(src, m, rec), j);
  }

  /** What is wrong with a path announced for a network, by the configuration and the ROAs alone. */
  ghost predicate Wrong(cfg: Config, mp: Monitored, net: Network, path: seq<int>, kind: Kind) {
    match kind
    case OriginChange => false
    case PossibleHijack => mp.expectedOrigins != [] && OriginAsn(path) !in mp.expectedOrigins
    case PossibleLeak => exists i :: 0 <= i < |path| - 1 && path[i] in mp.noTransit
    case RpkiInvalid => OriginRefused(cfg, net, OriginAsn(path))
  }

  /** The anomaly that a path announced for a prefix shows. */
  function KeyFor(cfg: Config, prefix: string, path: seq<int>, kind: Kind): Key {
    Key(prefix, kind, DetailOf(cfg, Route(prefix, path, 0), kind))
  }

  lemma SightingIsReported(cfg: Config, text: W.Cidr -> string, run: seq<Sighting>, k: nat,
                           c: W.Cidr, path: seq<int>, i: nat, kind: Kind)
    requires Prints(cfg.parse, text) && Padded(c) && MostSpecific(cfg.monitored, Block(c), i)
    requires k < |run| && run[k].route.prefix == text(c) && run[k].route.path == path
    requires Wrong(cfg, cfg.monitored[i], Block(c), path, kind)
    ensures Reports(cfg, AllEmitted(cfg, FRESH, map[], run), KeyFor(cfg, text(c), path, kind))
  {
    MatchesBlock(cfg, text, c, i);
    assert ShownAt(cfg, run, k, KeyFor(cfg, text(c), path, kind));
    ReportedIffShown(cfg, run, KeyFor(cfg, text(c), path, kind));
  }

  /** From bytes to events.  If a dump carries, anywhere and whatever follows it, an UPDATE that announces
      a network inside a monitored one with an unexpected origin, a leaked transit or an origin the ROAs
      refuse, the run over that dump emits an event of that kind that names the announced prefix, and the
      origin or the leaked networks. */
  lemma AnnouncedAnomalyIsReported(
    cfg: Config, text: W.Cidr -> string, clock: nat -> int, src: W.Source,
    before: seq<Record>, rec: Record, rest: bytes, f: Framed, j: nat, i: nat, kind: Kind)
    requires Prints(cfg.parse, text) && Passable(src, before) && RecordFits(rec) && Readable(src, rec)
    requires SpellsUpdate(rec.typ, rec.sub, rec.body, f) && j < |Announced(f)|
    requires MostSpecific(cfg.monitored, Block(Announced(f)[j]), i)
    requires Wrong(cfg, cfg.monitored[i], Block(Announced(f)[j]), f.path, kind)
    ensures Reports(cfg, AllEmitted(cfg, FRESH, map[], DumpRun(text, clock, src, DumpAround(before, rec, rest))),
                    KeyFor(cfg, text(Announced(f)[j]), f.path, kind))
  {
    var k := UpdateIsSeen(text, clock, src, before, rec, rest, f, j);
    SightingIsReported(cfg, text, DumpRun(text, clock, src, DumpAround(before, rec, rest)), k,
                       Announced(f)[j], f.path, i, kind);
  }

  /** The same for the entries of a RIB record. */
  lemma TableAnomalyIsReported(
    cfg: Config, text: W.Cidr -> string, clock: nat -> int, src: W.Source,
    before: seq<Record>, rec: Record, rest: bytes, r: RibRecord, j: nat, i: nat, kind: Kind)
    requires Prints(cfg.parse, text) && Passable(src, before) && RecordFits(rec) && Readable(src, rec)
    requires SpellsRib(rec.typ, rec.sub, rec.body, r) && j < |r.entries|
    requires MostSpecific(cfg.monitored, Block(r.prefix), i)
    requires Wrong(cfg, cfg.monitored[i], Block(r.prefix), r.entries[j].path, kind)
    ensures Reports(cfg, AllEmitted(cfg, FRESH, map[], DumpRun(text, clock, src, DumpAround(before, rec, rest))),
                    KeyFor(cfg, text(r.prefix), r.entries[j].path, kind))
  {
    var k := RibIsSeen(text, clock, src, before, rec, rest, r, j);
    SightingIsReported(cfg, text, DumpRun(text, clock, src, DumpAround(before, rec, rest)), k,
                       r.prefix, r.entries[j].path, i, kind);
  }

  // ---- From an event back to its record ----

  lemma MemoryOfFirst(src: W.Source, m: W.Memory, rs: seq<Record>, i: nat)
    requires 0 < i <= |rs|
    ensures FinalMemory(src, m, rs[..i]) == FinalMemory(src, MemoryOf(src, m, rs[0]), rs[1..][..i - 1])
  {
    assert rs[..i][0] == rs[0] && rs[..i][1..] == rs[1..][..i - 1];
  }

  /** Record i of a run of records yields the route, under what the records before it left remembered. */
  predicate Yields(src: W.Source, m: W.Memory, rs: seq<Record>, i: nat, route: W.Route) {
    i < |rs| && route in RoutesOf(src, FinalMemory(src, m, rs[..i]), rs[i])
  }

  lemma YieldsLater(src: W.Source, m: W.Memory, rs: seq<Record>, i: nat, route: W.Route)
    requires rs != [] && Yields(src, MemoryOf(src, m, rs[0]), rs[1..], i, route)
    ensures Yields(src, m, rs, i + 1, route)
  {
    MemoryOfFirst(src, m, rs, i + 1);
  }

  lemma FirstOrLater(src: W.Source, m: W.Memory, rs: seq<Record>, route: W.Route)
    requires route in AllRoutes(src, m, rs)
    ensures rs != []
    ensures Yields(src, m, rs, 0, route) || route in AllRoutes(src, MemoryOf(src, m, rs[0]), rs[1..])
  {
    assert rs[..0] == [];
  }

  lemma {:induction false} RouteHasRecord(src: W.Source, m: W.Memory, rs: seq<Record>, route: W.Route)
    returns (i: nat)
    requires route in AllRoutes(src, m, rs)
    ensures Yields(src, m, rs, i, route)
    decreases |rs|
  {
    FirstOrLater(src, m, rs, route);
    i := 0;
    if !Yields(src, m, rs, 0, route) {
      i := RouteHasRecord(src, MemoryOf(src, m, rs[0]), rs[1..], route);
      YieldsLater(src, m, rs, i, route);
      i := i + 1;
    }
  }

  /** From events back to bytes.  Whatever the input, every event of its run was raised by a route of one
      of the framed records the input is made of, an encoded RIB record or UPDATE, about that route's prefix
      and path. */
  lemma EveryEventHasARecord(cfg: Config, text: W.Cidr -> string, clock: nat -> int, src: W.Source, s: bytes, e: Event)
    returns (rs: seq<Record>, tail: bytes, i: nat, route: W.Route)
    requires e in AllEmitted(cfg, FRESH, map[], DumpRun(text, clock, src, s))
    ensures s == EncodeRecords(rs) + tail && BadTail(src, tail) && Yields(src, NO_PEERS, rs, i, route)
    ensures Spelled(rs[i].typ, rs[i].sub, rs[i].body)
    ensures e.prefix == text(route.prefix) && e.newPath == route.path && Match(cfg, e.prefix).Some?
  {
    var run := DumpRun(text, clock, src, s);
    rs, tail := EveryStreamIsRecords(src, NO_PEERS, s);
    var k, n := ReportIsDetection(cfg, run, e);
    AtMostFourEvents(cfg, BaselineAfter(cfg, run[..k]), run[k].route);
    route := AllRoutes(src, NO_PEERS, rs)[k];
    i := RouteHasRecord(src, NO_PEERS, rs, route);
    RoutesAreSpelled(FinalMemory(src, NO_PEERS, rs[..i]), rs[i].typ, rs[i].sub, rs[i].body,
                     rs[i].time * 1_000_000_000);
  }
}
