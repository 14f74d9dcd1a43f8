/**
 The wire formats the collector dumps are made of, as functions from the front of a byte string to a
 value and the bytes after it: MRT records (RFC 6396), BGP UPDATE messages (section 4.3 of RFC 4271)
 and MP_REACH_NLRI (section 3 of RFC 4760).
 */
module MrtWire {
  import opened Basics
  import opened Wrappers
  import opened Bytes

  const TYPE_TABLE_DUMP_V2 := 13
  const TYPE_BGP4MP := 16
  const TYPE_BGP4MP_ET := 17
  const SUB_PEER_INDEX_TABLE := 1
  const SUB_RIB_IPV4_UNICAST := 2
  const SUB_RIB_IPV6_UNICAST := 4
  const SUB_BGP4MP_MESSAGE := 1
  const SUB_BGP4MP_MESSAGE_AS4 := 4
  const ATTR_AS_PATH := 2
  const ATTR_MP_REACH_NLRI := 14
  const AFI_IPV6 := 2
  const BGP_UPDATE := 2
  const BGP_MESSAGE_HEADER_LENGTH := 19

  /** A prefix in CIDR form: the address octets, padded, and the length as announced. */
  datatype Cidr = Cidr(v6: bool, address: bytes, bits: nat)

  /** A peer address is its octets; none are known for an entry that names no listed peer. */
  datatype Peer = Peer(asn: nat, address: bytes)

  datatype Route = Route(prefix: Cidr, path: seq<nat>, peer: Peer, collector: nat, time: int)

  /** A value taken from the front of the bytes, and the bytes after it. */
  datatype Parse<+T> = Short | Got(value: T, rest: bytes) {
    predicate IsFailure() { Short? }

    function PropagateFailure<V>(): Parse<V>
      requires Short?
    {
      Short
    }

    function Extract(): (T, bytes)
      requires Got?
    {
      (value, rest)
    }
  }

  /** Big-endian value. */
  function Num(s: bytes): nat {
    if s == [] then 0 else Num(s[..|s| - 1]) * 256 + s[|s| - 1]
  }

  function Octets(s: bytes, n: nat): (p: Parse<bytes>)
    ensures p.Got? ==> s == p.value + p.rest && |p.value| == n
  {
    if |s| < n then Short else Got(s[..n], s[n..])
  }

  /** n octets as a number. */
  function U(s: bytes, n: nat): (p: Parse<nat>)
    ensures p.Got? ==> |p.rest| == |s| - n
  {
    if |s| < n then Short else Got(Num(s[..n]), s[n..])
  }

  function Zeros(n: nat): (z: bytes)
    ensures |z| == n && forall i :: 0 <= i < n ==> z[i] == 0
  {
    seq(n, _ => 0)
  }

  function MaxOctets(v6: bool): nat { if v6 then 16 else 4 }

  /** One length-prefixed NLRI prefix. */
  function Prefix(s: bytes, v6: bool): (p: Parse<Cidr>)
    ensures p.Got? ==> |p.rest| < |s|
  {
    var (bits, r) :- U(s, 1);
    if bits > MaxOctets(v6) * 8 then Short
    else
      var n := (bits + 7) / 8;
      var (raw, r') :- Octets(r, n);
      Got(Cidr(v6, raw + Zeros(MaxOctets(v6) - n), bits), r')
  }

  /** Prefixes up to the end of the bytes. */
  function Prefixes(s: bytes, v6: bool): (ps: Option<seq<Cidr>>)
    ensures ps.Some? ==> |ps.value| <= |s|
    decreases |s|
  {
    if s == [] then Some([])
    else
      match Prefix(s, v6)
      case Short => None
      case Got(p, r) => Onto([p], Prefixes(r, v6))
  }

  /** A result with earlier elements put in front. */
  function Onto<T>(front: seq<T>, r: Option<seq<T>>): Option<seq<T>> {
    match r case None => None case Some(s) => Some(front + s)
  }

  predicate Extended(flags: nat) { flags / 16 % 2 == 1 }

  /** One path attribute: its type code and value. */
  function Attribute(s: bytes): (p: Parse<(nat, bytes)>)
    ensures p.Got? ==> |p.rest| + |p.value.1| < |s|
  {
    var (flags, r0) :- U(s, 1);
    var (typ, r1) :- U(r0, 1);
    var (n, r2) :- U(r1, if Extended(flags) then 2 else 1);
    var (v, r3) :- Octets(r2, n);
    Got((typ, v), r3)
  }

  datatype Search = Malformed | Absent | Present(value: bytes)

  /** The first attribute of a type; attributes after it are not looked at. */
  function Find(s: bytes, typ: nat): (f: Search)
    ensures f.Present? ==> |f.value| < |s|
    decreases |s|
  {
    if s == [] then Absent
    else
      match Attribute(s)
      case Short => Malformed
      case Got((t, v), r) => if t == typ then Present(v) else Find(r, typ)
  }

  function AsnOctets(four: bool): nat { if four then 4 else 2 }

  function Asns(s: bytes, count: nat, four: bool): (p: Parse<seq<nat>>)
    ensures p.Got? ==> |p.value| == count && |p.rest| <= |s|
    decreases count
  {
    if count == 0 then Got([], s)
    else
      var (a, r) :- U(s, AsnOctets(four));
      var (later, r') :- Asns(r, count - 1, four);
      Got([a] + later, r')
  }

  /** One segment: its type is not kept. */
  function Segment(s: bytes, four: bool): (p: Parse<seq<nat>>)
    ensures p.Got? ==> |p.rest| < |s|
  {
    var (typ, r0) :- U(s, 1);
    var (count, r1) :- U(r0, 1);
    Asns(r1, count, four)
  }

  /** All segments of an AS_PATH, flattened. */
  function AsPath(s: bytes, four: bool): Option<seq<nat>>
    decreases |s|
  {
    if s == [] then Some([])
    else
      match Segment(s, four)
      case Short => None
      case Got(asns, r) => Onto(asns, AsPath(r, four))
  }

  function PathOf(attrs: bytes, four: bool): Option<seq<nat>> {
    match Find(attrs, ATTR_AS_PATH)
    case Malformed => None
    case Absent => Some([])
    case Present(v) => AsPath(v, four)
  }

  /** The family of an MP_REACH_NLRI value, and its prefixes as bytes. */
  function MpHeader(v: bytes): (p: Parse<bool>)
    ensures p.Got? ==> |p.rest| <= |v|
  {
    var (afi, r0) :- U(v, 2);
    var (safi, r1) :- U(r0, 1);
    var (hop, r2) :- U(r1, 1);
    var (nextHop, r3) :- Octets(r2, hop);
    var (reserved, r4) :- U(r3, 1);
    Got(afi == AFI_IPV6, r4)
  }

  function MpReach(v: bytes): (ps: Option<seq<Cidr>>)
    ensures ps.Some? ==> |ps.value| <= |v|
  {
    match MpHeader(v)
    case Short => None
    case Got(v6, r) => Prefixes(r, v6)
  }

  function Reachable(attrs: bytes): (ps: Option<seq<Cidr>>)
    ensures ps.Some? ==> |ps.value| <= |attrs|
  {
    match Find(attrs, ATTR_MP_REACH_NLRI)
    case Malformed => None
    case Absent => Some([])
    case Present(v) => MpReach(v)
  }

  /** The path attributes of an UPDATE body, and the NLRI that trails them. */
  function Split(msg: bytes): (p: Parse<bytes>)
    ensures p.Got? ==> |p.value| + |p.rest| + 4 <= |msg|
  {
    var (n, r0) :- U(msg, 2);
    var (withdrawn, r1) :- Octets(r0, n);
    var (m, r2) :- U(r1, 2);
    Octets(r2, m)
  }

  /** Announced prefixes (MP_REACH first, then NLRI) and the path they share. */
  datatype Announcement = Announcement(prefixes: seq<Cidr>, path: seq<nat>)

  function Update(msg: bytes, four: bool): (a: Option<Announcement>)
    ensures a.Some? ==> |a.value.prefixes| + 4 <= |msg|
  {
    match Split(msg)
    case Short => None
    case Got(attrs, rest) =>
      match (PathOf(attrs, four), Reachable(attrs), Prefixes(rest, false))
      case (Some(path), Some(mp), Some(nlri)) => Some(Announcement(mp + nlri, path))
      case _ => None
  }

  /** The BGP4MP header: peer, declared message length and message type. */
  datatype Header = Header(peer: Peer, length: nat, typ: nat)

  function AddressOctets(afi: nat): nat { if afi == AFI_IPV6 then 16 else 4 }

  function HeaderOf(body: bytes, four: bool): (h: Parse<Header>)
    ensures h.Got? ==> |h.rest| <= |body|
  {
    var (peerAs, r0) :- U(body, AsnOctets(four));
    var (localAs, r1) :- U(r0, AsnOctets(four));
    var (ifIndex, r2) :- U(r1, 2);
    var (afi, r3) :- U(r2, 2);
    Envelope(r3, AddressOctets(afi), peerAs)
  }

  /** Both addresses, the marker, the length and the type. */
  function Envelope(s: bytes, n: nat, peerAs: nat): (h: Parse<Header>)
    ensures h.Got? ==> |h.rest| <= |s|
  {
    var (address, r0) :- Octets(s, n);
    var (local, r1) :- Octets(r0, n);
    var (marker, r2) :- Octets(r1, 16);
    var (length, r3) :- U(r2, 2);
    var (typ, r4) :- U(r3, 1);
    Got(Header(Peer(peerAs, address), length, typ), r4)
  }

  /** The UPDATE body a message declares; bytes after it are not part of it. */
  function Declared(h: Header, rest: bytes): Option<bytes> {
    if h.length < BGP_MESSAGE_HEADER_LENGTH || |rest| < h.length - BGP_MESSAGE_HEADER_LENGTH then None
    else Some(rest[..h.length - BGP_MESSAGE_HEADER_LENGTH])
  }

  function Routes(prefixes: seq<Cidr>, path: seq<nat>, peer: Peer, collector: nat, time: int): (rs: seq<Route>)
    ensures |rs| == |prefixes|
    ensures forall i :: 0 <= i < |rs| ==> rs[i] == Route(prefixes[i], path, peer, collector, time)
  {
    seq(|prefixes|, i requires 0 <= i < |prefixes| => Route(prefixes[i], path, peer, collector, time))
  }

  // ---- TABLE_DUMP_V2 ----

  /** What the reader remembers between records. */
  datatype Memory = Memory(peers: seq<Peer>, collector: nat)

  function PeerEntry(s: bytes): Parse<Peer> {
    var (typ, r0) :- U(s, 1);
    var (bgpId, r1) :- U(r0, 4);
    var (address, r2) :- Octets(r1, if typ % 2 == 1 then 16 else 4);
    var (asn, r3) :- U(r2, if typ / 2 % 2 == 1 then 4 else 2);
    Got(Peer(asn, address), r3)
  }

  function PeerEntries(s: bytes, count: nat): Option<seq<Peer>>
    decreases count
  {
    if count == 0 then Some([])
    else
      match PeerEntry(s)
      case Short => None
      case Got(p, r) => Onto([p], PeerEntries(r, count - 1))
  }

  /** The view name and the number of peers, after the collector id. */
  function PeerCount(s: bytes): Parse<nat> {
    var (view, r0) :- U(s, 2);
    var (name, r1) :- Octets(r0, view);
    U(r1, 2)
  }

  /** The peers of a PEER_INDEX_TABLE body, after its collector id. */
  function PeerIndex(s: bytes): Option<seq<Peer>> {
    match PeerCount(s)
    case Short => None
    case Got(count, r) => PeerEntries(r, count)
  }

  /** The collector id is stored as soon as it is read, the peers only when all of them are. */
  function AfterPeerIndex(m: Memory, body: bytes): Memory {
    match U(body, 4)
    case Short => m
    case Got(id, r) =>
      match PeerIndex(r)
      case None => Memory(m.peers, id)
      case Some(ps) => Memory(ps, id)
  }

  function PeerAt(m: Memory, i: nat): Peer {
    if i < |m.peers| then m.peers[i] else Peer(0, [])
  }

  /** One RIB entry: peer index and path. */
  function RibEntry(s: bytes): Parse<(nat, seq<nat>)> {
    var (index, r0) :- U(s, 2);
    var (originated, r1) :- U(r0, 4);
    var (n, r2) :- U(r1, 2);
    var (attrs, r3) :- Octets(r2, n);
    match PathOf(attrs, true)
    case None => Short
    case Some(path) => Got((index, path), r3)
  }

  /** Routes of the entries before the first bad one. */
  function RibEntries(m: Memory, s: bytes, count: nat, prefix: Cidr, time: int): seq<Route>
    decreases count
  {
    if count == 0 then []
    else
      match RibEntry(s)
      case Short => []
      case Got((i, path), r) =>
        [Route(prefix, path, PeerAt(m, i), m.collector, time)] + RibEntries(m, r, count - 1, prefix, time)
  }

  /** The prefix and the number of entries. */
  function RibHeader(body: bytes, v6: bool): Parse<(Cidr, nat)> {
    var (sequence, r0) :- U(body, 4);
    var (prefix, r1) :- Prefix(r0, v6);
    var (count, r2) :- U(r1, 2);
    Got((prefix, count), r2)
  }

  function Rib(m: Memory, body: bytes, v6: bool, time: int): seq<Route> {
    match RibHeader(body, v6)
    case Short => []
    case Got((prefix, count), r) => RibEntries(m, r, count, prefix, time)
  }

  // ---- Records ----

  /** Routes of an UPDATE body: none at all when any part of it is malformed. */
  function UpdateRoutes(m: Memory, msg: bytes, peer: Peer, four: bool, time: int): seq<Route> {
    match Update(msg, four)
    case None => []
    case Some(a) => Routes(a.prefixes, a.path, peer, m.collector, time)
  }

  /** Routes of a BGP4MP record; none when its message is not an UPDATE. */
  function Bgp4mp(m: Memory, body: bytes, four: bool, time: int): seq<Route> {
    match HeaderOf(body, four)
    case Short => []
    case Got(h, rest) => MessageRoutes(m, h, rest, four, time)
  }

  function MessageRoutes(m: Memory, h: Header, rest: bytes, four: bool, time: int): seq<Route> {
    if h.typ != BGP_UPDATE then []
    else
      match Declared(h, rest)
      case None => []
      case Some(msg) => UpdateRoutes(m, msg, h.peer, four, time)
  }

  /** A time in nanoseconds moved by a microsecond offset. */
  function Shifted(time: int, micros: nat): int { time + micros * 1000 }

  /** Routes of one record, errors included: whatever was yielded before the record was given up. */
  function RecordRoutes(m: Memory, typ: nat, sub: nat, body: bytes, time: int): seq<Route> {
    if typ == TYPE_BGP4MP_ET then
      match U(body, 4)
      case Short => []
      case Got(micros, r) => PlainRoutes(m, TYPE_BGP4MP, sub, r, Shifted(time, micros))
    else PlainRoutes(m, typ, sub, body, time)
  }

  function PlainRoutes(m: Memory, typ: nat, sub: nat, body: bytes, time: int): seq<Route> {
    if typ == TYPE_TABLE_DUMP_V2 && sub == SUB_RIB_IPV4_UNICAST then Rib(m, body, false, time)
    else if typ == TYPE_TABLE_DUMP_V2 && sub == SUB_RIB_IPV6_UNICAST then Rib(m, body, true, time)
    else if typ == TYPE_BGP4MP && (sub == SUB_BGP4MP_MESSAGE || sub == SUB_BGP4MP_MESSAGE_AS4) then
      Bgp4mp(m, body, sub == SUB_BGP4MP_MESSAGE_AS4, time)
    else []
  }

  function RecordMemory(m: Memory, typ: nat, sub: nat, body: bytes): Memory {
    if typ == TYPE_TABLE_DUMP_V2 && sub == SUB_PEER_INDEX_TABLE then AfterPeerIndex(m, body) else m
  }

  // ---- The stream ----

  datatype Source = Source(maxRecord: nat, seekable: bool)

  /** The common header: time, type, subtype and length. */
  datatype Common = Common(time: nat, typ: nat, sub: nat, length: nat)

  function CommonHeader(s: bytes): (p: Parse<Common>)
    ensures p.Got? ==> |p.rest| == |s| - 12
  {
    var (time, r0) :- U(s, 4);
    var (typ, r1) :- U(r0, 2);
    var (sub, r2) :- U(r1, 2);
    var (length, r3) :- U(r2, 4);
    Got(Common(time, typ, sub, length), r3)
  }

  /** How a stream ends: at the end of the input, or with an error that is not confined to a record. */
  datatype Outcome = Outcome(routes: seq<Route>, memory: Memory, complete: bool)

  function Skip(s: bytes, n: nat): (r: bytes)
    ensures |r| <= |s|
  {
    if |s| <= n then [] else s[n..]
  }

  function Prepend(front: seq<Route>, o: Outcome): Outcome { o.(routes := front + o.routes) }

  lemma PrependPrepend(a: seq<Route>, b: seq<Route>, o: Outcome)
    ensures Prepend(a, Prepend(b, o)) == Prepend(a + b, o)
  {
    Assoc(a, b, o.routes);
  }

  function Stream(src: Source, m: Memory, s: bytes): Outcome
    decreases |s|
  {
    if s == [] then Outcome([], m, true)
    else
      match CommonHeader(s)
      case Short => Outcome([], m, false)
      case Got(h, r) =>
        if h.length > src.maxRecord then
          if src.seekable then Stream(src, m, Skip(r, h.length)) else Outcome([], m, false)
        else if |r| < h.length then Outcome([], m, false)
        else
          var body := r[..h.length];
          Prepend(RecordRoutes(m, h.typ, h.sub, body, h.time * 1_000_000_000),
                  Stream(src, RecordMemory(m, h.typ, h.sub, body), r[h.length..]))
  }
}
