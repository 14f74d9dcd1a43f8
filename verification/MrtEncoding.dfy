/**
 The encodings the wire parsers invert: BGP UPDATE messages and the records that carry them are
 written out here from RFC 4271, RFC 4760 and RFC 6396, with their own numbers and widths, and parsing
 them gives back what was encoded.
 */
module MrtEncoding {
  import opened Basics
  import opened Wrappers
  import opened Bytes
  import opened MrtWire

  // ---- What the formats fix ----

  const AS_PATH := 2
  const MP_REACH_NLRI := 14
  const UPDATE := 2
  const MESSAGE_HEADER := 19

  /** The flag of an attribute whose length takes two octets. */
  predicate LongForm(flags: byte) { flags / 16 % 2 == 1 }

  function AsnWidth(four: bool): nat { if four then 4 else 2 }

  function AddressWidth(v6: bool): nat { if v6 then 16 else 4 }

  // ---- Numbers ----

  function Power256(w: nat): (p: nat)
    ensures p >= 1
  {
    if w == 0 then 1 else Power256(w - 1) * 256
  }

  /** n in w octets, big-endian. */
  function Be(n: nat, w: nat): (s: bytes)
    ensures |s| == w
  {
    if w == 0 then [] else Be(n / 256, w - 1) + [n % 256]
  }

  lemma {:induction false} NumBe(n: nat, w: nat)
    requires n < Power256(w)
    ensures Num(Be(n, w)) == n
  {
    if w > 0 {
      NumBe(n / 256, w - 1);
      assert Be(n, w)[..w - 1] == Be(n / 256, w - 1);
    }
  }

  lemma {:induction false} NumFits(s: bytes)
    ensures Num(s) < Power256(|s|)
  {
    if s != [] { NumFits(s[..|s| - 1]); }
  }

  lemma {:induction false} BeNum(s: bytes)
    ensures Be(Num(s), |s|) == s
  {
    if s != [] {
      var n := |s| - 1;
      BeNum(s[..n]);
      assert Num(s) / 256 == Num(s[..n]) && Num(s) % 256 == s[n];
      assert s == s[..n] + [s[n]];
    }
  }

  /** The widths the formats use. */
  lemma Widths()
    ensures Power256(1) == 256 && Power256(2) == 65536 && Power256(4) == 0x1_0000_0000
  {
    assert Power256(3) == 16777216;
  }

  lemma TakeNum(n: nat, w: nat, rest: bytes)
    requires n < Power256(w)
    ensures U(Be(n, w) + rest, w) == Got(n, rest)
  {
    NumBe(n, w);
    assert (Be(n, w) + rest)[..w] == Be(n, w) && (Be(n, w) + rest)[w..] == rest;
  }

  /** The first octets of a byte string are the encoding of the number they hold. */
  lemma Shaved(s: bytes, w: nat)
    requires |s| >= w
    ensures U(s, w).Got? && U(s, w).value < Power256(w) && s == Be(U(s, w).value, w) + U(s, w).rest
  {
    NumFits(s[..w]);
    BeNum(s[..w]);
    assert s == s[..w] + s[w..];
  }

  lemma TakeOctets(a: bytes, rest: bytes)
    ensures Octets(a + rest, |a|) == Got(a, rest)
  {
    assert (a + rest)[..|a|] == a && (a + rest)[|a|..] == rest;
  }

  // ---- Prefixes ----

  function PrefixOctets(c: Cidr): nat { (c.bits + 7) / 8 }

  /** A prefix as the parser can produce it: padded with zero octets. */
  predicate Padded(c: Cidr) {
    && c.bits <= 8 * AddressWidth(c.v6)
    && |c.address| == AddressWidth(c.v6)
    && c.address[PrefixOctets(c)..] == Zeros(AddressWidth(c.v6) - PrefixOctets(c))
  }

  function EncodePrefix(c: Cidr): bytes
    requires Padded(c)
  {
    Be(c.bits, 1) + c.address[..PrefixOctets(c)]
  }

  function EncodePrefixes(cs: seq<Cidr>): bytes
    requires forall i :: 0 <= i < |cs| ==> Padded(cs[i])
  {
    if cs == [] then [] else EncodePrefix(cs[0]) + EncodePrefixes(cs[1..])
  }

  lemma TakePrefix(c: Cidr, rest: bytes)
    requires Padded(c)
    ensures Prefix(EncodePrefix(c) + rest, c.v6) == Got(c, rest)
  {
    Widths();
    var raw := c.address[..PrefixOctets(c)];
    Assoc(Be(c.bits, 1), raw, rest);
    TakeNum(c.bits, 1, raw + rest);
    TakeOctets(raw, rest);
    assert raw + c.address[PrefixOctets(c)..] == c.address;
  }

  lemma {:induction false} TakePrefixes(cs: seq<Cidr>, v6: bool)
    requires forall i :: 0 <= i < |cs| ==> Padded(cs[i]) && cs[i].v6 == v6
    ensures Prefixes(EncodePrefixes(cs), v6) == Some(cs)
  {
    if cs != [] {
      TakePrefixes(cs[1..], v6);
      TakePrefix(cs[0], EncodePrefixes(cs[1..]));
      assert [cs[0]] + cs[1..] == cs;
    }
  }

  // ---- Attributes ----

  datatype Attr = Attr(flags: byte, typ: byte, value: bytes)

  /** The length fits its field, which the extended-length flag widens. */
  predicate Fits(a: Attr) { |a.value| < if LongForm(a.flags) then 65536 else 256 }

  function LengthOctets(a: Attr): nat { if LongForm(a.flags) then 2 else 1 }

  function EncodeAttr(a: Attr): bytes {
    Be(a.flags, 1) + (Be(a.typ, 1) + (Be(|a.value|, LengthOctets(a)) + a.value))
  }

  function EncodeAttrs(attrs: seq<Attr>): bytes {
    if attrs == [] then [] else EncodeAttr(attrs[0]) + EncodeAttrs(attrs[1..])
  }

  lemma TakeAttr(a: Attr, rest: bytes)
    requires Fits(a)
    ensures Attribute(EncodeAttr(a) + rest) == Got((a.typ as nat, a.value), rest)
  {
    Widths();
    var flags, typ, len := Be(a.flags, 1), Be(a.typ, 1), Be(|a.value|, LengthOctets(a));
    Assoc(flags, typ + (len + a.value), rest);
    Assoc(typ, len + a.value, rest);
    Assoc(len, a.value, rest);
    TakeNum(a.flags, 1, typ + (len + (a.value + rest)));
    TakeNum(a.typ, 1, len + (a.value + rest));
    TakeNum(|a.value|, LengthOctets(a), a.value + rest);
    TakeOctets(a.value, rest);
  }

  /** The value of the first attribute of a type. */
  function FirstOf(attrs: seq<Attr>, typ: nat): Search {
    if attrs == [] then Absent
    else if attrs[0].typ == typ then Present(attrs[0].value)
    else FirstOf(attrs[1..], typ)
  }

  /** A search finds the first attribute of its type and does not look at what comes after it. */
  lemma {:induction false} TakeFirst(attrs: seq<Attr>, unread: bytes, typ: nat)
    requires forall i :: 0 <= i < |attrs| ==> Fits(attrs[i])
    requires unread == [] || FirstOf(attrs, typ).Present?
    ensures Find(EncodeAttrs(attrs) + unread, typ) == FirstOf(attrs, typ)
    decreases |attrs|
  {
    if attrs != [] {
      var later := EncodeAttrs(attrs[1..]);
      Assoc(EncodeAttr(attrs[0]), later, unread);
      TakeAttr(attrs[0], later + unread);
      if attrs[0].typ != typ { TakeFirst(attrs[1..], unread, typ); }
    }
  }

  // ---- AS_PATH ----

  datatype Seg = Seg(typ: byte, asns: seq<nat>)

  predicate SegFits(s: Seg, four: bool) {
    |s.asns| < 256 && forall i :: 0 <= i < |s.asns| ==> s.asns[i] < Power256(AsnWidth(four))
  }

  function EncodeAsns(asns: seq<nat>, four: bool): bytes {
    if asns == [] then [] else Be(asns[0], AsnWidth(four)) + EncodeAsns(asns[1..], four)
  }

  function EncodeSeg(s: Seg, four: bool): bytes {
    Be(s.typ, 1) + (Be(|s.asns|, 1) + EncodeAsns(s.asns, four))
  }

  function EncodeSegs(segs: seq<Seg>, four: bool): bytes {
    if segs == [] then [] else EncodeSeg(segs[0], four) + EncodeSegs(segs[1..], four)
  }

  function Flatten(segs: seq<Seg>): seq<nat> {
    if segs == [] then [] else segs[0].asns + Flatten(segs[1..])
  }

  lemma {:induction false} TakeAsns(asns: seq<nat>, four: bool, rest: bytes)
    requires forall i :: 0 <= i < |asns| ==> asns[i] < Power256(AsnWidth(four))
    ensures Asns(EncodeAsns(asns, four) + rest, |asns|, four) == Got(asns, rest)
    decreases |asns|
  {
    if asns == [] {
      assert EncodeAsns(asns, four) + rest == rest;
    } else {
      var later := EncodeAsns(asns[1..], four);
      Assoc(Be(asns[0], AsnWidth(four)), later, rest);
      TakeNum(asns[0], AsnWidth(four), later + rest);
      TakeAsns(asns[1..], four, rest);
      assert [asns[0]] + asns[1..] == asns;
    }
  }

  lemma TakeSeg(s: Seg, four: bool, rest: bytes)
    requires SegFits(s, four)
    ensures Segment(EncodeSeg(s, four) + rest, four) == Got(s.asns, rest)
  {
    Widths();
    var typ, count, asns := Be(s.typ, 1), Be(|s.asns|, 1), EncodeAsns(s.asns, four);
    Assoc(typ, count + asns, rest);
    Assoc(count, asns, rest);
    TakeNum(s.typ, 1, count + (asns + rest));
    TakeNum(|s.asns|, 1, asns + rest);
    TakeAsns(s.asns, four, rest);
  }

  lemma {:induction false} TakeSegs(segs: seq<Seg>, four: bool)
    requires forall i :: 0 <= i < |segs| ==> SegFits(segs[i], four)
    ensures AsPath(EncodeSegs(segs, four), four) == Some(Flatten(segs))
  {
    if segs != [] {
      TakeSegs(segs[1..], four);
      TakeSeg(segs[0], four, EncodeSegs(segs[1..], four));
    }
  }

  // ---- MP_REACH_NLRI ----

  datatype Reach = Reach(afi: nat, safi: byte, nextHop: bytes, reserved: byte, prefixes: seq<Cidr>)

  predicate ReachFits(m: Reach) {
    && m.afi < 65536 && |m.nextHop| < 256
    && forall i :: 0 <= i < |m.prefixes| ==> Padded(m.prefixes[i]) && m.prefixes[i].v6 == (m.afi == 2)
  }

  function EncodeReach(m: Reach): bytes
    requires ReachFits(m)
  {
    Be(m.afi, 2) + (Be(m.safi, 1) + (Be(|m.nextHop|, 1) +
    (m.nextHop + (Be(m.reserved, 1) + EncodePrefixes(m.prefixes)))))
  }

  lemma TakeReach(m: Reach)
    requires ReachFits(m)
    ensures MpReach(EncodeReach(m)) == Some(m.prefixes)
  {
    Widths();
    var nlri := EncodePrefixes(m.prefixes);
    var r3 := Be(m.reserved, 1) + nlri;
    var r2 := m.nextHop + r3;
    var r1 := Be(|m.nextHop|, 1) + r2;
    TakeNum(m.afi, 2, Be(m.safi, 1) + r1);
    TakeNum(m.safi, 1, r1);
    TakeNum(|m.nextHop|, 1, r2);
    TakeOctets(m.nextHop, r3);
    TakeNum(m.reserved, 1, nlri);
    TakePrefixes(m.prefixes, m.afi == 2);
  }

  // ---- UPDATE ----

  /** `unread` are bytes that trail the attributes and that no search comes to. */
  datatype UpdateMessage = UpdateMessage(withdrawn: bytes, attrs: seq<Attr>, unread: bytes, nlri: seq<Cidr>)

  predicate UpdateFits(u: UpdateMessage) {
    && |u.withdrawn| < 65536 && |EncodeAttrs(u.attrs) + u.unread| < 65536
    && (u.unread == [] || (FirstOf(u.attrs, AS_PATH).Present? && FirstOf(u.attrs, MP_REACH_NLRI).Present?))
    && (forall i :: 0 <= i < |u.attrs| ==> Fits(u.attrs[i]))
    && (forall i :: 0 <= i < |u.nlri| ==> Padded(u.nlri[i]) && !u.nlri[i].v6)
  }

  function EncodeUpdate(u: UpdateMessage): bytes
    requires UpdateFits(u)
  {
    var attrs := EncodeAttrs(u.attrs) + u.unread;
    Be(|u.withdrawn|, 2) + (u.withdrawn + (Be(|attrs|, 2) + (attrs + EncodePrefixes(u.nlri))))
  }

  /** The first AS_PATH, if any, is the encoding of segments that flatten to this path. */
  ghost predicate CarriesPath(attrs: seq<Attr>, four: bool, path: seq<nat>) {
    match FirstOf(attrs, AS_PATH)
    case Present(v) =>
      exists segs :: (forall i :: 0 <= i < |segs| ==> SegFits(segs[i], four))
                     && v == EncodeSegs(segs, four) && path == Flatten(segs)
    case _ => path == []
  }

  /** The first MP_REACH_NLRI, if any, announces these prefixes. */
  ghost predicate CarriesReach(attrs: seq<Attr>, prefixes: seq<Cidr>) {
    match FirstOf(attrs, MP_REACH_NLRI)
    case Present(v) => exists m :: ReachFits(m) && v == EncodeReach(m) && m.prefixes == prefixes
    case _ => prefixes == []
  }

  lemma TakeSections(u: UpdateMessage)
    requires UpdateFits(u)
    ensures Split(EncodeUpdate(u)) == Got(EncodeAttrs(u.attrs) + u.unread, EncodePrefixes(u.nlri))
  {
    Widths();
    var attrs, nlri := EncodeAttrs(u.attrs) + u.unread, EncodePrefixes(u.nlri);
    var r1 := Be(|attrs|, 2) + (attrs + nlri);
    TakeNum(|u.withdrawn|, 2, u.withdrawn + r1);
    TakeOctets(u.withdrawn, r1);
    TakeNum(|attrs|, 2, attrs + nlri);
    TakeOctets(attrs, nlri);
  }

  lemma {:induction false} FirstOfIsNotMalformed(attrs: seq<Attr>, typ: nat)
    ensures !FirstOf(attrs, typ).Malformed?
  {
    if attrs != [] { FirstOfIsNotMalformed(attrs[1..], typ); }
  }

  /** Parsing an encoded UPDATE returns the MP_REACH prefixes followed by the NLRI, and the flattened
      path, for both widths of AS numbers. */
  lemma UpdateRoundTrip(u: UpdateMessage, four: bool, path: seq<nat>, reach: seq<Cidr>)
    requires UpdateFits(u) && CarriesPath(u.attrs, four, path) && CarriesReach(u.attrs, reach)
    ensures Update(EncodeUpdate(u), four) == Some(Announcement(reach + u.nlri, path))
  {
    TakeSections(u);
    TakePrefixes(u.nlri, false);
    PathRoundTrip(u.attrs, u.unread, four, path);
    ReachRoundTrip(u.attrs, u.unread, reach);
  }

  lemma PathRoundTrip(attrs: seq<Attr>, unread: bytes, four: bool, path: seq<nat>)
    requires forall i :: 0 <= i < |attrs| ==> Fits(attrs[i])
    requires (unread == [] || FirstOf(attrs, AS_PATH).Present?) && CarriesPath(attrs, four, path)
    ensures PathOf(EncodeAttrs(attrs) + unread, four) == Some(path)
  {
    TakeFirst(attrs, unread, AS_PATH);
    FirstOfIsNotMalformed(attrs, AS_PATH);
    var f := FirstOf(attrs, AS_PATH);
    if f.Present? {
      var segs :| (forall i :: 0 <= i < |segs| ==> SegFits(segs[i], four))
                  && f.value == EncodeSegs(segs, four) && path == Flatten(segs);
      TakeSegs(segs, four);
    }
  }

  lemma ReachRoundTrip(attrs: seq<Attr>, unread: bytes, reach: seq<Cidr>)
    requires forall i :: 0 <= i < |attrs| ==> Fits(attrs[i])
    requires (unread == [] || FirstOf(attrs, MP_REACH_NLRI).Present?) && CarriesReach(attrs, reach)
    ensures Reachable(EncodeAttrs(attrs) + unread) == Some(reach)
  {
    TakeFirst(attrs, unread, MP_REACH_NLRI);
    FirstOfIsNotMalformed(attrs, MP_REACH_NLRI);
    var f := FirstOf(attrs, MP_REACH_NLRI);
    if f.Present? {
      var m :| ReachFits(m) && f.value == EncodeReach(m) && m.prefixes == reach;
      TakeReach(m);
    }
  }

  // ---- BGP4MP records ----

  datatype Carrier = Carrier(
    peerAs: nat, localAs: nat, ifIndex: nat, afi: nat, peer: bytes, local: bytes, marker: bytes)

  predicate CarrierFits(c: Carrier, four: bool) {
    && c.peerAs < Power256(AsnWidth(four)) && c.localAs < Power256(AsnWidth(four))
    && c.ifIndex < 65536 && c.afi < 65536
    && |c.peer| == |c.local| == AddressWidth(c.afi == 2) && |c.marker| == 16
  }

  /** A BGP4MP body: the carrier, then a BGP message of the given type, then trailing bytes. */
  function EncodeBgp4mp(c: Carrier, typ: byte, msg: bytes, tail: bytes, four: bool): bytes {
    var w := AsnWidth(four);
    Be(c.peerAs, w) + (Be(c.localAs, w) + (Be(c.ifIndex, 2) + (Be(c.afi, 2) + EncodeEnvelope(c, typ, msg, tail))))
  }

  function EncodeEnvelope(c: Carrier, typ: byte, msg: bytes, tail: bytes): bytes {
    c.peer + (c.local + (c.marker + (Be(|msg| + MESSAGE_HEADER, 2) + (Be(typ, 1) + (msg + tail)))))
  }

  lemma TakeEnvelope(c: Carrier, typ: byte, msg: bytes, tail: bytes, four: bool)
    requires CarrierFits(c, four) && |msg| + MESSAGE_HEADER < 65536
    ensures Envelope(EncodeEnvelope(c, typ, msg, tail), AddressWidth(c.afi == 2), c.peerAs)
         == Got(Header(Peer(c.peerAs, c.peer), |msg| + MESSAGE_HEADER, typ), msg + tail)
  {
    Widths();
    var r3 := Be(typ, 1) + (msg + tail);
    var r2 := Be(|msg| + MESSAGE_HEADER, 2) + r3;
    var r1 := c.marker + r2;
    TakeOctets(c.peer, c.local + r1);
    TakeOctets(c.local, r1);
    TakeOctets(c.marker, r2);
    TakeNum(|msg| + MESSAGE_HEADER, 2, r3);
    TakeNum(typ, 1, msg + tail);
  }

  lemma TakeHeader(c: Carrier, typ: byte, msg: bytes, tail: bytes, four: bool)
    requires CarrierFits(c, four) && |msg| + MESSAGE_HEADER < 65536
    ensures HeaderOf(EncodeBgp4mp(c, typ, msg, tail, four), four)
         == Got(Header(Peer(c.peerAs, c.peer), |msg| + MESSAGE_HEADER, typ), msg + tail)
  {
    Widths();
    var w := AsnWidth(four);
    var r3 := EncodeEnvelope(c, typ, msg, tail);
    var r2 := Be(c.afi, 2) + r3;
    var r1 := Be(c.ifIndex, 2) + r2;
    TakeNum(c.peerAs, w, Be(c.localAs, w) + r1);
    TakeNum(c.localAs, w, r1);
    TakeNum(c.ifIndex, 2, r2);
    TakeNum(c.afi, 2, r3);
    TakeEnvelope(c, typ, msg, tail, four);
  }

  /** A whole BGP4MP record: the routes of the encoded UPDATE, whatever trails the message. */
  lemma Bgp4mpRoundTrip(m: Memory, c: Carrier, u: UpdateMessage, tail: bytes, four: bool, time: int,
                        path: seq<nat>, reach: seq<Cidr>)
    requires UpdateFits(u) && CarriesPath(u.attrs, four, path) && CarriesReach(u.attrs, reach)
    requires CarrierFits(c, four) && |EncodeUpdate(u)| + MESSAGE_HEADER < 65536
    ensures Bgp4mp(m, EncodeBgp4mp(c, UPDATE, EncodeUpdate(u), tail, four), four, time)
         == Routes(reach + u.nlri, path, Peer(c.peerAs, c.peer), m.collector, time)
  {
    var msg := EncodeUpdate(u);
    TakeHeader(c, UPDATE, msg, tail, four);
    UpdateRoundTrip(u, four, path, reach);
    DeclaredMessage(m, Header(Peer(c.peerAs, c.peer), |msg| + MESSAGE_HEADER, UPDATE),
                    msg, tail, four, time);
  }

  /** Only the declared message counts, not what trails it in the record. */
  lemma DeclaredMessage(m: Memory, h: Header, msg: bytes, tail: bytes, four: bool, time: int)
    requires h.typ == UPDATE && h.length == |msg| + MESSAGE_HEADER
    ensures MessageRoutes(m, h, msg + tail, four, time) == UpdateRoutes(m, msg, h.peer, four, time)
  {
    assert (msg + tail)[..|msg|] == msg;
  }

  /** Routes with their time delayed. */
  function Delayed(routes: seq<Route>, delay: int): (r: seq<Route>)
    ensures |r| == |routes|
    ensures forall i :: 0 <= i < |r| ==> r[i] == routes[i].(time := routes[i].time + delay)
  {
    seq(|routes|, i requires 0 <= i < |routes| => routes[i].(time := routes[i].time + delay))
  }

  lemma RoutesTime(prefixes: seq<Cidr>, path: seq<nat>, peer: Peer, collector: nat, time: int, later: int, delay: int)
    requires later == time + delay
    ensures Routes(prefixes, path, peer, collector, later)
         == Delayed(Routes(prefixes, path, peer, collector, time), delay)
  {
  }

  lemma UpdateTime(m: Memory, msg: bytes, peer: Peer, four: bool, time: int, later: int, delay: int)
    requires later == time + delay
    ensures UpdateRoutes(m, msg, peer, four, later) == Delayed(UpdateRoutes(m, msg, peer, four, time), delay)
  {
    if Update(msg, four).Some? {
      var a := Update(msg, four).value;
      RoutesTime(a.prefixes, a.path, peer, m.collector, time, later, delay);
    }
  }

  lemma Bgp4mpTime(m: Memory, body: bytes, four: bool, time: int, later: int, delay: int)
    requires later == time + delay
    ensures Bgp4mp(m, body, four, later) == Delayed(Bgp4mp(m, body, four, time), delay)
  {
    var h := HeaderOf(body, four);
    if h.Got? && h.value.typ == BGP_UPDATE && Declared(h.value, h.rest).Some? {
      UpdateTime(m, Declared(h.value, h.rest).value, h.value.peer, four, time, later, delay);
    }
  }

  /** A message's time goes into the time field of its routes and nowhere else. */
  lemma MessageTime(m: Memory, sub: nat, body: bytes, time: int, later: int, delay: int)
    requires later == time + delay
    ensures RecordRoutes(m, TYPE_BGP4MP, sub, body, later)
         == Delayed(RecordRoutes(m, TYPE_BGP4MP, sub, body, time), delay)
  {
    Bgp4mpTime(m, body, sub == SUB_BGP4MP_MESSAGE_AS4, time, later, delay);
  }

  /** The wrapper is taken off, and its microseconds are added to the record's time. */
  lemma Unwrapped(m: Memory, sub: nat, wrapped: bytes, micros: nat, body: bytes, time: int)
    requires U(wrapped, 4) == Got(micros, body)
    ensures RecordRoutes(m, TYPE_BGP4MP_ET, sub, wrapped, time)
         == RecordRoutes(m, TYPE_BGP4MP, sub, body, Shifted(time, micros))
  {
  }

  /** The extended-timestamp wrapper is the plain record at the same time, with the time of each of its
      routes moved by the microsecond field. */
  lemma ExtendedTimestampIsPlain(m: Memory, sub: nat, micros: nat, body: bytes, time: int)
    requires micros < Power256(4)
    ensures RecordRoutes(m, TYPE_BGP4MP_ET, sub, Be(micros, 4) + body, time)
         == Delayed(RecordRoutes(m, TYPE_BGP4MP, sub, body, time), micros * 1000)
  {
    TakeNum(micros, 4, body);
    Unwrapped(m, sub, Be(micros, 4) + body, micros, body, time);
    MessageTime(m, sub, body, time, Shifted(time, micros), micros * 1000);
  }
}
