/**
 The converse of the encodings: whatever the parsers accept is an encoding of what they return.  With
 the round trips this says exactly which bytes are accepted and what they mean; everything else is
 malformed.
 */
module MrtGrammar {
  import opened Basics
  import opened Wrappers
  import opened Bytes
  import opened MrtWire
  import opened MrtEncoding

  // ---- Prefixes ----

  lemma PrefixBytes(s: bytes, v6: bool, c: Cidr, rest: bytes)
    requires Prefix(s, v6) == Got(c, rest)
    ensures Padded(c) && c.v6 == v6 && s == EncodePrefix(c) + rest
  {
    Shaved(s, 1);
    var r := U(s, 1).rest;
    var n := (c.bits + 7) / 8;
    var raw := r[..n];
    assert r == raw + rest && c.address == raw + Zeros(AddressWidth(v6) - n);
    assert c.address[..n] == raw && c.address[n..] == Zeros(AddressWidth(v6) - n);
    Assoc(Be(c.bits, 1), raw, rest);
  }

  lemma {:induction false} PrefixesBytes(s: bytes, v6: bool, cs: seq<Cidr>)
    requires Prefixes(s, v6) == Some(cs)
    ensures forall i :: 0 <= i < |cs| ==> Padded(cs[i]) && cs[i].v6 == v6
    ensures s == EncodePrefixes(cs)
    decreases |s|
  {
    if s != [] {
      var p := Prefix(s, v6);
      var later := Prefixes(p.rest, v6).value;
      PrefixBytes(s, v6, p.value, p.rest);
      PrefixesBytes(p.rest, v6, later);
      assert cs == [p.value] + later && cs[1..] == later;
    }
  }

  // ---- Attributes ----

  lemma AttrBytes(s: bytes, typ: nat, value: bytes, rest: bytes) returns (a: Attr)
    requires Attribute(s) == Got((typ, value), rest)
    ensures Fits(a) && a.typ == typ && a.value == value && s == EncodeAttr(a) + rest
  {
    Widths();
    Shaved(s, 1);
    var r0 := U(s, 1).rest;
    Shaved(r0, 1);
    var r1 := U(r0, 1).rest;
    a := Attr(U(s, 1).value, typ, value);
    Shaved(r1, LengthOctets(a));
    var len := Be(|value|, LengthOctets(a));
    Assoc(len, value, rest);
    Assoc(Be(typ, 1), len + value, rest);
    Assoc(Be(a.flags, 1), Be(typ, 1) + (len + value), rest);
  }

  lemma AttrsCons(a: Attr, later: seq<Attr>, unread: bytes)
    ensures EncodeAttrs([a] + later) + unread == EncodeAttr(a) + (EncodeAttrs(later) + unread)
    ensures forall t :: FirstOf([a] + later, t) == if a.typ == t then Present(a.value) else FirstOf(later, t)
  {
    assert ([a] + later)[1..] == later;
    Assoc(EncodeAttr(a), EncodeAttrs(later), unread);
  }

  /** No search for one of these types comes upon a malformed attribute. */
  ghost predicate Searchable(s: bytes, typs: set<nat>) { forall t :: t in typs ==> !Find(s, t).Malformed? }

  lemma SearchablePast(s: bytes, typs: set<nat>)
    requires Searchable(s, typs) && s != [] && typs != {}
    ensures Attribute(s).Got? && Searchable(Attribute(s).rest, typs - {Attribute(s).value.0})
  {
    var t :| t in typs;
    assert !Find(s, t).Malformed?;
    forall u | u in typs - {Attribute(s).value.0} ensures !Find(Attribute(s).rest, u).Malformed? {
      assert !Find(s, u).Malformed?;
    }
  }

  /** Such bytes are whole attributes, followed by bytes that none of the searches reaches. */
  lemma {:induction false} AttrsBytes(s: bytes, typs: set<nat>) returns (attrs: seq<Attr>, unread: bytes)
    requires Searchable(s, typs)
    ensures (forall i :: 0 <= i < |attrs| ==> Fits(attrs[i])) && s == EncodeAttrs(attrs) + unread
    ensures unread == [] || forall t :: t in typs ==> FirstOf(attrs, t).Present?
    decreases |s|
  {
    if s == [] || typs == {} {
      attrs, unread := [], s;
      assert [] + s == s;
    } else {
      SearchablePast(s, typs);
      var p := Attribute(s);
      var a := AttrBytes(s, p.value.0, p.value.1, p.rest);
      var later;
      later, unread := AttrsBytes(p.rest, typs - {p.value.0});
      attrs := [a] + later;
      AttrsCons(a, later, unread);
      forall t | unread != [] && t in typs ensures FirstOf(attrs, t).Present? {
        assert t == a.typ || t in typs - {p.value.0};
      }
    }
  }

  // ---- AS_PATH ----

  lemma {:induction false} AsnsBytes(s: bytes, count: nat, four: bool, asns: seq<nat>, rest: bytes)
    requires Asns(s, count, four) == Got(asns, rest)
    ensures |asns| == count && forall i :: 0 <= i < count ==> asns[i] < Power256(AsnWidth(four))
    ensures s == EncodeAsns(asns, four) + rest
    decreases count
  {
    if count > 0 {
      var w, fewer := AsnWidth(four), count - 1;
      Shaved(s, w);
      var r := U(s, w).rest;
      var later := Asns(r, fewer, four).value;
      AsnsBytes(r, fewer, four, later, rest);
      assert asns == [U(s, w).value] + later && asns[1..] == later;
      Assoc(Be(asns[0], w), EncodeAsns(later, four), rest);
    }
  }

  lemma SegBytes(s: bytes, four: bool, asns: seq<nat>, rest: bytes) returns (seg: Seg)
    requires Segment(s, four) == Got(asns, rest)
    ensures SegFits(seg, four) && seg.asns == asns && s == EncodeSeg(seg, four) + rest
  {
    Widths();
    Shaved(s, 1);
    var r0 := U(s, 1).rest;
    Shaved(r0, 1);
    seg := Seg(U(s, 1).value, asns);
    AsnsBytes(U(r0, 1).rest, U(r0, 1).value, four, asns, rest);
    var body := EncodeAsns(asns, four);
    Assoc(Be(|asns|, 1), body, rest);
    Assoc(Be(seg.typ, 1), Be(|asns|, 1) + body, rest);
  }

  lemma {:induction false} SegsBytes(s: bytes, four: bool, path: seq<nat>) returns (segs: seq<Seg>)
    requires AsPath(s, four) == Some(path)
    ensures (forall i :: 0 <= i < |segs| ==> SegFits(segs[i], four))
            && s == EncodeSegs(segs, four) && path == Flatten(segs)
    decreases |s|
  {
    segs := [];
    if s != [] {
      var p := Segment(s, four);
      var seg := SegBytes(s, four, p.value, p.rest);
      var later := SegsBytes(p.rest, four, AsPath(p.rest, four).value);
      segs := [seg] + later;
      assert segs[1..] == later;
    }
  }

  lemma PathCarried(attrs: seq<Attr>, unread: bytes, four: bool, path: seq<nat>)
    requires forall i :: 0 <= i < |attrs| ==> Fits(attrs[i])
    requires unread == [] || FirstOf(attrs, AS_PATH).Present?
    requires PathOf(EncodeAttrs(attrs) + unread, four) == Some(path)
    ensures CarriesPath(attrs, four, path)
  {
    TakeFirst(attrs, unread, AS_PATH);
    var f := FirstOf(attrs, AS_PATH);
    if f.Present? { var segs := SegsBytes(f.value, four, path); }
  }

  // ---- MP_REACH_NLRI ----

  lemma ReachBytes(v: bytes, prefixes: seq<Cidr>) returns (m: Reach)
    requires MpReach(v) == Some(prefixes)
    ensures ReachFits(m) && v == EncodeReach(m) && m.prefixes == prefixes
  {
    Widths();
    Shaved(v, 2);
    var r0 := U(v, 2).rest;
    Shaved(r0, 1);
    var r1 := U(r0, 1).rest;
    Shaved(r1, 1);
    var r2 := U(r1, 1).rest;
    var hop := Octets(r2, U(r1, 1).value);
    Shaved(hop.rest, 1);
    m := Reach(U(v, 2).value, U(r0, 1).value, hop.value, U(hop.rest, 1).value, prefixes);
    PrefixesBytes(U(hop.rest, 1).rest, m.afi == 2, prefixes);
  }

  lemma ReachCarried(attrs: seq<Attr>, unread: bytes, reach: seq<Cidr>)
    requires forall i :: 0 <= i < |attrs| ==> Fits(attrs[i])
    requires unread == [] || FirstOf(attrs, MP_REACH_NLRI).Present?
    requires Reachable(EncodeAttrs(attrs) + unread) == Some(reach)
    ensures CarriesReach(attrs, reach)
  {
    TakeFirst(attrs, unread, MP_REACH_NLRI);
    var f := FirstOf(attrs, MP_REACH_NLRI);
    if f.Present? { var m := ReachBytes(f.value, reach); }
  }

  // ---- UPDATE ----

  /** The withdrawn routes, and the three parts again as bytes. */
  lemma SectionBytes(msg: bytes, attrs: bytes, nlri: bytes) returns (withdrawn: bytes)
    requires Split(msg) == Got(attrs, nlri)
    ensures |withdrawn| < 65536 && |attrs| < 65536
    ensures msg == Be(|withdrawn|, 2) + (withdrawn + (Be(|attrs|, 2) + (attrs + nlri)))
  {
    Widths();
    Shaved(msg, 2);
    var w := Octets(U(msg, 2).rest, U(msg, 2).value);
    withdrawn := w.value;
    Shaved(w.rest, 2);
  }

  /** An UPDATE announces these prefixes and this path. */
  ghost predicate Announces(u: UpdateMessage, four: bool, a: Announcement) {
    && UpdateFits(u) && CarriesPath(u.attrs, four, a.path)
    && exists reach :: CarriesReach(u.attrs, reach) && a.prefixes == reach + u.nlri
  }

  /** Attribute bytes that both searches accept. */
  lemma UpdateAttrs(s: bytes, four: bool, path: seq<nat>, reach: seq<Cidr>) returns (attrs: seq<Attr>, unread: bytes)
    requires PathOf(s, four) == Some(path) && Reachable(s) == Some(reach)
    ensures (forall i :: 0 <= i < |attrs| ==> Fits(attrs[i])) && s == EncodeAttrs(attrs) + unread
    ensures unread == [] || (FirstOf(attrs, AS_PATH).Present? && FirstOf(attrs, MP_REACH_NLRI).Present?)
    ensures CarriesPath(attrs, four, path) && CarriesReach(attrs, reach)
  {
    attrs, unread := AttrsBytes(s, {AS_PATH, MP_REACH_NLRI});
    assert unread == [] || (FirstOf(attrs, AS_PATH).Present? && FirstOf(attrs, MP_REACH_NLRI).Present?);
    PathCarried(attrs, unread, four, path);
    ReachCarried(attrs, unread, reach);
  }

  /** What an accepted UPDATE is made of. */
  lemma UpdateParts(msg: bytes, four: bool, a: Announcement)
    returns (attrs: bytes, rest: bytes, reach: seq<Cidr>, nlri: seq<Cidr>)
    requires Update(msg, four) == Some(a)
    ensures Split(msg) == Got(attrs, rest) && PathOf(attrs, four) == Some(a.path)
    ensures Reachable(attrs) == Some(reach) && Prefixes(rest, false) == Some(nlri) && a.prefixes == reach + nlri
  {
    attrs, rest := Split(msg).value, Split(msg).rest;
    reach, nlri := Reachable(attrs).value, Prefixes(rest, false).value;
  }

  lemma Assembled(u: UpdateMessage, four: bool, a: Announcement, reach: seq<Cidr>)
    requires UpdateFits(u) && CarriesPath(u.attrs, four, a.path) && CarriesReach(u.attrs, reach)
    requires a.prefixes == reach + u.nlri
    ensures Announces(u, four, a)
  {
  }

  lemma UpdateBytes(msg: bytes, four: bool, a: Announcement) returns (u: UpdateMessage)
    requires Update(msg, four) == Some(a)
    ensures Announces(u, four, a) && msg == EncodeUpdate(u)
  {
    var all, rest, reach, nlri := UpdateParts(msg, four, a);
    var withdrawn := SectionBytes(msg, all, rest);
    var attrs, unread := UpdateAttrs(all, four, a.path, reach);
    PrefixesBytes(rest, false, nlri);
    u := UpdateMessage(withdrawn, attrs, unread, nlri);
    Assembled(u, four, a, reach);
  }

  /** An UPDATE is accepted, with these prefixes and this path, if and only if its bytes encode one that
      announces them.  Bytes trailing the attributes are tolerated exactly when both attributes the
      parser looks for come before them. */
  lemma UpdateIffGrammar(msg: bytes, four: bool, a: Announcement)
    ensures Update(msg, four) == Some(a) <==> exists u :: Announces(u, four, a) && msg == EncodeUpdate(u)
  {
    if Update(msg, four) == Some(a) {
      var u := UpdateBytes(msg, four, a);
    }
    if u :| Announces(u, four, a) && msg == EncodeUpdate(u) {
      var reach :| CarriesReach(u.attrs, reach) && a.prefixes == reach + u.nlri;
      UpdateRoundTrip(u, four, a.path, reach);
    }
  }

  /** An UPDATE with an empty path, an MP_REACH_NLRI that announces nothing, and one byte behind them. */
  function Trailing(junk: byte): UpdateMessage {
    var attrs := [Attr(64, AS_PATH, []), Attr(128, MP_REACH_NLRI, [0, 1, 1, 0, 0])];
    UpdateMessage([], attrs, [junk], [])
  }

  /** Malformed bytes behind the attributes are accepted: whatever the byte is, it is no attribute. */
  lemma TrailingByteIsAccepted(junk: byte, four: bool)
    ensures UpdateFits(Trailing(junk)) && Attribute([junk]).Short?
    ensures Update(EncodeUpdate(Trailing(junk)), four) == Some(Announcement([], []))
  {
    var u := Trailing(junk);
    var path, reach := u.attrs[0], u.attrs[1];
    var empty := Reach(1, 1, [], 0, []);
    assert FirstOf(u.attrs, AS_PATH) == Present([]);
    assert u.attrs[1..][0] == reach && FirstOf(u.attrs, MP_REACH_NLRI) == Present(reach.value);
    EmptyReach(empty);
    TrailingFits(u, path, reach);
    assert EncodeSegs([], four) == [] && Flatten([]) == [];
    assert CarriesPath(u.attrs, four, []);
    assert CarriesReach(u.attrs, []);
    UpdateRoundTrip(u, four, [], []);
    assert [] + u.nlri == [];
  }

  lemma EmptyReach(m: Reach)
    requires m == Reach(1, 1, [], 0, [])
    ensures ReachFits(m) && EncodeReach(m) == [0, 1, 1, 0, 0]
  {
    assert Be(1, 2) == [0, 1] && Be(1, 1) == [1] && Be(0, 1) == [0];
  }

  lemma TrailingFits(u: UpdateMessage, path: Attr, reach: Attr)
    requires u.attrs == [path, reach] && path.value == [] && |reach.value| == 5 && |u.unread| == 1
    requires !LongForm(path.flags) && !LongForm(reach.flags)
    ensures |EncodeAttrs(u.attrs) + u.unread| == 12
  {
    assert u.attrs[1..] == [reach] && [reach][1..] == [];
    assert |EncodeAttr(path)| == 3 && |EncodeAttr(reach)| == 8;
    assert EncodeAttrs(u.attrs) == EncodeAttr(path) + EncodeAttrs([reach]);
    assert EncodeAttrs([reach]) == EncodeAttr(reach) + EncodeAttrs([]);
  }

  // ---- PEER_INDEX_TABLE ----

  /** The low bits of `typ` give the width of the address and of the AS number. */
  datatype Row = Row(typ: byte, bgpId: nat, peer: Peer)

  function RowAsnOctets(typ: byte): nat { if typ / 2 % 2 == 1 then 4 else 2 }

  predicate RowFits(r: Row) {
    && r.bgpId < Power256(4) && |r.peer.address| == (if r.typ % 2 == 1 then 16 else 4)
    && r.peer.asn < Power256(RowAsnOctets(r.typ))
  }

  function EncodeRow(r: Row): bytes {
    Be(r.typ, 1) + (Be(r.bgpId, 4) + (r.peer.address + Be(r.peer.asn, RowAsnOctets(r.typ))))
  }

  function EncodeRows(rows: seq<Row>): bytes {
    if rows == [] then [] else EncodeRow(rows[0]) + EncodeRows(rows[1..])
  }

  function PeersOf(rows: seq<Row>): seq<Peer> {
    if rows == [] then [] else [rows[0].peer] + PeersOf(rows[1..])
  }

  /** Bytes after the declared rows are ignored. */
  datatype PeerTable = PeerTable(view: bytes, rows: seq<Row>, trailing: bytes)

  predicate TableFits(t: PeerTable) {
    |t.view| < 65536 && |t.rows| < 65536 && forall i :: 0 <= i < |t.rows| ==> RowFits(t.rows[i])
  }

  function EncodeTable(t: PeerTable): bytes {
    Be(|t.view|, 2) + (t.view + (Be(|t.rows|, 2) + (EncodeRows(t.rows) + t.trailing)))
  }

  lemma TakeRow(r: Row, rest: bytes)
    requires RowFits(r)
    ensures PeerEntry(EncodeRow(r) + rest) == Got(r.peer, rest)
  {
    Widths();
    var asn := Be(r.peer.asn, RowAsnOctets(r.typ));
    var r2 := r.peer.address + asn;
    var r1 := Be(r.bgpId, 4) + r2;
    Assoc(Be(r.typ, 1), r1, rest);
    Assoc(Be(r.bgpId, 4), r2, rest);
    Assoc(r.peer.address, asn, rest);
    TakeNum(r.typ, 1, r1 + rest);
    TakeNum(r.bgpId, 4, r2 + rest);
    TakeOctets(r.peer.address, asn + rest);
    TakeNum(r.peer.asn, RowAsnOctets(r.typ), rest);
  }

  lemma {:induction false} TakeRows(rows: seq<Row>, count: nat, rest: bytes)
    requires count == |rows| && forall i :: 0 <= i < |rows| ==> RowFits(rows[i])
    ensures PeerEntries(EncodeRows(rows) + rest, count) == Some(PeersOf(rows))
    decreases count
  {
    if count > 0 {
      var fewer := count - 1;
      Assoc(EncodeRow(rows[0]), EncodeRows(rows[1..]), rest);
      TakeRow(rows[0], EncodeRows(rows[1..]) + rest);
      TakeRows(rows[1..], fewer, rest);
    }
  }

  lemma RowBytes(s: bytes, p: Peer, rest: bytes) returns (r: Row)
    requires PeerEntry(s) == Got(p, rest)
    ensures RowFits(r) && r.peer == p && s == EncodeRow(r) + rest
  {
    Widths();
    Shaved(s, 1);
    var r0 := U(s, 1).rest;
    Shaved(r0, 4);
    r := Row(U(s, 1).value, U(r0, 4).value, p);
    var address := Octets(U(r0, 4).rest, if r.typ % 2 == 1 then 16 else 4);
    Shaved(address.rest, RowAsnOctets(r.typ));
    var asn := Be(p.asn, RowAsnOctets(r.typ));
    Assoc(p.address, asn, rest);
    Assoc(Be(r.bgpId, 4), p.address + asn, rest);
    Assoc(Be(r.typ, 1), Be(r.bgpId, 4) + (p.address + asn), rest);
  }

  lemma {:induction false} RowsBytes(s: bytes, count: nat, ps: seq<Peer>) returns (rows: seq<Row>, trailing: bytes)
    requires PeerEntries(s, count) == Some(ps)
    ensures |rows| == count && (forall i :: 0 <= i < |rows| ==> RowFits(rows[i]))
    ensures s == EncodeRows(rows) + trailing && ps == PeersOf(rows)
    decreases count
  {
    if count == 0 {
      rows, trailing := [], s;
      assert [] + s == s;
    } else {
      var p, fewer := PeerEntry(s), count - 1;
      var row := RowBytes(s, p.value, p.rest);
      var later;
      later, trailing := RowsBytes(p.rest, fewer, PeerEntries(p.rest, fewer).value);
      rows := [row] + later;
      assert rows[1..] == later;
      Assoc(EncodeRow(row), EncodeRows(later), trailing);
    }
  }

  lemma TableBytes(s: bytes, ps: seq<Peer>) returns (t: PeerTable)
    requires PeerIndex(s) == Some(ps)
    ensures TableFits(t) && s == EncodeTable(t) && ps == PeersOf(t.rows)
  {
    Widths();
    Shaved(s, 2);
    var view := Octets(U(s, 2).rest, U(s, 2).value);
    Shaved(view.rest, 2);
    var count := U(view.rest, 2);
    var rows, trailing := RowsBytes(count.rest, count.value, ps);
    t := PeerTable(view.value, rows, trailing);
  }

  lemma TableRoundTrip(t: PeerTable)
    requires TableFits(t)
    ensures PeerIndex(EncodeTable(t)) == Some(PeersOf(t.rows))
  {
    Widths();
    var r1 := EncodeRows(t.rows) + t.trailing;
    var r0 := Be(|t.rows|, 2) + r1;
    TakeNum(|t.view|, 2, t.view + r0);
    TakeOctets(t.view, r0);
    TakeNum(|t.rows|, 2, r1);
    TakeRows(t.rows, |t.rows|, t.trailing);
  }

  /** The peer list of a table is accepted if and only if its bytes, after the collector id, encode a
      table with those peers. */
  lemma TableIffGrammar(s: bytes, ps: seq<Peer>)
    ensures PeerIndex(s) == Some(ps) <==> exists t :: TableFits(t) && s == EncodeTable(t) && ps == PeersOf(t.rows)
  {
    if PeerIndex(s) == Some(ps) {
      var t := TableBytes(s, ps);
    }
    if t :| TableFits(t) && s == EncodeTable(t) && ps == PeersOf(t.rows) {
      TableRoundTrip(t);
    }
  }
}
