/**
 Whole records and what they come to, from the numbers in their headers on: a TABLE_DUMP_V2 record of one
 route and a BGP4MP record with an UPDATE, encoded, hand over exactly their routes; every other record,
 malformed or of another kind, hands over none.  The peer of a table route is the row of the latest table
 that its index names.
 */
module MrtRecords {
  import opened Basics
  import opened Wrappers
  import opened Bytes
  import opened MrtWire
  import opened MrtEncoding
  import opened MrtGrammar
  import opened MrtRuns

  // ---- RIB records ----

  /** One prefix and the entries of its peers; `bad` is what follows the readable entries. */
  datatype RibRecord = RibRecord(sequence: nat, prefix: Cidr, count: nat, entries: seq<Entry>, bad: bytes)

  ghost predicate StartsEntry(s: bytes) { exists e, rest :: EntryFits(e) && s == EncodeEntry(e) + rest }

  ghost predicate RibFits(r: RibRecord) {
    && r.sequence < Power256(4) && Padded(r.prefix) && |r.entries| <= r.count < Power256(2)
    && (forall i :: 0 <= i < |r.entries| ==> EntryFits(r.entries[i]))
    && (|r.entries| == r.count || !StartsEntry(r.bad))
  }

  function RibBody(r: RibRecord): bytes
    requires Padded(r.prefix)
  {
    Be(r.sequence, 4) + (EncodePrefix(r.prefix) + (Be(r.count, 2) + (EncodeEntries(r.entries) + r.bad)))
  }

  /** The record says what it is: type 13, and subtype 2 for IPv4 or 4 for IPv6. */
  ghost predicate SpellsRib(typ: nat, sub: nat, body: bytes, r: RibRecord) {
    RibFits(r) && typ == 13 && sub == (if r.prefix.v6 then 4 else 2) && body == RibBody(r)
  }

  /** One route for each readable entry, under the peer its index names. */
  ghost predicate AreRibRoutes(routes: seq<Route>, m: Memory, r: RibRecord, time: int) {
    && |routes| == |r.entries|
    && forall k :: 0 <= k < |routes| ==>
         routes[k] == Route(r.prefix, r.entries[k].path,
                            if r.entries[k].index < |m.peers| then m.peers[r.entries[k].index] else Peer(0, []),
                            m.collector, time)
  }

  lemma {:induction false} EntryRoutesAt(m: Memory, es: seq<Entry>, prefix: Cidr, time: int, k: nat)
    requires k < |es|
    ensures |EntryRoutes(m, es, prefix, time)| == |es|
    ensures EntryRoutes(m, es, prefix, time)[k]
         == Route(prefix, es[k].path, if es[k].index < |m.peers| then m.peers[es[k].index] else Peer(0, []),
                  m.collector, time)
    decreases |es|
  {
    if |es| > 1 { EntryRoutesAt(m, es[1..], prefix, time, if k > 0 then k - 1 else 0); }
  }

  lemma EntryRoutesAreRib(m: Memory, r: RibRecord, time: int)
    ensures AreRibRoutes(EntryRoutes(m, r.entries, r.prefix, time), m, r, time)
  {
    forall k | 0 <= k < |r.entries|
      ensures |EntryRoutes(m, r.entries, r.prefix, time)| == |r.entries|
      ensures EntryRoutes(m, r.entries, r.prefix, time)[k]
           == Route(r.prefix, r.entries[k].path,
                    if r.entries[k].index < |m.peers| then m.peers[r.entries[k].index] else Peer(0, []),
                    m.collector, time)
    {
      EntryRoutesAt(m, r.entries, r.prefix, time, k);
    }
  }

  lemma RibDispatch(m: Memory, body: bytes, v6: bool, time: int)
    ensures RecordRoutes(m, 13, if v6 then 4 else 2, body, time) == Rib(m, body, v6, time)
  {
  }

  /** An encoded RIB record hands over exactly the routes of its readable entries. */
  lemma RibRecordRoutes(m: Memory, typ: nat, sub: nat, body: bytes, r: RibRecord, time: int)
    requires SpellsRib(typ, sub, body, r)
    ensures AreRibRoutes(RecordRoutes(m, typ, sub, body, time), m, r, time)
  {
    BadEntryIffNoEncoding(r.bad);
    RibRoundTrip(m, r.sequence, r.prefix, r.entries, r.bad, r.count, time);
    RibDispatch(m, body, r.prefix.v6, time);
    EntryRoutesAreRib(m, r, time);
  }

  /** Conversely, a header that can be read is that of an encoded record. */
  lemma RibBytes(m: Memory, body: bytes, v6: bool) returns (r: RibRecord)
    requires RibHeader(body, v6).Got?
    ensures RibFits(r) && r.prefix.v6 == v6 && body == RibBody(r)
  {
    Widths();
    Shaved(body, 4);
    var r0 := U(body, 4).rest;
    var p := Prefix(r0, v6);
    PrefixBytes(r0, v6, p.value, p.rest);
    Shaved(p.rest, 2);
    var count := U(p.rest, 2);
    var es, bad := EveryRibIsEntries(m, count.rest, count.value, p.value, 0);
    BadEntryIffNoEncoding(bad);
    r := RibRecord(U(body, 4).value, p.value, count.value, es, bad);
  }

  // ---- Records with an UPDATE ----

  /** An UPDATE message in a record, with the path and the multiprotocol prefixes it carries. */
  datatype Framed = Framed(carrier: Carrier, message: UpdateMessage, trail: bytes, four: bool,
                           path: seq<nat>, reach: seq<Cidr>)

  ghost predicate FramedFits(f: Framed) {
    && UpdateFits(f.message) && CarriesPath(f.message.attrs, f.four, f.path)
    && CarriesReach(f.message.attrs, f.reach) && CarrierFits(f.carrier, f.four)
    && |EncodeUpdate(f.message)| + 19 < 65536
  }

  function FramedBody(f: Framed): bytes
    requires UpdateFits(f.message)
  {
    EncodeBgp4mp(f.carrier, 2, EncodeUpdate(f.message), f.trail, f.four)
  }

  /** Type 16, and subtype 4 if AS numbers take four octets, 1 if two. */
  ghost predicate SpellsUpdate(typ: nat, sub: nat, body: bytes, f: Framed) {
    FramedFits(f) && typ == 16 && sub == (if f.four then 4 else 1) && body == FramedBody(f)
  }

  /** Type 17: the same behind a microsecond field. */
  ghost predicate SpellsLate(typ: nat, sub: nat, body: bytes, f: Framed, micros: nat) {
    && FramedFits(f) && typ == 17 && sub == (if f.four then 4 else 1) && micros < Power256(4)
    && body == Be(micros, 4) + FramedBody(f)
  }

  function Announced(f: Framed): seq<Cidr> { f.reach + f.message.nlri }

  /** One route for each announced prefix, under the peer of the record. */
  ghost predicate AreUpdateRoutes(routes: seq<Route>, m: Memory, f: Framed, time: int) {
    && |routes| == |Announced(f)|
    && forall k :: 0 <= k < |routes| ==>
         routes[k] == Route(Announced(f)[k], f.path, Peer(f.carrier.peerAs, f.carrier.peer), m.collector, time)
  }

  lemma MessageDispatch(m: Memory, body: bytes, four: bool, time: int)
    ensures RecordRoutes(m, 16, if four then 4 else 1, body, time) == Bgp4mp(m, body, four, time)
  {
  }

  lemma UpdateRecordRoutes(m: Memory, typ: nat, sub: nat, body: bytes, f: Framed, time: int)
    requires SpellsUpdate(typ, sub, body, f)
    ensures AreUpdateRoutes(RecordRoutes(m, typ, sub, body, time), m, f, time)
  {
    Bgp4mpRoundTrip(m, f.carrier, f.message, f.trail, f.four, time, f.path, f.reach);
    MessageDispatch(m, body, f.four, time);
  }

  lemma LateRecordRoutes(m: Memory, typ: nat, sub: nat, body: bytes, f: Framed, micros: nat, time: int)
    requires SpellsLate(typ, sub, body, f, micros)
    ensures AreUpdateRoutes(RecordRoutes(m, typ, sub, body, time), m, f, time + 1000 * micros)
  {
    UpdateRecordRoutes(m, 16, sub, FramedBody(f), f, time);
    ExtendedTimestampIsPlain(m, sub, micros, FramedBody(f), time);
  }

  lemma CarrierNumbers(body: bytes, four: bool)
    returns (peerAs: nat, localAs: nat, ifIndex: nat, afi: nat, rest: bytes)
    requires HeaderOf(body, four).Got?
    ensures peerAs < Power256(AsnWidth(four)) && localAs < Power256(AsnWidth(four)) && ifIndex < 65536 && afi < 65536
    ensures body == Be(peerAs, AsnWidth(four)) + (Be(localAs, AsnWidth(four)) + (Be(ifIndex, 2) + (Be(afi, 2) + rest)))
    ensures HeaderOf(body, four) == Envelope(rest, AddressWidth(afi == 2), peerAs)
  {
    Widths();
    var w := AsnWidth(four);
    Shaved(body, w);
    var r0 := U(body, w).rest;
    Shaved(r0, w);
    var r1 := U(r0, w).rest;
    Shaved(r1, 2);
    var r2 := U(r1, 2).rest;
    Shaved(r2, 2);
    peerAs, localAs, ifIndex, afi, rest
      := U(body, w).value, U(r0, w).value, U(r1, 2).value, U(r2, 2).value, U(r2, 2).rest;
  }

  /** Conversely, a header that can be read is that of an encoded carrier. */
  lemma CarrierBytes(body: bytes, four: bool, h: Header, rest: bytes, msg: bytes) returns (c: Carrier, trail: bytes)
    requires HeaderOf(body, four) == Got(h, rest) && Declared(h, rest) == Some(msg)
    ensures CarrierFits(c, four) && h.typ < 256 && |msg| + 19 < 65536
    ensures body == EncodeBgp4mp(c, h.typ as byte, msg, trail, four)
  {
    var peerAs, localAs, ifIndex, afi, envelope := CarrierNumbers(body, four);
    var peer, local, marker := EnvelopeBytes(envelope, AddressWidth(afi == 2), peerAs, h, rest);
    c := Carrier(peerAs, localAs, ifIndex, afi, peer, local, marker);
    trail := DeclaredBytes(h, rest, msg);
    CarrierInPieces(c, h.typ as byte, msg, trail, four, body, envelope, rest, h.length);
  }

  lemma DeclaredBytes(h: Header, rest: bytes, msg: bytes) returns (trail: bytes)
    requires Declared(h, rest) == Some(msg)
    ensures h.length == |msg| + 19 && rest == msg + trail
  {
    trail := rest[|msg|..];
    Halves(rest, |msg|);
  }

  lemma CarrierInPieces(c: Carrier, typ: byte, msg: bytes, trail: bytes, four: bool,
                        body: bytes, envelope: bytes, rest: bytes, length: nat)
    requires rest == msg + trail && length == |msg| + 19
    requires envelope == c.peer + (c.local + (c.marker + (Be(length, 2) + (Be(typ, 1) + rest))))
    requires body == Be(c.peerAs, AsnWidth(four))
                     + (Be(c.localAs, AsnWidth(four)) + (Be(c.ifIndex, 2) + (Be(c.afi, 2) + envelope)))
    ensures body == EncodeBgp4mp(c, typ, msg, trail, four)
  {
  }

  lemma EnvelopeBytes(s: bytes, n: nat, peerAs: nat, h: Header, rest: bytes)
    returns (peer: bytes, local: bytes, marker: bytes)
    requires Envelope(s, n, peerAs) == Got(h, rest)
    ensures |peer| == |local| == n && |marker| == 16 && h.length < 65536 && h.typ < 256 && h.peer == Peer(peerAs, peer)
    ensures s == peer + (local + (marker + (Be(h.length, 2) + (Be(h.typ, 1) + rest))))
  {
    Widths();
    peer := s[..n];
    var r0 := s[n..];
    local := r0[..n];
    var r1 := r0[n..];
    marker := r1[..16];
    var r2 := r1[16..];
    Shaved(r2, 2);
    Shaved(U(r2, 2).rest, 1);
    assert s == peer + r0 && r0 == local + r1 && r1 == marker + r2;
  }

  lemma FramedBytes(m: Memory, body: bytes, four: bool, time: int) returns (f: Framed)
    requires Bgp4mp(m, body, four, time) != []
    ensures FramedFits(f) && f.four == four && body == FramedBody(f)
  {
    var p := HeaderOf(body, four);
    var msg := Declared(p.value, p.rest).value;
    var c, trail := CarrierBytes(body, four, p.value, p.rest, msg);
    var a := Update(msg, four).value;
    var u := UpdateBytes(msg, four, a);
    var reach :| CarriesReach(u.attrs, reach) && a.prefixes == reach + u.nlri;
    f := Framed(c, u, trail, four, a.path, reach);
  }

  // ---- All other records ----

  /** The record is one of the three kinds, encoded. */
  ghost predicate Spelled(typ: nat, sub: nat, body: bytes) {
    || (exists r :: SpellsRib(typ, sub, body, r))
    || (exists f :: SpellsUpdate(typ, sub, body, f))
    || (exists f, micros :: SpellsLate(typ, sub, body, f, micros))
  }

  /** A record that hands over a route is one of the three kinds, encoded: malformed records and records
      of any other type or subtype hand over none. */
  lemma RoutesAreSpelled(m: Memory, typ: nat, sub: nat, body: bytes, time: int)
    requires RecordRoutes(m, typ, sub, body, time) != []
    ensures Spelled(typ, sub, body)
  {
    if typ == 13 {
      var r := RibBytes(m, body, sub == 4);
      assert SpellsRib(typ, sub, body, r);
    } else if typ == 16 {
      var f := FramedBytes(m, body, sub == 4, time);
      assert SpellsUpdate(typ, sub, body, f);
    } else {
      Shaved(body, 4);
      var micros := U(body, 4).value;
      var f := FramedBytes(m, U(body, 4).rest, sub == 4, Shifted(time, micros));
      assert SpellsLate(typ, sub, body, f, micros);
    }
  }

  // ---- Peer tables ----

  /** A record that can be read, of type 13 and subtype 1, whose body is a collector id and a table. */
  ghost predicate SpellsTable(src: Source, r: Record, id: nat, t: PeerTable) {
    && r.typ == 13 && r.sub == 1 && |r.body| <= src.maxRecord
    && id < Power256(4) && TableFits(t) && r.body == Be(id, 4) + EncodeTable(t)
  }

  ghost predicate HoldsTable(src: Source, r: Record) { exists id, t :: SpellsTable(src, r, id, t) }

  lemma TableBehindId(src: Source, r: Record, id: nat, t: PeerTable)
    requires SpellsTable(src, r, id, t)
    ensures CompleteTable(src, r) && PeerIndex(r.body[4..]) == Some(PeersOf(t.rows))
  {
    assert r.body[4..] == EncodeTable(t);
    TableRoundTrip(t);
  }

  lemma CompleteIffHoldsTable(src: Source, r: Record)
    ensures CompleteTable(src, r) <==> HoldsTable(src, r)
  {
    if CompleteTable(src, r) {
      Shaved(r.body, 4);
      var t := TableBytes(r.body[4..], PeerIndex(r.body[4..]).value);
      assert SpellsTable(src, r, U(r.body, 4).value, t);
    }
    if id, t :| SpellsTable(src, r, id, t) {
      TableBehindId(src, r, id, t);
    }
  }

  /** Record i is the latest table. */
  ghost predicate LatestTable(src: Source, rs: seq<Record>, i: nat, t: PeerTable) {
    && i < |rs| && (exists id :: SpellsTable(src, rs[i], id, t))
    && forall j :: i < j < |rs| ==> !HoldsTable(src, rs[j])
  }

  lemma PeersOfLatestTable(src: Source, m: Memory, rs: seq<Record>, i: nat, t: PeerTable)
    requires LatestTable(src, rs, i, t)
    ensures FinalMemory(src, m, rs).peers == PeersOf(t.rows)
  {
    var id :| SpellsTable(src, rs[i], id, t);
    TableBehindId(src, rs[i], id, t);
    forall j | i < j < |rs| ensures !CompleteTable(src, rs[j]) { CompleteIffHoldsTable(src, rs[j]); }
    MemoryComesFromLatestTable(src, m, rs);
    assert LastComplete(src, rs, i);
  }

  lemma {:induction false} RowsArePeers(rows: seq<Row>, k: nat)
    requires k < |rows|
    ensures |PeersOf(rows)| == |rows| && PeersOf(rows)[k] == rows[k].peer
    decreases |rows|
  {
    if |rows| > 1 { RowsArePeers(rows[1..], if k > 0 then k - 1 else 0); }
  }

  /** Route k of a RIB record carries the row of the latest table that entry k names; it carries AS 0 and no
      address exactly if there is no such row. */
  lemma RibRoutesCarryRows(
    src: Source, m: Memory, before: seq<Record>, i: nat, t: PeerTable,
    typ: nat, sub: nat, body: bytes, r: RibRecord, time: int, k: nat)
    requires LatestTable(src, before, i, t) && SpellsRib(typ, sub, body, r) && k < |r.entries|
    ensures var routes, index := RecordRoutes(FinalMemory(src, m, before), typ, sub, body, time), r.entries[k].index;
            && |routes| == |r.entries|
            && (index < |t.rows| ==> routes[k].peer == t.rows[index].peer)
            && (routes[k].peer == Peer(0, []) <==> index >= |t.rows|)
  {
    RibRecordRoutes(FinalMemory(src, m, before), typ, sub, body, r, time);
    PeersOfLatestTable(src, m, before, i, t);
    var index := r.entries[k].index;
    if index < |t.rows| {
      RowsArePeers(t.rows, index);
      assert RowFits(t.rows[index]);
    } else if t.rows != [] {
      RowsArePeers(t.rows, 0);
    }
  }

  /** Before the first table no route of a RIB record has a peer. */
  lemma NoTableNoPeers(src: Source, before: seq<Record>, collector: nat,
                       typ: nat, sub: nat, body: bytes, r: RibRecord, time: int, k: nat)
    requires (forall j :: 0 <= j < |before| ==> !HoldsTable(src, before[j]))
    requires SpellsRib(typ, sub, body, r) && k < |r.entries|
    ensures var routes := RecordRoutes(FinalMemory(src, Memory([], collector), before), typ, sub, body, time);
            |routes| == |r.entries| && routes[k].peer == Peer(0, [])
  {
    var m := Memory([], collector);
    forall j | 0 <= j < |before| ensures !CompleteTable(src, before[j]) { CompleteIffHoldsTable(src, before[j]); }
    MemoryComesFromLatestTable(src, m, before);
    RibRecordRoutes(FinalMemory(src, m, before), typ, sub, body, r, time);
  }

  /** A record that can be read, of type 13 and subtype 1, that begins with a collector id. */
  predicate NamesCollector(src: Source, r: Record, id: nat) {
    && r.typ == 13 && r.sub == 1 && |r.body| <= src.maxRecord
    && id < Power256(4) && |r.body| >= 4 && r.body[..4] == Be(id, 4)
  }

  /** The collector of every route is the id of the latest record that begins with one. */
  lemma CollectorOfLatest(src: Source, m: Memory, rs: seq<Record>, i: nat, id: nat)
    requires i < |rs| && NamesCollector(src, rs[i], id)
    requires forall j :: i < j < |rs| ==> !StartedTable(src, rs[j])
    ensures FinalMemory(src, m, rs).collector == id
  {
    MemoryComesFromLatestTable(src, m, rs);
    assert LastStarted(src, rs, i);
    NumBe(id, 4);
  }
}
