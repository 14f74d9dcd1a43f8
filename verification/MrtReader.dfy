/**
 The streaming reader: a bounds-checked cursor over untrusted bytes, and a reader object that keeps
 the peer table between records.  A read past the end abandons the record, never the stream.
 */
module MrtReader {
  import opened Basics
  import opened Wrappers
  import opened Bytes
  import opened MrtWire

  const MAX_MRT_RECORD_LENGTH := 16 * 1024 * 1024

  class Reader {
    const data: bytes
    var at: nat

    ghost predicate Valid()
      reads this
    {
      at <= |data|
    }

    ghost function Rest(): bytes
      reads this
      requires Valid()
    {
      data[at..]
    }

    constructor (data: bytes)
      ensures Valid() && Rest() == data && this.data == data
    {
      this.data, at := data, 0;
    }

    method Read(n: int) returns (b: Option<bytes>)
      requires Valid()
      modifies this
      ensures Valid()
      ensures b.None? <==> n < 0 || n > |old(Rest())|
      ensures b.Some? ==> b.value == old(Rest())[..n] && Rest() == old(Rest())[n..]
      ensures b.None? ==> at == old(at)
    {
      if n < 0 || at + n > |data| { return None; }
      b := Some(data[at..at + n]);
      assert data[at..][..n] == data[at..at + n];
      at := at + n;
    }

    /** u8, u16, u32: n octets, big-endian. */
    method ReadNum(n: nat) returns (v: Option<nat>)
      requires Valid()
      modifies this
      ensures Valid()
      ensures v.None? <==> U(old(Rest()), n).Short?
      ensures v.Some? ==> U(old(Rest()), n) == Got(v.value, Rest())
    {
      var b := Read(n);
      if b.None? { return None; }
      return Some(Num(b.value));
    }

    method Remaining() returns (n: nat)
      requires Valid()
      ensures n == |Rest()|
    {
      n := |data| - at;
    }

    method TakeRest() returns (b: bytes)
      requires Valid()
      modifies this
      ensures Valid() && b == old(Rest()) && Rest() == []
    {
      b := data[at..];
      at := |data|;
    }

    method ReadPrefix(v6: bool) returns (p: Option<Cidr>)
      requires Valid()
      modifies this
      ensures Valid()
      ensures p.None? <==> Prefix(old(Rest()), v6).Short?
      ensures p.Some? ==> Prefix(old(Rest()), v6) == Got(p.value, Rest())
    {
      var bits := ReadNum(1);
      if bits.None? { return None; }
      var maxBytes := if v6 then 16 else 4;
      if bits.value > maxBytes * 8 { return None; }
      var n := (bits.value + 7) / 8;
      var raw := Read(n);
      if raw.None? { return None; }
      return Some(Cidr(v6, raw.value + Zeros(maxBytes - n), bits.value));
    }

    /** Prefixes until the reader is exhausted. */
    method ReadPrefixes(v6: bool) returns (ps: Option<seq<Cidr>>)
      requires Valid()
      modifies this
      ensures Valid() && ps == Prefixes(old(Rest()), v6)
    {
      ghost var all := Prefixes(Rest(), v6);
      var out: seq<Cidr> := [];
      var left := Remaining();
      OntoEnds(out, all);
      while left > 0
        invariant Valid() && left == |Rest()|
        invariant all == Onto(out, Prefixes(Rest(), v6))
        decreases left
      {
        var p := ReadPrefix(v6);
        if p.None? { return None; }
        OntoOnto(out, [p.value], Prefixes(Rest(), v6));
        out := out + [p.value];
        left := Remaining();
      }
      OntoEnds(out, all);
      return Some(out);
    }

    /** The next attribute, as the generator yields it. */
    method ReadAttribute() returns (a: Option<(nat, bytes)>)
      requires Valid()
      modifies this
      ensures Valid()
      ensures a.None? <==> Attribute(old(Rest())).Short?
      ensures a.Some? ==> Attribute(old(Rest())) == Got(a.value, Rest())
    {
      var flags := ReadNum(1);
      if flags.None? { return None; }
      var typ := ReadNum(1);
      if typ.None? { return None; }
      var len := ReadNum(if flags.value / 16 % 2 == 1 then 2 else 1);
      if len.None? { return None; }
      var value := Read(len.value);
      if value.None? { return None; }
      return Some((typ.value, value.value));
    }
  }

  lemma OntoEnds<T>(front: seq<T>, r: Option<seq<T>>)
    ensures Onto([], r) == r && Onto(front, Some([])) == Some(front)
  {
    if r.Some? { assert [] + r.value == r.value; }
    assert front + [] == front;
  }

  lemma OntoOnto<T>(a: seq<T>, b: seq<T>, r: Option<seq<T>>)
    ensures Onto(a, Onto(b, r)) == Onto(a + b, r)
  {
    if r.Some? { assert a + (b + r.value) == (a + b) + r.value; }
  }

  /** Iterates attributes up to the first of the wanted type. */
  method FindAttribute(attrs: bytes, typ: nat) returns (f: Search)
    ensures f == Find(attrs, typ)
  {
    var r := new Reader(attrs);
    var left := r.Remaining();
    while left > 0
      invariant r.Valid() && left == |r.Rest()|
      invariant Find(attrs, typ) == Find(r.Rest(), typ)
      decreases left
    {
      var a := r.ReadAttribute();
      if a.None? { return Malformed; }
      if a.value.0 == typ { return Present(a.value.1); }
      left := r.Remaining();
    }
    return Absent;
  }

  function OntoAsns(front: seq<nat>, p: Parse<seq<nat>>): Parse<seq<nat>> {
    match p case Short => Short case Got(asns, rest) => Got(front + asns, rest)
  }

  lemma OntoOneAsn(front: seq<nat>, s: bytes, count: nat, four: bool)
    requires count > 0
    ensures var a := U(s, AsnOctets(four));
            && (a.Short? ==> Asns(s, count, four) == Short)
            && (a.Got? ==>
                  OntoAsns(front, Asns(s, count, four)) == OntoAsns(front + [a.value], Asns(a.rest, count - 1, four)))
  {
    var a := U(s, AsnOctets(four));
    if a.Got? && Asns(a.rest, count - 1, four).Got? {
      var later := Asns(a.rest, count - 1, four).value;
      assert front + ([a.value] + later) == (front + [a.value]) + later;
    }
  }

  lemma OntoNoAsns(path: seq<nat>, s: bytes, p: Parse<seq<nat>>)
    ensures OntoAsns(path, Got([], s)) == Got(path, s) && OntoAsns([], p) == p
  {
    assert path + [] == path;
    if p.Got? { assert [] + p.value == p.value; }
  }

  /** The ASNs of one segment, appended to the path. */
  method ReadAsns(r: Reader, count: nat, four: bool, path: seq<nat>) returns (out: Option<seq<nat>>)
    requires r.Valid()
    modifies r
    ensures r.Valid()
    ensures out.None? <==> Asns(old(r.Rest()), count, four).Short?
    ensures out.Some? ==> OntoAsns(path, Asns(old(r.Rest()), count, four)) == Got(out.value, r.Rest())
  {
    var p := path;
    ghost var all := OntoAsns(path, Asns(r.Rest(), count, four));
    for i := 0 to count
      invariant r.Valid() && all == OntoAsns(p, Asns(r.Rest(), count - i, four))
    {
      OntoOneAsn(p, r.Rest(), count - i, four);
      var a := r.ReadNum(if four then 4 else 2);
      if a.None? { return None; }
      p := p + [a.value];
    }
    OntoNoAsns(p, r.Rest(), Short);
    return Some(p);
  }

  method ParseAsPath(value: bytes, four: bool) returns (path: Option<seq<nat>>)
    ensures path == AsPath(value, four)
  {
    var r := new Reader(value);
    var out: seq<nat> := [];
    var left := r.Remaining();
    OntoEnds(out, AsPath(value, four));
    while left > 0
      invariant r.Valid() && left == |r.Rest()|
      invariant AsPath(value, four) == Onto(out, AsPath(r.Rest(), four))
      decreases left
    {
      ghost var segment := Segment(r.Rest(), four);
      var typ := r.ReadNum(1);
      if typ.None? { return None; }
      var count := r.ReadNum(1);
      if count.None? { return None; }
      var next := ReadAsns(r, count.value, four, out);
      if next.None? { return None; }
      OntoOnto(out, segment.value, AsPath(r.Rest(), four));
      out := next.value;
      left := r.Remaining();
    }
    OntoEnds(out, AsPath(value, four));
    return Some(out);
  }

  method AsPathFromAttrs(attrs: bytes, four: bool) returns (path: Option<seq<nat>>)
    ensures path == PathOf(attrs, four)
  {
    var f := FindAttribute(attrs, ATTR_AS_PATH);
    match f
    case Malformed => path := None;
    case Absent => path := Some([]);
    case Present(v) => path := ParseAsPath(v, four);
  }

  method MpReachPrefixes(attrs: bytes) returns (ps: Option<seq<Cidr>>)
    ensures ps == Reachable(attrs)
  {
    var f := FindAttribute(attrs, ATTR_MP_REACH_NLRI);
    if f.Malformed? { return None; }
    if f.Absent? { return Some([]); }
    var r := new Reader(f.value);
    var afi := r.ReadNum(2);
    if afi.None? { return None; }
    var safi := r.ReadNum(1);
    if safi.None? { return None; }
    var hop := r.ReadNum(1);
    if hop.None? { return None; }
    var nextHop := r.Read(hop.value);
    if nextHop.None? { return None; }
    var reserved := r.ReadNum(1);
    if reserved.None? { return None; }
    ps := r.ReadPrefixes(afi.value == AFI_IPV6);
  }

  /** The remembered peers and collector, and what parsing a record does with them. */
  class MrtStreamReader {
    const maxRecord: nat

    var peers: seq<Peer>
    var collector: nat

    constructor (maxRecord: nat)
      requires maxRecord > 0
      ensures this.maxRecord == maxRecord && Remembered() == Memory([], 0)
    {
      this.maxRecord, peers, collector := maxRecord, [], 0;
    }

    ghost function Remembered(): Memory
      reads this
    {
      Memory(peers, collector)
    }

    /** One PEER_INDEX_TABLE entry. */
    method ReadPeer(r: Reader) returns (p: Option<Peer>)
      requires r.Valid()
      modifies r
      ensures r.Valid()
      ensures p.None? <==> PeerEntry(old(r.Rest())).Short?
      ensures p.Some? ==> PeerEntry(old(r.Rest())) == Got(p.value, r.Rest())
    {
      var typ := r.ReadNum(1);
      if typ.None? { return None; }
      var bgpId := r.ReadNum(4);
      if bgpId.None? { return None; }
      var address := r.Read(if typ.value % 2 == 1 then 16 else 4);
      if address.None? { return None; }
      var asn := r.ReadNum(if typ.value / 2 % 2 == 1 then 4 else 2);
      if asn.None? { return None; }
      return Some(Peer(asn.value, address.value));
    }

    method ReadPeers(r: Reader, count: nat) returns (ps: Option<seq<Peer>>)
      requires r.Valid()
      modifies r
      ensures r.Valid() && ps == PeerEntries(old(r.Rest()), count)
    {
      ghost var all := PeerEntries(r.Rest(), count);
      var out: seq<Peer> := [];
      OntoEnds(out, all);
      for i := 0 to count
        invariant r.Valid() && all == Onto(out, PeerEntries(r.Rest(), count - i))
      {
        var p := ReadPeer(r);
        if p.None? { return None; }
        OntoOnto(out, [p.value], PeerEntries(r.Rest(), count - i - 1));
        out := out + [p.value];
      }
      OntoEnds(out, all);
      return Some(out);
    }

    /** The view name, and the number of peers. */
    method ReadPeerCount(r: Reader) returns (count: Option<nat>)
      requires r.Valid()
      modifies r
      ensures r.Valid()
      ensures count.None? <==> PeerCount(old(r.Rest())).Short?
      ensures count.Some? ==> PeerCount(old(r.Rest())) == Got(count.value, r.Rest())
    {
      var view := r.ReadNum(2);
      if view.None? { return None; }
      var name := r.Read(view.value);
      if name.None? { return None; }
      count := r.ReadNum(2);
    }

    /** The collector id of a table, and its peers if all of them can be read. */
    method ReadPeerIndex(body: bytes) returns (id: Option<nat>, ps: Option<seq<Peer>>)
      ensures id.None? <==> U(body, 4).Short?
      ensures id.Some? ==> id.value == U(body, 4).value && ps == PeerIndex(U(body, 4).rest)
    {
      var r := new Reader(body);
      id := r.ReadNum(4);
      if id.None? { return None, None; }
      ps := ReadTable(r);
    }

    method ParsePeerIndex(body: bytes)
      modifies this
      ensures Remembered() == AfterPeerIndex(old(Remembered()), body)
    {
      var id, ps := ReadPeerIndex(body);
      if id.None? { return; }
      collector := id.value;
      if ps.None? { return; }
      peers := ps.value;
    }

    /** The whole table after its collector id. */
    method ReadTable(r: Reader) returns (ps: Option<seq<Peer>>)
      requires r.Valid()
      modifies r
      ensures ps == PeerIndex(old(r.Rest()))
    {
      var count := ReadPeerCount(r);
      if count.None? { return None; }
      ps := ReadPeers(r, count.value);
    }

    /** One RIB entry: the peer index and the path. */
    method ReadRibEntry(r: Reader) returns (e: Option<(nat, seq<nat>)>)
      requires r.Valid()
      modifies r
      ensures r.Valid()
      ensures e.None? <==> RibEntry(old(r.Rest())).Short?
      ensures e.Some? ==> RibEntry(old(r.Rest())) == Got(e.value, r.Rest())
    {
      var index := r.ReadNum(2);
      if index.None? { return None; }
      var originated := r.ReadNum(4);
      if originated.None? { return None; }
      var len := r.ReadNum(2);
      if len.None? { return None; }
      var attrs := r.Read(len.value);
      if attrs.None? { return None; }
      var path := AsPathFromAttrs(attrs.value, true);
      if path.None? { return None; }
      return Some((index.value, path.value));
    }

    /** Yields one route per entry, up to the first malformed one. */
    method ReadRib(r: Reader, count: nat, prefix: Cidr, time: int) returns (out: seq<Route>)
      requires r.Valid()
      modifies r
      ensures out == RibEntries(Remembered(), old(r.Rest()), count, prefix, time)
    {
      out := [];
      ghost var m := Remembered();
      ghost var all := RibEntries(m, r.Rest(), count, prefix, time);
      for i := 0 to count
        invariant r.Valid() && m == Remembered()
        invariant all == out + RibEntries(m, r.Rest(), count - i, prefix, time)
      {
        RibStep(m, out, r.Rest(), count - i, prefix, time);
        var e := ReadRibEntry(r);
        if e.None? { return; }
        var peer := if e.value.0 < |peers| then peers[e.value.0] else Peer(0, []);
        out := out + [Route(prefix, e.value.1, peer, collector, time)];
      }
    }

    /** Sequence number, prefix and number of entries. */
    method ReadRibHeader(r: Reader, v6: bool) returns (h: Option<(Cidr, nat)>)
      requires r.Valid()
      modifies r
      ensures r.Valid()
      ensures h.None? <==> RibHeader(old(r.Rest()), v6).Short?
      ensures h.Some? ==> RibHeader(old(r.Rest()), v6) == Got(h.value, r.Rest())
    {
      var sequence := r.ReadNum(4);
      if sequence.None? { return None; }
      var prefix := r.ReadPrefix(v6);
      if prefix.None? { return None; }
      var count := r.ReadNum(2);
      if count.None? { return None; }
      return Some((prefix.value, count.value));
    }

    method ParseRib(body: bytes, v6: bool, time: int) returns (out: seq<Route>)
      ensures out == Rib(Remembered(), body, v6, time)
    {
      var r := new Reader(body);
      var h := ReadRibHeader(r, v6);
      if h.None? { return []; }
      out := ReadRib(r, h.value.1, h.value.0, time);
    }

    /** The BGP4MP header. */
    method ReadHeader(r: Reader, four: bool) returns (h: Option<Header>)
      requires r.Valid()
      modifies r
      ensures r.Valid()
      ensures h.None? <==> HeaderOf(old(r.Rest()), four).Short?
      ensures h.Some? ==> HeaderOf(old(r.Rest()), four) == Got(h.value, r.Rest())
    {
      var peerAs := r.ReadNum(if four then 4 else 2);
      if peerAs.None? { return None; }
      var localAs := r.ReadNum(if four then 4 else 2);
      if localAs.None? { return None; }
      var ifIndex := r.ReadNum(2);
      if ifIndex.None? { return None; }
      var afi := r.ReadNum(2);
      if afi.None? { return None; }
      h := ReadEnvelope(r, if afi.value == AFI_IPV6 then 16 else 4, peerAs.value);
    }

    /** Addresses, marker, length and type. */
    method ReadEnvelope(r: Reader, n: nat, peerAs: nat) returns (h: Option<Header>)
      requires r.Valid()
      modifies r
      ensures r.Valid()
      ensures h.None? <==> Envelope(old(r.Rest()), n, peerAs).Short?
      ensures h.Some? ==> Envelope(old(r.Rest()), n, peerAs) == Got(h.value, r.Rest())
    {
      var address := r.Read(n);
      if address.None? { return None; }
      var local := r.Read(n);
      if local.None? { return None; }
      var marker := r.Read(16);
      if marker.None? { return None; }
      var len := r.ReadNum(2);
      if len.None? { return None; }
      var typ := r.ReadNum(1);
      if typ.None? { return None; }
      return Some(Header(Peer(peerAs, address.value), len.value, typ.value));
    }

    /** Skips the withdrawals and returns the attributes, leaving the NLRI. */
    method ReadSections(r: Reader) returns (attrs: Option<bytes>)
      requires r.Valid()
      modifies r
      ensures r.Valid()
      ensures attrs.None? <==> Split(old(r.Rest())).Short?
      ensures attrs.Some? ==> Split(old(r.Rest())) == Got(attrs.value, r.Rest())
    {
      var withdrawn := r.ReadNum(2);
      if withdrawn.None? { return None; }
      var skipped := r.Read(withdrawn.value);
      if skipped.None? { return None; }
      var len := r.ReadNum(2);
      if len.None? { return None; }
      attrs := r.Read(len.value);
    }

    /** Everything is parsed before the first route is yielded. */
    method ParseUpdate(r: Reader, peer: Peer, four: bool, time: int) returns (out: seq<Route>)
      requires r.Valid()
      modifies r
      ensures out == UpdateRoutes(Remembered(), old(r.Rest()), peer, four, time)
    {
      var attrs := ReadSections(r);
      if attrs.None? { return []; }
      var path := AsPathFromAttrs(attrs.value, four);
      if path.None? { return []; }
      var prefixes := MpReachPrefixes(attrs.value);
      if prefixes.None? { return []; }
      var rest := r.TakeRest();
      var nlri := new Reader(rest);
      var trailing := nlri.ReadPrefixes(false);
      if trailing.None? { return []; }
      out := EachRoute(prefixes.value + trailing.value, path.value, peer, time);
    }

    method EachRoute(prefixes: seq<Cidr>, path: seq<nat>, peer: Peer, time: int) returns (out: seq<Route>)
      ensures out == Routes(prefixes, path, peer, collector, time)
    {
      out := [];
      for i := 0 to |prefixes|
        invariant |out| == i
        invariant forall j :: 0 <= j < i ==> out[j] == Route(prefixes[j], path, peer, collector, time)
      {
        out := out + [Route(prefixes[i], path, peer, collector, time)];
      }
    }

    method ParseBgp4mp(body: bytes, four: bool, time: int) returns (out: seq<Route>)
      ensures out == Bgp4mp(Remembered(), body, four, time)
    {
      var r := new Reader(body);
      var h := ReadHeader(r, four);
      if h.None? { return []; }
      out := ParseMessage(r, h.value, four, time);
    }

    /** The message is bounded by its declared length, not by the record. */
    method ParseMessage(r: Reader, h: Header, four: bool, time: int) returns (out: seq<Route>)
      requires r.Valid()
      modifies r
      ensures out == MessageRoutes(Remembered(), h, old(r.Rest()), four, time)
    {
      if h.typ != BGP_UPDATE { return []; }
      if h.length < BGP_MESSAGE_HEADER_LENGTH { return []; }
      var msg := r.Read(h.length - BGP_MESSAGE_HEADER_LENGTH);
      if msg.None? { return []; }
      var message := new Reader(msg.value);
      out := ParseUpdate(message, h.peer, four, time);
    }

    /** One record; an error inside it ends the record, keeping what it had yielded. */
    method Dispatch(typ: nat, sub: nat, body: bytes, time: int) returns (out: seq<Route>)
      modifies this
      ensures out == RecordRoutes(old(Remembered()), typ, sub, body, time)
      ensures Remembered() == RecordMemory(old(Remembered()), typ, sub, body)
    {
      if typ == TYPE_BGP4MP_ET {
        var micros := LeadingU32(body);
        if micros.None? { return []; }
        out := DispatchPlain(TYPE_BGP4MP, sub, body[4..], Shifted(time, micros.value));
      } else {
        out := DispatchPlain(typ, sub, body, time);
      }
    }

    /** The four octets in front of a BGP4MP_ET message. */
    static method LeadingU32(body: bytes) returns (v: Option<nat>)
      ensures v.None? <==> U(body, 4).Short?
      ensures v.Some? ==> U(body, 4) == Got(v.value, body[4..])
    {
      var r := new Reader(body);
      v := r.ReadNum(4);
    }

    method DispatchPlain(typ: nat, sub: nat, body: bytes, time: int) returns (out: seq<Route>)
      modifies this
      ensures out == PlainRoutes(old(Remembered()), typ, sub, body, time)
      ensures Remembered() == RecordMemory(old(Remembered()), typ, sub, body)
    {
      out := [];
      if typ == TYPE_TABLE_DUMP_V2 {
        if sub == SUB_PEER_INDEX_TABLE {
          ParsePeerIndex(body);
        } else if sub == SUB_RIB_IPV4_UNICAST {
          out := ParseRib(body, false, time);
        } else if sub == SUB_RIB_IPV6_UNICAST {
          out := ParseRib(body, true, time);
        }
      } else if typ == TYPE_BGP4MP {
        if sub == SUB_BGP4MP_MESSAGE || sub == SUB_BGP4MP_MESSAGE_AS4 {
          out := ParseBgp4mp(body, sub == SUB_BGP4MP_MESSAGE_AS4, time);
        }
      }
    }

    /** The whole stream.  `complete` is false when it ends with an error that is not confined to one
        record: a truncated header or body, or an oversized record that cannot be skipped. */
    method ReadStream(input: bytes, seekable: bool) returns (out: seq<Route>, complete: bool)
      modifies this
      ensures Outcome(out, Remembered(), complete) == Stream(Source(maxRecord, seekable), old(Remembered()), input)
    {
      out := [];
      ghost var src := Source(maxRecord, seekable);
      ghost var all := Stream(src, Remembered(), input);
      var fp := new Reader(input);
      PrependEnds(out, all);
      var left := fp.Remaining();
      while left > 0
        invariant fp.Valid() && left == |fp.Rest()|
        invariant all == Prepend(out, Stream(src, Remembered(), fp.Rest()))
        decreases left
      {
        ghost var m, s := Remembered(), fp.Rest();
        var h := ReadCommon(fp);
        if h.None? {
          PrependEnds(out, Outcome([], m, false));
          return out, false;
        }
        if h.value.length > maxRecord {
          if !seekable {
            PrependEnds(out, Outcome([], m, false));
            return out, false;
          }
          Seek(fp, h.value.length);
        } else {
          var body := fp.Read(h.value.length);
          if body.None? {
            PrependEnds(out, Outcome([], m, false));
            return out, false;
          }
          var routes := Dispatch(h.value.typ, h.value.sub, body.value, h.value.time * 1_000_000_000);
          PrependPrepend(out, routes, Stream(src, Remembered(), fp.Rest()));
          out := out + routes;
        }
        left := fp.Remaining();
      }
      PrependEnds(out, Outcome([], Remembered(), true));
      return out, true;
    }

    method ReadCommon(fp: Reader) returns (h: Option<Common>)
      requires fp.Valid()
      modifies fp
      ensures fp.Valid()
      ensures h.None? <==> CommonHeader(old(fp.Rest())).Short?
      ensures h.Some? ==> CommonHeader(old(fp.Rest())) == Got(h.value, fp.Rest())
    {
      var time := fp.ReadNum(4);
      if time.None? { return None; }
      var typ := fp.ReadNum(2);
      if typ.None? { return None; }
      var sub := fp.ReadNum(2);
      if sub.None? { return None; }
      var length := fp.ReadNum(4);
      if length.None? { return None; }
      return Some(Common(time.value, typ.value, sub.value, length.value));
    }

    /** Moves past an oversized body; a seek beyond the end reads as the end. */
    method Seek(fp: Reader, n: nat)
      requires fp.Valid()
      modifies fp
      ensures fp.Valid() && fp.Rest() == Skip(old(fp.Rest()), n)
    {
      var skipped := fp.Read(n);
      if skipped.None? {
        var tail := fp.TakeRest();
      }
    }
  }

  lemma RibStep(m: Memory, out: seq<Route>, s: bytes, count: nat, prefix: Cidr, time: int)
    requires count > 0
    ensures var e := RibEntry(s);
            && (e.Short? ==> out + RibEntries(m, s, count, prefix, time) == out)
            && (e.Got? ==>
                  var one := Route(prefix, e.value.1, PeerAt(m, e.value.0), m.collector, time);
                  out + RibEntries(m, s, count, prefix, time)
                  == (out + [one]) + RibEntries(m, e.rest, count - 1, prefix, time))
  {
    var e := RibEntry(s);
    if e.Got? {
      var one := Route(prefix, e.value.1, PeerAt(m, e.value.0), m.collector, time);
      Assoc(out, [one], RibEntries(m, e.rest, count - 1, prefix, time));
    }
  }

  lemma PrependEnds(front: seq<Route>, o: Outcome)
    ensures Prepend([], o) == o
    ensures o.routes == [] ==> Prepend(front, o) == o.(routes := front)
  {
    assert [] + o.routes == o.routes && front + [] == front;
  }
}
