/**
 Whole dumps: every input is a run of framed records followed by at most one bad tail, each record is
 confined to itself, and what is remembered between records comes from the right place.  Also the
 bound on what one BGP4MP record can produce.
 */
module MrtRuns {
  import opened Basics
  import opened Wrappers
  import opened Bytes
  import opened MrtWire
  import opened MrtEncoding
  import opened MrtGrammar

  datatype Record = Record(time: nat, typ: nat, sub: nat, body: bytes)

  predicate RecordFits(r: Record) {
    r.time < Power256(4) && r.typ < Power256(2) && r.sub < Power256(2) && |r.body| < Power256(4)
  }

  function EncodeRecord(r: Record): bytes {
    Be(r.time, 4) + (Be(r.typ, 2) + (Be(r.sub, 2) + (Be(|r.body|, 4) + r.body)))
  }

  function EncodeRecords(rs: seq<Record>): bytes {
    if rs == [] then [] else EncodeRecord(rs[0]) + EncodeRecords(rs[1..])
  }

  /** A record too large to read is passed over. */
  predicate Readable(src: Source, r: Record) { |r.body| <= src.maxRecord }

  function RoutesOf(src: Source, m: Memory, r: Record): seq<Route> {
    if Readable(src, r) then RecordRoutes(m, r.typ, r.sub, r.body, r.time * 1_000_000_000) else []
  }

  function MemoryOf(src: Source, m: Memory, r: Record): Memory {
    if Readable(src, r) then RecordMemory(m, r.typ, r.sub, r.body) else m
  }

  /** The routes of each record, in order, each under what the records before it left remembered. */
  function AllRoutes(src: Source, m: Memory, rs: seq<Record>): seq<Route>
    decreases |rs|
  {
    if rs == [] then [] else RoutesOf(src, m, rs[0]) + AllRoutes(src, MemoryOf(src, m, rs[0]), rs[1..])
  }

  function FinalMemory(src: Source, m: Memory, rs: seq<Record>): Memory
    decreases |rs|
  {
    if rs == [] then m else FinalMemory(src, MemoryOf(src, m, rs[0]), rs[1..])
  }

  lemma TakeCommon(r: Record, rest: bytes)
    requires RecordFits(r)
    ensures CommonHeader(EncodeRecord(r) + rest) == Got(Common(r.time, r.typ, r.sub, |r.body|), r.body + rest)
  {
    var r3 := Be(|r.body|, 4) + r.body;
    var r2 := Be(r.sub, 2) + r3;
    var r1 := Be(r.typ, 2) + r2;
    Assoc(Be(r.time, 4), r1, rest);
    Assoc(Be(r.typ, 2), r2, rest);
    Assoc(Be(r.sub, 2), r3, rest);
    Assoc(Be(|r.body|, 4), r.body, rest);
    TakeNum(r.time, 4, r1 + rest);
    TakeNum(r.typ, 2, r2 + rest);
    TakeNum(r.sub, 2, r3 + rest);
    TakeNum(|r.body|, 4, r.body + rest);
  }

  lemma OneRecord(src: Source, m: Memory, r: Record, rest: bytes)
    requires RecordFits(r) && (src.seekable || Readable(src, r))
    ensures Stream(src, m, EncodeRecord(r) + rest)
         == Prepend(RoutesOf(src, m, r), Stream(src, MemoryOf(src, m, r), rest))
  {
    TakeCommon(r, rest);
    assert (r.body + rest)[..|r.body|] == r.body && (r.body + rest)[|r.body|..] == rest;
    if !Readable(src, r) {
      assert Skip(r.body + rest, |r.body|) == rest;
      assert [] + Stream(src, m, rest).routes == Stream(src, m, rest).routes;
    }
  }

  /** Over any concatenation of framed records, well-formed inside or not, the reader always stands at
      a record boundary: it yields each record's routes in order and then goes on with the tail. */
  lemma {:induction false} StreamOfRecords(src: Source, m: Memory, rs: seq<Record>, tail: bytes)
    requires forall i :: 0 <= i < |rs| ==> RecordFits(rs[i]) && (src.seekable || Readable(src, rs[i]))
    ensures Stream(src, m, EncodeRecords(rs) + tail)
         == Prepend(AllRoutes(src, m, rs), Stream(src, FinalMemory(src, m, rs), tail))
    decreases |rs|
  {
    if rs == [] {
      assert EncodeRecords(rs) + tail == tail;
      assert [] + Stream(src, m, tail).routes == Stream(src, m, tail).routes;
    } else {
      var later := EncodeRecords(rs[1..]);
      var m' := MemoryOf(src, m, rs[0]);
      Assoc(EncodeRecord(rs[0]), later, tail);
      OneRecord(src, m, rs[0], later + tail);
      StreamOfRecords(src, m', rs[1..], tail);
      PrependPrepend(RoutesOf(src, m, rs[0]), AllRoutes(src, m', rs[1..]),
                     Stream(src, FinalMemory(src, m', rs[1..]), tail));
    }
  }

  /** A tail that is no further record: nothing, part of a header, part of a body, or an oversized
      record that cannot be passed over. */
  predicate BadTail(src: Source, tail: bytes) {
    match CommonHeader(tail)
    case Short => true
    case Got(h, rest) => |rest| < h.length || (h.length > src.maxRecord && !src.seekable)
  }

  /** Whether a stream ending in this tail ends without an error. */
  predicate CleanEnd(src: Source, tail: bytes) {
    tail == [] || (CommonHeader(tail).Got? && CommonHeader(tail).value.length > src.maxRecord && src.seekable)
  }

  lemma StreamOfTail(src: Source, m: Memory, tail: bytes)
    requires BadTail(src, tail)
    ensures Stream(src, m, tail) == Outcome([], m, CleanEnd(src, tail))
  {
    if CommonHeader(tail).Got? {
      var h := CommonHeader(tail).value;
      if h.length > src.maxRecord && src.seekable {
        assert Skip(CommonHeader(tail).rest, h.length) == [];
      }
    }
  }

  /** The bytes of a header are the encoding of its fields. */
  lemma HeaderBytes(s: bytes)
    requires CommonHeader(s).Got? && CommonHeader(s).value.length <= |CommonHeader(s).rest|
    ensures var h, r := CommonHeader(s).value, CommonHeader(s).rest;
            var rec := Record(h.time, h.typ, h.sub, r[..h.length]);
            RecordFits(rec) && s == EncodeRecord(rec) + r[h.length..]
  {
    var h, r := CommonHeader(s).value, CommonHeader(s).rest;
    HeaderFields(s, h, r);
    var body, rest := r[..h.length], r[h.length..];
    assert r == body + rest;
    Regroup4(Be(h.time, 4), Be(h.typ, 2), Be(h.sub, 2), Be(h.length, 4), body, rest);
  }

  lemma HeaderFields(s: bytes, h: Common, r: bytes)
    requires CommonHeader(s) == Got(h, r)
    ensures h.time < Power256(4) && h.typ < Power256(2) && h.sub < Power256(2) && h.length < Power256(4)
    ensures s == Be(h.time, 4) + (Be(h.typ, 2) + (Be(h.sub, 2) + (Be(h.length, 4) + r)))
  {
    Shaved(s, 4);
    var r0 := U(s, 4).rest;
    Shaved(r0, 2);
    var r1 := U(r0, 2).rest;
    Shaved(r1, 2);
    Shaved(U(r1, 2).rest, 4);
  }

  lemma Regroup4(a: bytes, b: bytes, c: bytes, d: bytes, body: bytes, rest: bytes)
    ensures a + (b + (c + (d + (body + rest)))) == (a + (b + (c + (d + body)))) + rest
  {
    Assoc(d, body, rest);
    Assoc(c, d + body, rest);
    Assoc(b, c + (d + body), rest);
    Assoc(a, b + (c + (d + body)), rest);
  }

  /** Every input whatsoever is framed records followed by one bad tail, and the outcome of the stream
      is exactly theirs. */
  lemma {:induction false} EveryStreamIsRecords(src: Source, m: Memory, s: bytes) returns (rs: seq<Record>, tail: bytes)
    ensures s == EncodeRecords(rs) + tail && BadTail(src, tail)
    ensures forall i :: 0 <= i < |rs| ==> RecordFits(rs[i]) && (src.seekable || Readable(src, rs[i]))
    ensures Stream(src, m, s) == Outcome(AllRoutes(src, m, rs), FinalMemory(src, m, rs), CleanEnd(src, tail))
  {
    rs, tail := Frame(src, s);
    StreamOfRecords(src, m, rs, tail);
    StreamOfTail(src, FinalMemory(src, m, rs), tail);
    assert AllRoutes(src, m, rs) + [] == AllRoutes(src, m, rs);
  }

  lemma {:induction false} Frame(src: Source, s: bytes) returns (rs: seq<Record>, tail: bytes)
    ensures s == EncodeRecords(rs) + tail && BadTail(src, tail)
    ensures forall i :: 0 <= i < |rs| ==> RecordFits(rs[i]) && (src.seekable || Readable(src, rs[i]))
    decreases |s|
  {
    if BadTail(src, s) {
      rs, tail := [], s;
      assert [] + s == s;
    } else {
      HeaderBytes(s);
      var h, r := CommonHeader(s).value, CommonHeader(s).rest;
      var rec := Record(h.time, h.typ, h.sub, r[..h.length]);
      var later;
      later, tail := Frame(src, r[h.length..]);
      rs := [rec] + later;
      assert rs[1..] == later;
      Assoc(EncodeRecord(rec), EncodeRecords(later), tail);
    }
  }

  // ---- What is remembered ----

  predicate IsTable(src: Source, r: Record) {
    Readable(src, r) && r.typ == 13 && r.sub == 1
  }

  /** A peer table parsed to its end. */
  predicate CompleteTable(src: Source, r: Record) {
    IsTable(src, r) && |r.body| >= 4 && PeerIndex(r.body[4..]).Some?
  }

  /** A peer table with a readable collector id. */
  predicate StartedTable(src: Source, r: Record) { IsTable(src, r) && |r.body| >= 4 }

  lemma {:induction false} MemorySnoc(src: Source, m: Memory, rs: seq<Record>, r: Record)
    ensures FinalMemory(src, m, rs + [r]) == MemoryOf(src, FinalMemory(src, m, rs), r)
    decreases |rs|
  {
    if rs == [] {
      assert ([r] + [])[1..] == [] && rs + [r] == [r];
    } else {
      assert (rs + [r])[0] == rs[0] && (rs + [r])[1..] == rs[1..] + [r];
      MemorySnoc(src, MemoryOf(src, m, rs[0]), rs[1..], r);
    }
  }

  /** Record i is the last complete table. */
  predicate LastComplete(src: Source, rs: seq<Record>, i: int) {
    0 <= i < |rs| && CompleteTable(src, rs[i]) && forall j :: i < j < |rs| ==> !CompleteTable(src, rs[j])
  }

  predicate LastStarted(src: Source, rs: seq<Record>, i: int) {
    0 <= i < |rs| && StartedTable(src, rs[i]) && forall j :: i < j < |rs| ==> !StartedTable(src, rs[j])
  }

  lemma {:induction false} PeersComeFromLatest(src: Source, m: Memory, rs: seq<Record>)
    ensures forall i :: LastComplete(src, rs, i) ==> FinalMemory(src, m, rs).peers == PeerIndex(rs[i].body[4..]).value
    ensures (forall i :: 0 <= i < |rs| ==> !CompleteTable(src, rs[i])) ==> FinalMemory(src, m, rs).peers == m.peers
    decreases |rs|
  {
    if rs != [] {
      var n := |rs| - 1;
      var before, r := rs[..n], rs[n];
      assert rs == before + [r];
      MemorySnoc(src, m, before, r);
      PeersComeFromLatest(src, m, before);
      OneTable(src, FinalMemory(src, m, before), r);
      forall i | LastComplete(src, rs, i) && i < n ensures LastComplete(src, before, i) {
        assert !CompleteTable(src, rs[n]);
      }
    }
  }

  lemma {:induction false} CollectorComesFromLatest(src: Source, m: Memory, rs: seq<Record>)
    ensures forall i :: LastStarted(src, rs, i) ==> FinalMemory(src, m, rs).collector == Num(rs[i].body[..4])
    ensures (forall i :: 0 <= i < |rs| ==> !StartedTable(src, rs[i])) ==>
              FinalMemory(src, m, rs).collector == m.collector
    decreases |rs|
  {
    if rs != [] {
      var n := |rs| - 1;
      var before, r := rs[..n], rs[n];
      assert rs == before + [r];
      MemorySnoc(src, m, before, r);
      CollectorComesFromLatest(src, m, before);
      OneTable(src, FinalMemory(src, m, before), r);
      forall i | LastStarted(src, rs, i) && i < n ensures LastStarted(src, before, i) {
        assert !StartedTable(src, rs[n]);
      }
    }
  }

  /** Peers are always those of the latest table that parsed completely, or the initial ones.  The
      collector id is that of the latest table whose id could be read, complete or not. */
  lemma MemoryComesFromLatestTable(src: Source, m: Memory, rs: seq<Record>)
    ensures var f := FinalMemory(src, m, rs);
            && (forall i :: LastComplete(src, rs, i) ==> f.peers == PeerIndex(rs[i].body[4..]).value)
            && ((forall i :: 0 <= i < |rs| ==> !CompleteTable(src, rs[i])) ==> f.peers == m.peers)
            && (forall i :: LastStarted(src, rs, i) ==> f.collector == Num(rs[i].body[..4]))
            && ((forall i :: 0 <= i < |rs| ==> !StartedTable(src, rs[i])) ==> f.collector == m.collector)
  {
    PeersComeFromLatest(src, m, rs);
    CollectorComesFromLatest(src, m, rs);
  }

  lemma OneTable(src: Source, m: Memory, r: Record)
    ensures MemoryOf(src, m, r).peers == if CompleteTable(src, r) then PeerIndex(r.body[4..]).value else m.peers
    ensures MemoryOf(src, m, r).collector == if StartedTable(src, r) then Num(r.body[..4]) else m.collector
  {
  }

  /** A table cut off after its collector id changes the collector and keeps the peers. */
  lemma CutTableChangesOnlyCollector(src: Source, m: Memory, id: nat)
    requires id < Power256(4) && src.maxRecord >= 4
    ensures MemoryOf(src, m, Record(0, 13, 1, Be(id, 4))) == Memory(m.peers, id)
  {
    TakeNum(id, 4, []);
    assert Be(id, 4) + [] == Be(id, 4);
  }

  // ---- RIB records ----

  datatype Entry = Entry(index: nat, originated: nat, attrs: seq<Attr>, unread: bytes, path: seq<nat>)

  ghost predicate EntryFits(e: Entry) {
    && e.index < Power256(2) && e.originated < Power256(4) && |EncodeAttrs(e.attrs) + e.unread| < Power256(2)
    && (e.unread == [] || FirstOf(e.attrs, AS_PATH).Present?)
    && (forall i :: 0 <= i < |e.attrs| ==> Fits(e.attrs[i])) && CarriesPath(e.attrs, true, e.path)
  }

  function EncodeEntry(e: Entry): bytes {
    var attrs := EncodeAttrs(e.attrs) + e.unread;
    Be(e.index, 2) + (Be(e.originated, 4) + (Be(|attrs|, 2) + attrs))
  }

  function EncodeEntries(es: seq<Entry>): bytes {
    if es == [] then [] else EncodeEntry(es[0]) + EncodeEntries(es[1..])
  }

  /** Each entry under the peer its index names, or under none if the table has no such row. */
  function EntryRoutes(m: Memory, es: seq<Entry>, prefix: Cidr, time: int): seq<Route> {
    if es == [] then []
    else
      var peer := if es[0].index < |m.peers| then m.peers[es[0].index] else Peer(0, []);
      [Route(prefix, es[0].path, peer, m.collector, time)] + EntryRoutes(m, es[1..], prefix, time)
  }

  lemma TakeEntry(e: Entry, rest: bytes)
    requires EntryFits(e)
    ensures RibEntry(EncodeEntry(e) + rest) == Got((e.index, e.path), rest)
  {
    var attrs := EncodeAttrs(e.attrs) + e.unread;
    var r2 := Be(|attrs|, 2) + attrs;
    var r1 := Be(e.originated, 4) + r2;
    Assoc(Be(e.index, 2), r1, rest);
    Assoc(Be(e.originated, 4), r2, rest);
    Assoc(Be(|attrs|, 2), attrs, rest);
    TakeNum(e.index, 2, r1 + rest);
    TakeNum(e.originated, 4, r2 + rest);
    TakeNum(|attrs|, 2, attrs + rest);
    TakeOctets(attrs, rest);
    PathRoundTrip(e.attrs, e.unread, true, e.path);
  }

  lemma EntryBytes(s: bytes, index: nat, path: seq<nat>, rest: bytes) returns (e: Entry)
    requires RibEntry(s) == Got((index, path), rest)
    ensures EntryFits(e) && e.index == index && e.path == path && s == EncodeEntry(e) + rest
  {
    Shaved(s, 2);
    var r0 := U(s, 2).rest;
    Shaved(r0, 4);
    var r1 := U(r0, 4).rest;
    Shaved(r1, 2);
    var bytes := Octets(U(r1, 2).rest, U(r1, 2).value).value;
    var attrs, unread := EntryAttrs(bytes, path);
    e := Entry(index, U(r0, 4).value, attrs, unread, path);
    var len := Be(|bytes|, 2);
    Assoc(len, bytes, rest);
    Assoc(Be(e.originated, 4), len + bytes, rest);
    Assoc(Be(index, 2), Be(e.originated, 4) + (len + bytes), rest);
  }

  lemma EntryAttrs(s: bytes, path: seq<nat>) returns (attrs: seq<Attr>, unread: bytes)
    requires PathOf(s, true) == Some(path)
    ensures (forall i :: 0 <= i < |attrs| ==> Fits(attrs[i])) && s == EncodeAttrs(attrs) + unread
    ensures unread == [] || FirstOf(attrs, AS_PATH).Present?
    ensures CarriesPath(attrs, true, path)
  {
    attrs, unread := AttrsBytes(s, {AS_PATH});
    assert unread == [] || FirstOf(attrs, AS_PATH).Present?;
    PathCarried(attrs, unread, true, path);
  }

  /** An entry is bad exactly when the bytes do not start with the encoding of one. */
  lemma BadEntryIffNoEncoding(s: bytes)
    ensures RibEntry(s).Short? <==> !exists e, rest :: EntryFits(e) && s == EncodeEntry(e) + rest
  {
    if RibEntry(s).Got? {
      var p := RibEntry(s);
      var e := EntryBytes(s, p.value.0, p.value.1, p.rest);
    }
    if e, rest :| EntryFits(e) && s == EncodeEntry(e) + rest {
      TakeEntry(e, rest);
    }
  }

  /** Up to `count` entries read from `s` give the routes of exactly these. */
  predicate Yields(m: Memory, s: bytes, count: nat, es: seq<Entry>, prefix: Cidr, time: int) {
    RibEntries(m, s, count, prefix, time) == EntryRoutes(m, es, prefix, time)
  }

  lemma FirstEntry(m: Memory, s: bytes, es: seq<Entry>, rest: bytes, count: nat, later: nat, prefix: Cidr, time: int)
    requires count == later + 1 && es != [] && RibEntry(s) == Got((es[0].index, es[0].path), rest)
    requires Yields(m, rest, later, es[1..], prefix, time)
    ensures Yields(m, s, count, es, prefix, time)
  {
  }

  lemma NoEntry(m: Memory, bad: bytes, count: nat, prefix: Cidr, time: int)
    requires count == 0 || RibEntry(bad).Short?
    ensures RibEntries(m, bad, count, prefix, time) == []
  {
  }

  /** The entries of `s`, up to what follows them. */
  ghost predicate Spells(s: bytes, es: seq<Entry>, bad: bytes) {
    (forall i :: 0 <= i < |es| ==> EntryFits(es[i])) && s == EncodeEntries(es) + bad
  }

  lemma SpellsFirst(s: bytes, es: seq<Entry>, bad: bytes) returns (rest: bytes)
    requires Spells(s, es, bad) && es != []
    ensures RibEntry(s) == Got((es[0].index, es[0].path), rest) && Spells(rest, es[1..], bad)
  {
    rest := EncodeEntries(es[1..]) + bad;
    Assoc(EncodeEntry(es[0]), EncodeEntries(es[1..]), bad);
    TakeEntry(es[0], rest);
  }

  /** A RIB record yields exactly the entries before the first bad one, however many it declares. */
  lemma {:induction false} RibStopsAtFirstBadEntry(
    m: Memory, s: bytes, es: seq<Entry>, bad: bytes, count: nat, prefix: Cidr, time: int)
    requires Spells(s, es, bad) && |es| <= count
    requires |es| == count || RibEntry(bad).Short?
    ensures Yields(m, s, count, es, prefix, time)
    decreases |es|
  {
    if es == [] {
      assert s == bad;
      NoEntry(m, bad, count, prefix, time);
    } else {
      var rest := SpellsFirst(s, es, bad);
      var later := count - 1;
      RibStopsAtFirstBadEntry(m, rest, es[1..], bad, later, prefix, time);
      FirstEntry(m, s, es, rest, count, later, prefix, time);
    }
  }

  /** Whatever bytes follow a RIB header: they are entries and something that is no entry, or enough
      entries, and the record yields the routes of exactly those entries. */
  lemma {:induction false} EveryRibIsEntries(m: Memory, s: bytes, count: nat, prefix: Cidr, time: int)
    returns (es: seq<Entry>, bad: bytes)
    ensures Spells(s, es, bad) && |es| <= count && (|es| == count || RibEntry(bad).Short?)
    ensures Yields(m, s, count, es, prefix, time)
  {
    es, bad := EntriesIn(s, count);
    RibStopsAtFirstBadEntry(m, s, es, bad, count, prefix, time);
  }

  lemma {:induction false} EntriesIn(s: bytes, count: nat) returns (es: seq<Entry>, bad: bytes)
    ensures Spells(s, es, bad) && |es| <= count && (|es| == count || RibEntry(bad).Short?)
    decreases count
  {
    if count == 0 || RibEntry(s).Short? {
      es, bad := [], s;
      assert [] + s == s;
    } else {
      var p, fewer := RibEntry(s), count - 1;
      var e := EntryBytes(s, p.value.0, p.value.1, p.rest);
      var later;
      later, bad := EntriesIn(p.rest, fewer);
      es := [e] + later;
      SpellsCons(s, e, p.rest, later, bad);
    }
  }

  lemma SpellsCons(s: bytes, e: Entry, rest: bytes, later: seq<Entry>, bad: bytes)
    requires EntryFits(e) && s == EncodeEntry(e) + rest && Spells(rest, later, bad)
    ensures Spells(s, [e] + later, bad)
  {
    assert ([e] + later)[1..] == later;
    Assoc(EncodeEntry(e), EncodeEntries(later), bad);
  }

  lemma RibRoundTrip(m: Memory, sequence: nat, prefix: Cidr, es: seq<Entry>, bad: bytes, count: nat, time: int)
    requires sequence < Power256(4) && Padded(prefix) && count < Power256(2)
    requires (forall i :: 0 <= i < |es| ==> EntryFits(es[i])) && |es| <= count
    requires |es| == count || RibEntry(bad).Short?
    ensures Rib(m, Be(sequence, 4) +
                (EncodePrefix(prefix) + (Be(count, 2) + (EncodeEntries(es) + bad))), prefix.v6, time)
         == EntryRoutes(m, es, prefix, time)
  {
    var r2 := EncodeEntries(es) + bad;
    var r1 := Be(count, 2) + r2;
    TakeNum(sequence, 4, EncodePrefix(prefix) + r1);
    TakePrefix(prefix, r1);
    TakeNum(count, 2, r2);
    RibStopsAtFirstBadEntry(m, r2, es, bad, count, prefix, time);
  }

  // ---- Bound on one BGP4MP record ----

  lemma LengthFits(body: bytes, four: bool)
    requires HeaderOf(body, four).Got?
    ensures HeaderOf(body, four).value.length <= 65535
  {
    Widths();
    var afi := U(U(U(U(body, AsnOctets(four)).rest, AsnOctets(four)).rest, 2).rest, 2);
    var n := AddressOctets(afi.value);
    var r := Octets(Octets(Octets(afi.rest, n).rest, n).rest, 16).rest;
    NumFits(r[..2]);
  }

  /** Whatever the length of the record, it yields at most the declared message length less 23 routes,
      hence at most 65512. */
  lemma RecordYieldsBoundedRoutes(m: Memory, body: bytes, four: bool, time: int)
    ensures var routes := Bgp4mp(m, body, four, time);
            && |routes| <= 65512
            && (routes != [] ==> HeaderOf(body, four).Got? && |routes| <= HeaderOf(body, four).value.length - 23)
  {
    var p := HeaderOf(body, four);
    if p.Got? {
      LengthFits(body, four);
      MessageBound(m, p.value, p.rest, four, time);
    }
  }

  lemma MessageBound(m: Memory, h: Header, rest: bytes, four: bool, time: int)
    ensures var routes := MessageRoutes(m, h, rest, four, time);
            routes != [] ==> |routes| <= h.length - 23
  {
  }

  // ---- Bytes after the declared message ----

  lemma LongerU(s: bytes, t: bytes, n: nat)
    requires U(s, n).Got?
    ensures U(s + t, n) == Got(U(s, n).value, U(s, n).rest + t)
  {
    assert (s + t)[..n] == s[..n] && (s + t)[n..] == s[n..] + t;
  }

  lemma LongerOctets(s: bytes, t: bytes, n: nat)
    requires Octets(s, n).Got?
    ensures Octets(s + t, n) == Got(Octets(s, n).value, Octets(s, n).rest + t)
  {
    assert (s + t)[..n] == s[..n] && (s + t)[n..] == s[n..] + t;
  }

  lemma LongerEnvelope(s: bytes, t: bytes, n: nat, peerAs: nat)
    requires Envelope(s, n, peerAs).Got?
    ensures Envelope(s + t, n, peerAs) == Got(Envelope(s, n, peerAs).value, Envelope(s, n, peerAs).rest + t)
  {
    LongerOctets(s, t, n);
    var r0 := Octets(s, n).rest;
    LongerOctets(r0, t, n);
    var r1 := Octets(r0, n).rest;
    LongerOctets(r1, t, 16);
    var r2 := Octets(r1, 16).rest;
    LongerU(r2, t, 2);
    LongerU(U(r2, 2).rest, t, 1);
  }

  lemma LongerHeader(s: bytes, t: bytes, four: bool)
    requires HeaderOf(s, four).Got?
    ensures HeaderOf(s + t, four) == Got(HeaderOf(s, four).value, HeaderOf(s, four).rest + t)
  {
    var w := AsnOctets(four);
    LongerU(s, t, w);
    var r0 := U(s, w).rest;
    LongerU(r0, t, w);
    var r1 := U(r0, w).rest;
    LongerU(r1, t, 2);
    var r2 := U(r1, 2).rest;
    LongerU(r2, t, 2);
    LongerEnvelope(U(r2, 2).rest, t, AddressOctets(U(r2, 2).value), U(s, w).value);
  }

  /** No byte past the end of the declared message changes the result. */
  lemma BytesPastMessageDoNotMatter(m: Memory, body: bytes, tail: bytes, four: bool, time: int)
    requires HeaderOf(body, four).Got? && Declared(HeaderOf(body, four).value, HeaderOf(body, four).rest).Some?
    ensures Bgp4mp(m, body + tail, four, time) == Bgp4mp(m, body, four, time)
  {
    LongerHeader(body, tail, four);
    var h, rest := HeaderOf(body, four).value, HeaderOf(body, four).rest;
    DeclaredPart(m, h, rest, tail, four, time);
  }

  lemma DeclaredPart(m: Memory, h: Header, rest: bytes, tail: bytes, four: bool, time: int)
    requires Declared(h, rest).Some?
    ensures MessageRoutes(m, h, rest + tail, four, time) == MessageRoutes(m, h, rest, four, time)
  {
    SameDeclared(h, rest, tail);
  }

  lemma SameDeclared(h: Header, rest: bytes, tail: bytes)
    requires Declared(h, rest).Some?
    ensures Declared(h, rest + tail) == Declared(h, rest)
  {
    var n := h.length - BGP_MESSAGE_HEADER_LENGTH;
    assert (rest + tail)[..n] == rest[..n];
  }
}
