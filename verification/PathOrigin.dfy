/**
 The origin of a route, from the segments of its AS_PATH.  Section 2 of RFC 6811 takes it from the
 final segment, and only if that is an AS_SEQUENCE; the parser flattens all segments and takes the
 last number.  Where the two part, a verdict can be wrong, and exactly then.
 */
module PathOrigin {
  import opened Wrappers
  import opened Networks
  import opened RouteOrigin
  import opened MrtWire
  import opened MrtEncoding

  const AS_SET := 1
  const AS_SEQUENCE := 2

  /** The rightmost AS of the final segment, if that is an AS_SEQUENCE.  A path without segments, or one
      that ends inside a confederation, stands for the AS of the speaker itself: an observer has none. */
  function RfcOrigin(segs: seq<Seg>): Option<nat> {
    if segs == [] then None
    else
      var last := segs[|segs| - 1];
      if last.typ == AS_SEQUENCE && last.asns != [] then Some(last.asns[|last.asns| - 1]) else None
  }

  /** Section 2 of RFC 6811 for a route that may have no origin: nothing matches such a route. */
  ghost function RfcVerdict(vrps: set<Roa>, ann: Network, segs: seq<Seg>): Status {
    if RfcOrigin(segs).Some? then Rfc6811(vrps, ann, RfcOrigin(segs).value)
    else if exists r :: r in vrps && Covers(r.network, ann) then Invalid
    else NotFound
  }

  /** A final segment that holds an AS gives the flattened path its last one. */
  lemma {:induction false} FlattenEndsWithLastSegment(segs: seq<Seg>)
    requires segs != [] && segs[|segs| - 1].asns != []
    ensures var last, path := segs[|segs| - 1].asns, Flatten(segs);
            path != [] && path[|path| - 1] == last[|last| - 1]
  {
    if |segs| == 1 {
      assert segs[1..] == [];
    } else {
      assert segs[1..][|segs| - 2] == segs[|segs| - 1];
      FlattenEndsWithLastSegment(segs[1..]);
    }
  }

  /** The verdict on a flattened path is that of RFC 6811 if and only if the path has an origin there,
      other than zero, or no ROA authorises the number that stands in for it. */
  lemma PathMatchesRfc6811(roas: seq<Roa>, ann: Network, segs: seq<Seg>)
    ensures var origin := OriginAsn(Flatten(segs));
            (Validate(roas, Some(ann), origin) == RfcVerdict(Payloads(roas), ann, segs)
             <==> (RfcOrigin(segs).Some? && origin != 0) || !exists r :: r in roas && Authorises(r, ann, origin))
  {
    var origin := OriginAsn(Flatten(segs));
    if RfcOrigin(segs).Some? {
      FlattenEndsWithLastSegment(segs);
      ValidateMatchesRfc6811(roas, ann, origin);
    } else {
      ValidateBySet(roas, ann, origin);
      if r :| r in roas && Authorises(r, ann, origin) {
        assert r in Payloads(roas);
      }
    }
  }

  /** The same for the path that is parsed from the wire. */
  lemma ParsedPathMatchesRfc6811(roas: seq<Roa>, ann: Network, segs: seq<Seg>, four: bool)
    requires forall i :: 0 <= i < |segs| ==> SegFits(segs[i], four)
    ensures AsPath(EncodeSegs(segs, four), four).Some?
    ensures var origin := OriginAsn(AsPath(EncodeSegs(segs, four), four).value);
            (Validate(roas, Some(ann), origin) == RfcVerdict(Payloads(roas), ann, segs)
             <==> (RfcOrigin(segs).Some? && origin != 0) || !exists r :: r in roas && Authorises(r, ann, origin))
  {
    TakeSegs(segs, four);
    PathMatchesRfc6811(roas, ann, segs);
  }

  /** The exception is reached by an aggregate: a path that is one AS_SET takes a member of the set for
      its origin, and is called valid under a ROA for that member. */
  lemma AggregateIsCalledValid(net: Network, asn: nat)
    ensures var roas, segs := [Roa(net, net.len, asn)], [Seg(AS_SET, [asn])];
            && OriginAsn(Flatten(segs)) == asn
            && Validate(roas, Some(net), OriginAsn(Flatten(segs))) == Valid
            && RfcVerdict(Payloads(roas), net, segs) == Invalid
  {
    var roas, segs := [Roa(net, net.len, asn)], [Seg(AS_SET, [asn])];
    FlattenEndsWithLastSegment(segs);
    ValidateBySet(roas, net, asn);
    assert roas[0] in Payloads(roas) && Authorises(roas[0], net, asn);
  }
}
