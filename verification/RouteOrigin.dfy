/**
 Route-origin validation against a list of validated ROA payloads, and the filter that drops the
 ROAs no monitored prefix can need.  The reference is the Covered/Matched definition in section 2
 of RFC 6811, stated over the set of payloads.
 */
module RouteOrigin {
  import opened Wrappers
  import opened Networks

  datatype Roa = Roa(network: Network, maxLength: int, asn: int)

  datatype Status = Valid | Invalid | NotFound | Unknown

  /** The ROAs that cover an announcement, in list order. */
  function Covering(roas: seq<Roa>, ann: Network): seq<Roa> {
    if roas == [] then []
    else (if Covers(roas[0].network, ann) then [roas[0]] else []) + Covering(roas[1..], ann)
  }

  /** The verdict for an announcement whose prefix text parsed to `ann`, or did not parse. */
  function Validate(roas: seq<Roa>, ann: Option<Network>, origin: int): Status {
    match ann
    case None => Unknown
    case Some(net) =>
      var covering := Covering(roas, net);
      if covering == [] then NotFound
      else if exists i :: 0 <= i < |covering| && covering[i].asn == origin && net.len <= covering[i].maxLength
      then Valid
      else Invalid
  }

  // ---- Section 2 of RFC 6811 ----

  /** Covered, within the maximum length, and from the authorised AS.  No route can be matched by a
      payload whose AS is zero. */
  predicate Matched(vrp: Roa, ann: Network, origin: int) {
    Covers(vrp.network, ann) && ann.len <= vrp.maxLength && origin == vrp.asn && vrp.asn != 0
  }

  ghost function Rfc6811(vrps: set<Roa>, ann: Network, origin: int): Status {
    if exists r :: r in vrps && Matched(r, ann, origin) then Valid
    else if exists r :: r in vrps && Covers(r.network, ann) then Invalid
    else NotFound
  }

  function Payloads(roas: seq<Roa>): set<Roa> { set r | r in roas }

  lemma {:induction false} CoveringMembers(roas: seq<Roa>, ann: Network)
    ensures forall r :: r in Covering(roas, ann) <==> r in roas && Covers(r.network, ann)
    ensures Covering(roas, ann) == [] <==> forall r :: r in roas ==> !Covers(r.network, ann)
  {
    if roas != [] {
      CoveringMembers(roas[1..], ann);
      assert roas == [roas[0]] + roas[1..];
    }
  }

  /** A ROA that authorises the announcement, whatever its AS number. */
  predicate Authorises(r: Roa, ann: Network, origin: int) {
    Covers(r.network, ann) && ann.len <= r.maxLength && r.asn == origin
  }

  /** The verdict as a question about the set of payloads. */
  lemma ValidateBySet(roas: seq<Roa>, ann: Network, origin: int)
    ensures Validate(roas, Some(ann), origin)
         == if exists r :: r in Payloads(roas) && Authorises(r, ann, origin) then Valid
            else if exists r :: r in Payloads(roas) && Covers(r.network, ann) then Invalid
            else NotFound
  {
    CoveringMembers(roas, ann);
    var covering := Covering(roas, ann);
    if r :| r in Payloads(roas) && Authorises(r, ann, origin) {
      assert r in covering;
      var i :| 0 <= i < |covering| && covering[i] == r;
    } else if r :| r in Payloads(roas) && Covers(r.network, ann) {
      assert r in covering;
      if i :| 0 <= i < |covering| && covering[i].asn == origin && ann.len <= covering[i].maxLength {
        assert covering[i] in covering && Authorises(covering[i], ann, origin);
      }
    }
  }

  /** `validate` is RFC 6811, with one exception that is exactly this: an origin of zero under an
      AS0 ROA that covers the announcement within its maximum length. */
  lemma ValidateMatchesRfc6811(roas: seq<Roa>, ann: Network, origin: int)
    ensures Validate(roas, Some(ann), origin) == Rfc6811(Payloads(roas), ann, origin)
       <==> !(origin == 0 && exists r :: r in roas && Authorises(r, ann, 0))
  {
    ValidateBySet(roas, ann, origin);
    if origin != 0 {
      forall r ensures Authorises(r, ann, origin) == Matched(r, ann, origin) {
      }
    } else if r :| r in roas && Authorises(r, ann, 0) {
      assert r in Payloads(roas);
    }
  }

  /** What the analyzer passes as the origin: the last hop, or 0 for an empty path. */
  function OriginAsn(path: seq<int>): int {
    if path == [] then 0 else path[|path| - 1]
  }

  /** The exception is reachable: a route with no path at all, announced inside an AS0 ROA, is called
      valid. */
  lemma EmptyPathUnderAs0IsValid(net: Network)
    ensures var roas := [Roa(net, net.len, 0)];
            && Validate(roas, Some(net), OriginAsn([])) == Valid
            && Rfc6811(Payloads(roas), net, OriginAsn([])) == Invalid
  {
    var roas := [Roa(net, net.len, 0)];
    ValidateBySet(roas, net, 0);
    assert roas[0] in Payloads(roas) && Authorises(roas[0], net, 0);
  }

  /** Order and repetition of ROAs do not matter. */
  lemma ValidateDependsOnPayloadsOnly(a: seq<Roa>, b: seq<Roa>, ann: Option<Network>, origin: int)
    requires Payloads(a) == Payloads(b)
    ensures Validate(a, ann, origin) == Validate(b, ann, origin)
  {
    if ann.Some? {
      ValidateBySet(a, ann.value, origin);
      ValidateBySet(b, ann.value, origin);
    }
  }

  /** More ROAs never take a verdict away from VALID, nor an INVALID back to NOT_FOUND. */
  lemma MoreRoasAreMonotone(a: seq<Roa>, b: seq<Roa>, ann: Network, origin: int)
    requires Payloads(a) <= Payloads(b)
    ensures Validate(a, Some(ann), origin) == Valid ==> Validate(b, Some(ann), origin) == Valid
    ensures Validate(a, Some(ann), origin) == Invalid ==> Validate(b, Some(ann), origin) != NotFound
  {
    ValidateBySet(a, ann, origin);
    ValidateBySet(b, ann, origin);
  }

  // ---- The filter ----

  /** The predicate built by `overlapping`: the ROA's network and some monitored one are nested. */
  predicate Keep(monitored: seq<Network>, net: Network) {
    exists i :: 0 <= i < |monitored|
                && net.version == monitored[i].version
                && (SubnetOf(net, monitored[i]) || SubnetOf(monitored[i], net))
  }

  function Filtered(monitored: seq<Network>, roas: seq<Roa>): seq<Roa> {
    if roas == [] then []
    else (if Keep(monitored, roas[0].network) then [roas[0]] else []) + Filtered(monitored, roas[1..])
  }

  predicate Monitors(monitored: seq<Network>, ann: Network) {
    exists i :: 0 <= i < |monitored| && Covers(monitored[i], ann)
  }

  lemma NestedEitherWay(a: Network, b: Network)
    requires a.version == b.version
    ensures SubnetOf(a, b) ==> Covers(b, a)
  {
    SubnetIsAddressInclusion(a, b);
    CoversIsAddressInclusion(b, a);
  }

  /** The filter is exact: it keeps a ROA if and only if the ROA covers some announcement that the
      monitor would validate. */
  lemma KeepIsExact(monitored: seq<Network>, net: Network)
    ensures Keep(monitored, net) <==> exists ann: Network :: Monitors(monitored, ann) && Covers(net, ann)
  {
    if Keep(monitored, net) {
      var i :| 0 <= i < |monitored| && net.version == monitored[i].version
               && (SubnetOf(net, monitored[i]) || SubnetOf(monitored[i], net));
      NestedEitherWay(net, monitored[i]);
      NestedEitherWay(monitored[i], net);
      if SubnetOf(net, monitored[i]) {
        assert Monitors(monitored, net) && Covers(net, net);
      } else {
        assert Covers(monitored[i], monitored[i]);
        assert Monitors(monitored, monitored[i]) && Covers(net, monitored[i]);
      }
    }
    if ann: Network :| Monitors(monitored, ann) && Covers(net, ann) {
      var i :| 0 <= i < |monitored| && Covers(monitored[i], ann);
      CoveringNetworksNest(net, monitored[i], ann);
    }
  }

  lemma {:induction false} FilterKeepsCovering(monitored: seq<Network>, roas: seq<Roa>, ann: Network)
    requires Monitors(monitored, ann)
    ensures Covering(Filtered(monitored, roas), ann) == Covering(roas, ann)
  {
    if roas != [] {
      FilterKeepsCovering(monitored, roas[1..], ann);
      KeepIsExact(monitored, roas[0].network);
      var kept := Filtered(monitored, roas);
      if Keep(monitored, roas[0].network) {
        assert kept[0] == roas[0] && kept[1..] == Filtered(monitored, roas[1..]);
      } else {
        assert kept == Filtered(monitored, roas[1..]);
        assert !Covers(roas[0].network, ann);
      }
    }
  }

  /** Filtering an export leaves every verdict the monitor can ask for unchanged. */
  lemma FilterPreservesVerdicts(monitored: seq<Network>, roas: seq<Roa>, ann: Network, origin: int)
    requires Monitors(monitored, ann)
    ensures Validate(Filtered(monitored, roas), Some(ann), origin) == Validate(roas, Some(ann), origin)
  {
    FilterKeepsCovering(monitored, roas, ann);
  }
}
