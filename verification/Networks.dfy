/**
 IP networks as the analyzer uses them: an aligned block of addresses.  Membership is decided by
 comparing the two ends of the blocks, which is how Python's `subnet_of` does it; the lemmas below
 tie that comparison to the addresses a block holds and show that blocks are laminar: any two of
 them are nested or disjoint.
 */
module Networks {

  datatype Version = V4 | V6

  function Width(v: Version): nat {
    match v case V4 => 32 case V6 => 128
  }

  function Pow2(n: nat): (p: nat)
    ensures p >= 1
  {
    if n == 0 then 1 else 2 * Pow2(n - 1)
  }

  datatype RawNetwork = RawNetwork(version: Version, base: nat, len: nat) {

    predicate Aligned() {
      && len <= Width(version)
      && base % Pow2(Width(version) - len) == 0
      && base + Pow2(Width(version) - len) <= Pow2(Width(version))
    }
  }

  /** The result of `ip_network(text, strict=False)`: host bits are already cleared. */
  type Network = n: RawNetwork | n.Aligned() witness Everything()

  function Everything(): RawNetwork { RawNetwork(V4, 0, 0) }

  /** Number of addresses in the network. */
  function Size(n: Network): (s: nat)
    ensures s >= 1
  {
    Pow2(Width(n.version) - n.len)
  }

  /** `a.subnet_of(b)` for networks of one version: compares the two ends of the blocks. */
  predicate SubnetOf(a: Network, b: Network) {
    b.base <= a.base && a.base + Size(a) <= b.base + Size(b)
  }

  /** A network, or one of its ROAs, covers an announcement. */
  predicate Covers(outer: Network, inner: Network) {
    && outer.version == inner.version
    && outer.len <= inner.len
    && SubnetOf(inner, outer)
  }

  /** The address x (of n's own version) lies in n. */
  predicate Holds(n: Network, x: nat) {
    n.base <= x < n.base + Size(n)
  }

  lemma {:induction false} Pow2Sum(a: nat, b: nat)
    ensures Pow2(a + b) == Pow2(a) * Pow2(b)
  {
    if a > 0 {
      Pow2Sum(a - 1, b);
      assert Pow2(a + b) == 2 * Pow2(a - 1 + b);
      assert 2 * (Pow2(a - 1) * Pow2(b)) == (2 * Pow2(a - 1)) * Pow2(b);
    }
  }

  /** Multiples of s compare as their factors do. */
  lemma MulCancel(x: int, y: int, s: nat)
    requires s >= 1 && x * s < y * s
    ensures x < y && (x + 1) * s <= y * s
  {
    if x >= y { MulMono(y, x, s); }
    MulMono(x + 1, y, s);
  }

  lemma MulMono(x: int, y: int, s: nat)
    requires x <= y
    ensures x * s <= y * s
  {
    assert (y - x) * s >= 0;
  }

  lemma BaseIsMultiple(n: Network) returns (q: nat)
    ensures n.base == q * Size(n)
  {
    q := n.base / Size(n);
  }

  lemma SizeRatio(outer: Network, inner: Network) returns (k: nat)
    requires outer.version == inner.version && outer.len <= inner.len
    ensures Size(outer) == k * Size(inner)
  {
    k := Pow2(inner.len - outer.len);
    Pow2Sum(inner.len - outer.len, Width(inner.version) - inner.len);
  }

  /** Networks of one version are laminar: if they share an address, the shorter prefix covers the
      longer one. */
  lemma SharedAddressNests(outer: Network, inner: Network, x: nat)
    requires outer.version == inner.version && outer.len <= inner.len
    requires Holds(outer, x) && Holds(inner, x)
    ensures Covers(outer, inner)
  {
    var k := SizeRatio(outer, inner);
    var p := BaseIsMultiple(outer);
    var q := BaseIsMultiple(inner);
    var s := Size(inner);
    var lo, hi := p * k, (p + 1) * k;
    assert outer.base == lo * s && outer.base + Size(outer) == hi * s by { BlockEnds(p, k, s); }
    assert inner.base + s == (q + 1) * s;
    MulCancel(lo, q + 1, s);
    MulMono(lo, q, s);
    MulCancel(q, hi, s);
  }

  lemma BlockEnds(p: nat, k: nat, s: nat)
    ensures p * (k * s) == (p * k) * s
    ensures p * (k * s) + k * s == ((p + 1) * k) * s
  {
  }

  /** Containment of blocks is containment of their addresses, both ways. */
  lemma SubnetIsAddressInclusion(a: Network, b: Network)
    ensures SubnetOf(a, b) <==> forall x: nat :: Holds(a, x) ==> Holds(b, x)
  {
    if forall x: nat :: Holds(a, x) ==> Holds(b, x) {
      assert Holds(a, a.base);
      assert Holds(a, a.base + Size(a) - 1);
    }
  }

  lemma {:induction false} Pow2Mono(a: nat, b: nat)
    requires a < b
    ensures Pow2(a) < Pow2(b)
  {
    if a + 1 < b { Pow2Mono(a, b - 1); }
  }

  /** Inside one version the length test that precedes `subnet_of` is implied by it: covering is
      exactly address inclusion. */
  lemma CoversIsAddressInclusion(outer: Network, inner: Network)
    requires outer.version == inner.version
    ensures Covers(outer, inner) <==> forall x: nat :: Holds(inner, x) ==> Holds(outer, x)
  {
    SubnetIsAddressInclusion(inner, outer);
    if SubnetOf(inner, outer) && inner.len < outer.len {
      Pow2Mono(Width(outer.version) - outer.len, Width(outer.version) - inner.len);
    }
  }

  /** Networks that cover a common announcement form a chain. */
  lemma CoveringNetworksNest(a: Network, b: Network, ann: Network)
    requires Covers(a, ann) && Covers(b, ann)
    ensures if a.len <= b.len then Covers(a, b) else Covers(b, a)
    ensures a.len == b.len ==> a == b
  {
    assert Holds(ann, ann.base) && Holds(a, ann.base) && Holds(b, ann.base);
    if a.len <= b.len {
      SharedAddressNests(a, b, ann.base);
    }
    if b.len <= a.len {
      SharedAddressNests(b, a, ann.base);
    }
  }
}
