/**
 IPv4 address blocks as netaddr keeps them: a 32-bit value that may have host bits, and a prefix length.
 Section 3.1 of RFC 4632: two prefixes are nested or disjoint.
 */
module Cidr {
  const WIDTH: nat := 32
  const MAX_ADDRESS: nat := 0xFFFF_FFFF

  function Pow2(n: nat): (p: nat)
    ensures p >= 1
  {
    if n == 0 then 1 else 2 * Pow2(n - 1)
  }

  datatype RawBlock = Block(value: nat, prefixlen: nat)
  type Block = b: RawBlock | b.value <= MAX_ADDRESS && b.prefixlen <= WIDTH witness Block(0, 0)

  /** The texts of requests and routing tables: a block, or something netaddr rejects. */
  datatype CidrText = Malformed(text: string) | Cidr(block: Block)

  /** `len(net)`. */
  function Size(b: Block): (n: nat)
    ensures n >= 1
  {
    Pow2(WIDTH - b.prefixlen)
  }

  /** The largest multiple of s not above v. */
  function RoundDown(v: nat, s: nat): (r: nat)
    requires s >= 1
    ensures r == v / s * s
    ensures r <= v < r + s
  {
    assert v % s <= v;
    v - v % s
  }

  /** `net.first`: the network address, host bits cleared. */
  function First(b: Block): nat {
    RoundDown(b.value, Size(b))
  }

  /** `net.last`: the broadcast address. */
  function Last(b: Block): nat {
    First(b) + Size(b) - 1
  }

  /** An address lies in the block. */
  predicate In(x: nat, b: Block) {
    First(b) <= x <= Last(b)
  }

  /** The block a text denotes, host bits cleared (`net.cidr`). */
  function Net(b: Block): (n: Block)
    ensures n.prefixlen == b.prefixlen
  {
    Block(First(b), b.prefixlen)
  }

  /** netaddr's `inner in outer`: the prefixes compare equal after shifting out the outer block's host bits. */
  predicate Contains(outer: Block, inner: Block) {
    outer.prefixlen <= inner.prefixlen && inner.value / Size(outer) == outer.value / Size(outer)
  }

  /** Two blocks have an address in common. */
  ghost predicate Shares(a: Block, b: Block) {
    exists x: nat :: In(x, a) && In(x, b)
  }

  /** The overlap test of both admission checks: one-way containment in the shorter prefix. */
  predicate Overlaps(a: Block, b: Block) {
    if a.prefixlen < b.prefixlen then Contains(a, b) else Contains(b, a)
  }

  /** ipaddr's `a.overlaps(b)`: an end of one block lies in the other. */
  predicate EndpointOverlaps(a: Block, b: Block) {
    In(First(a), b) || In(Last(a), b) || In(First(b), a) || In(Last(b), a)
  }

  lemma DivUnique(x: nat, s: nat, q: nat)
    requires s >= 1
    ensures x / s == q <==> q * s <= x < q * s + s
  {
    if q * s <= x < q * s + s {
      var r := x / s;
      assert RoundDown(x, s) == r * s;
      if r < q {
        assert (r + 1) * s <= q * s by { MulMonotone(r + 1, q, s); }
      } else if q < r {
        assert (q + 1) * s <= r * s by { MulMonotone(q + 1, r, s); }
      }
    }
  }

  lemma MulMonotone(a: nat, b: nat, s: nat)
    requires a <= b
    ensures a * s <= b * s
  {
  }

  lemma {:induction false} Pow2Split(m: nat, n: nat)
    ensures Pow2(m + n) == Pow2(m) * Pow2(n)
  {
    if m > 0 {
      Pow2Split(m - 1, n);
    }
  }

  lemma {:induction false} Pow2Grows(m: nat, n: nat)
    requires m < n
    ensures Pow2(m) < Pow2(n)
  {
    if m + 1 < n {
      Pow2Grows(m, n - 1);
    }
  }

  lemma DivDiv(v: nat, s: nat, k: nat)
    requires s >= 1 && k >= 1
    ensures s * k >= 1 && v / (s * k) == v / s / k
  {
    var m := v / s;
    var q := m / k;
    MulMonotone(1, s, k);
    assert RoundDown(v, s) == m * s && RoundDown(m, k) == q * k;
    MulMonotone(q * k, m, s);
    MulMonotone(m + 1, q * k + k, s);
    Rearrange(q, k, s);
    assert q * (s * k) <= m * s <= v < (m + 1) * s <= q * (s * k) + s * k;
    DivUnique(v, s * k, q);
  }

  lemma Rearrange(q: nat, k: nat, s: nat)
    ensures q * k * s == q * (s * k)
    ensures (q * k + k) * s == q * (s * k) + s * k
  {
    assert q * k * s == q * (k * s);
  }

  lemma InByQuotient(x: nat, b: Block)
    ensures In(x, b) <==> x / Size(b) == b.value / Size(b)
  {
    var s := Size(b);
    var q := b.value / s;
    assert First(b) == q * s;
    DivUnique(x, s, q);
  }

  lemma Endpoints(b: Block)
    ensures In(First(b), b) && In(Last(b), b) && In(b.value, b)
  {
  }

  /** All addresses of the longer prefix fall on the same side of the shorter one. */
  lemma SameSide(a: Block, b: Block, x: nat)
    requires a.prefixlen <= b.prefixlen && In(x, b)
    ensures In(x, a) <==> Contains(a, b)
  {
    CoarserQuotient(a, b, x);
    CoarserQuotient(a, b, b.value);
    InByQuotient(x, b);
    InByQuotient(x, a);
  }

  lemma CoarserQuotient(a: Block, b: Block, x: nat)
    requires a.prefixlen <= b.prefixlen
    ensures x / Size(a) == x / Size(b) / Pow2(b.prefixlen - a.prefixlen)
  {
    Pow2Split(WIDTH - b.prefixlen, b.prefixlen - a.prefixlen);
    DivDiv(x, Size(b), Pow2(b.prefixlen - a.prefixlen));
  }

  lemma LongerIsSmaller(a: Block, b: Block)
    requires a.prefixlen < b.prefixlen
    ensures Size(b) < Size(a)
  {
    Pow2Grows(WIDTH - b.prefixlen, WIDTH - a.prefixlen);
  }

  /** netaddr's containment is exactly inclusion of the address sets. */
  lemma ContainsIsInclusion(outer: Block, inner: Block)
    ensures Contains(outer, inner) <==> forall x: nat :: In(x, inner) ==> In(x, outer)
  {
    Endpoints(inner);
    if outer.prefixlen <= inner.prefixlen {
      forall x: nat | In(x, inner)
        ensures In(x, outer) <==> Contains(outer, inner)
      {
        SameSide(outer, inner, x);
      }
    } else {
      LongerIsSmaller(inner, outer);
      assert !(In(First(inner), outer) && In(Last(inner), outer));
    }
  }

  /** Section 3.1 of RFC 4632: two prefixes without a common address, or one inside the other. */
  lemma NestedOrDisjoint(a: Block, b: Block)
    ensures Shares(a, b) <==> Contains(a, b) || Contains(b, a)
  {
    Endpoints(a);
    Endpoints(b);
    ContainsIsInclusion(a, b);
    ContainsIsInclusion(b, a);
    if x: nat :| In(x, a) && In(x, b) {
      if a.prefixlen <= b.prefixlen {
        SameSide(a, b, x);
      } else {
        SameSide(b, a, x);
      }
    }
  }

  /** The one-way containment test decides whether the blocks share an address, and so does ipaddr's endpoint test. */
  lemma OverlapTestsExact(a: Block, b: Block)
    ensures Overlaps(a, b) <==> Shares(a, b)
    ensures EndpointOverlaps(a, b) <==> Shares(a, b)
    ensures Shares(a, b) <==> First(a) <= Last(b) && First(b) <= Last(a)
  {
    NestedOrDisjoint(a, b);
    Endpoints(a);
    Endpoints(b);
    if a.prefixlen == b.prefixlen {
      assert Size(a) == Size(b);
    }
    if Shares(a, b) {
      var x: nat :| In(x, a) && In(x, b);
    }
    if First(a) <= Last(b) && First(b) <= Last(a) {
      var x := if First(a) <= First(b) then First(b) else First(a);
      assert In(x, a) && In(x, b);
    }
  }

  /** Clearing host bits changes no address, no size and no overlap. */
  lemma NetSameAddresses(b: Block)
    ensures First(Net(b)) == First(b) && Size(Net(b)) == Size(b)
    ensures forall x: nat :: In(x, Net(b)) <==> In(x, b)
  {
    DivUnique(First(b), Size(b), b.value / Size(b));
  }

  lemma SameNetOverlaps(a: Block, b: Block)
    requires Net(a) == Net(b)
    ensures Overlaps(a, b)
  {
    Endpoints(a);
    NetSameAddresses(a);
    NetSameAddresses(b);
    assert In(First(a), b);
    OverlapTestsExact(a, b);
  }

  /** An address inside a block, written with that block's prefix length, denotes the same block. */
  lemma NetOfMember(x: nat, b: Block)
    requires x <= MAX_ADDRESS
    ensures Net(Block(x, b.prefixlen)) == Net(b) <==> In(x, b)
  {
    InByQuotient(x, b);
    Endpoints(Block(x, b.prefixlen));
  }
}
