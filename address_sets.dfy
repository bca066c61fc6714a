/**
 Sets of IPv4 addresses, as netaddr's IPSet provides them to the allocator:
 the set built from a list of CIDRs, removal of a CIDR, the size, the CIDR
 decomposition (iter_cidrs) and, on top of it, the list of candidate blocks of
 one prefix length that the allocator draws from.
 */
module AddressSets {
  import opened Ipv4

  /** The addresses covered by a list of blocks. */
  function UnionOf(cs: seq<Cidr>): set<nat>
  {
    if cs == [] then {} else UnionOf(cs[..|cs| - 1]) + cs[|cs| - 1].Addresses()
  }

  /**
   The CIDR decomposition of the addresses of `s` that lie in `c`, in ascending
   order: `c` itself when `s` holds all of it, otherwise the decompositions of
   its two halves. Over the whole space this is the list IPSet.iter_cidrs() gives.
   */
  function CidrCover(s: set<nat>, c: Cidr): seq<Cidr>
    decreases 32 - c.len
  {
    if c.Addresses() <= s then [c]
    else if c.len == 32 then []
    else CidrCover(s, Lower(c)) + CidrCover(s, Upper(c))
  }

  /** The /p sub-blocks of each block of `ds` in turn, as the allocator's nested loops collect them. */
  function FlatSubnets(ds: seq<Cidr>, p: PrefixLen): seq<Cidr>
  {
    if ds == [] then [] else FlatSubnets(ds[..|ds| - 1], p) + Subnets(ds[|ds| - 1], p)
  }

  /** The candidate /p blocks of an address set: iter_cidrs() followed by subnet(p) on each piece. */
  function Candidates(s: set<nat>, p: PrefixLen): seq<Cidr>
  {
    FlatSubnets(CidrCover(s, Root), p)
  }

  /** netaddr's IPSet: a set of IPv4 addresses that the allocator changes in place. */
  class AddressSet {
    var addrs: set<nat>

    ghost predicate Valid()
      reads this
    {
      forall a :: a in addrs ==> a < SpaceSize()
    }

    /** IPSet(cidrs): the addresses of the given blocks. */
    constructor (cidrs: seq<Cidr>)
      requires forall k :: 0 <= k < |cidrs| ==> cidrs[k].Valid()
      ensures Valid() && addrs == UnionOf(cidrs)
    {
      addrs := UnionOf(cidrs);
      new;
      forall a | a in addrs
        ensures a < SpaceSize()
      {
        UnionOfMember(cidrs, a);
        var k :| 0 <= k < |cidrs| && a in cidrs[k].Addresses();
        ValidInSpace(cidrs[k]);
      }
    }

    /** IPSet.size: the number of addresses, at most the 2^32 of the IPv4 space. */
    function Size(): (r: nat)
      reads this
      ensures Valid() ==> r <= SpaceSize()
    {
      BoundedSize(addrs, SpaceSize());
      |addrs|
    }

    /** IPSet.remove(cidr): the block's addresses leave the set; those not in it are ignored. */
    method Remove(c: Cidr)
      requires Valid()
      modifies this
      ensures Valid() && addrs == old(addrs) - c.Addresses()
    {
      addrs := addrs - c.Addresses();
    }

    /**
     IPSet.iter_cidrs(): ascending, disjoint blocks that together cover exactly
     the set, each as large as possible: every block inside the set lies inside
     one of them.
     */
    function IterCidrs(): (r: seq<Cidr>)
      reads this
      requires Valid()
      ensures Sorted(r)
      ensures forall k :: 0 <= k < |r| ==> r[k].Valid()
      ensures UnionOf(r) == addrs
      ensures forall b: Cidr :: b.Valid() && b.Addresses() <= addrs ==>
        exists k :: 0 <= k < |r| && Within(b, r[k])
    {
      CoverSound(addrs, Root);
      CoverSorted(addrs, Root);
      CoverUnion(addrs, Root);
      forall b: Cidr | b.Valid() && b.Addresses() <= addrs
        ensures exists k :: 0 <= k < |CidrCover(addrs, Root)| && Within(b, CidrCover(addrs, Root)[k])
      {
        ValidInSpace(b);
        var k := CoverMaximal(addrs, Root, b);
      }
      CidrCover(addrs, Root)
    }
  }

  /** A set of naturals below `n` has at most `n` elements. */
  lemma BoundedSize(s: set<nat>, n: nat)
    ensures (forall a :: a in s ==> a < n) ==> |s| <= n
  {
    if forall a :: a in s ==> a < n {
      assert Range(0, n) == s + (Range(0, n) - s);
      RangeSize(0, n);
    }
  }

  // ---------------------------------------------------------------------
  // Unions of blocks

  lemma {:induction false} UnionOfContains(cs: seq<Cidr>, k: nat)
    requires k < |cs|
    ensures cs[k].Addresses() <= UnionOf(cs)
  {
    var n := |cs| - 1;
    if k < n {
      assert cs[..n][k] == cs[k];
      UnionOfContains(cs[..n], k);
    }
  }

  lemma {:induction false} UnionOfWitness(cs: seq<Cidr>, a: nat) returns (k: nat)
    requires a in UnionOf(cs)
    ensures k < |cs| && a in cs[k].Addresses()
  {
    var n := |cs| - 1;
    if a in cs[n].Addresses() {
      k := n;
    } else {
      k := UnionOfWitness(cs[..n], a);
      assert cs[..n][k] == cs[k];
    }
  }

  lemma UnionOfMember(cs: seq<Cidr>, a: nat)
    ensures a in UnionOf(cs) <==> exists k :: 0 <= k < |cs| && a in cs[k].Addresses()
  {
    if a in UnionOf(cs) {
      var k := UnionOfWitness(cs, a);
    }
    forall k | 0 <= k < |cs| && a in cs[k].Addresses()
      ensures a in UnionOf(cs)
    {
      UnionOfContains(cs, k);
    }
  }

  lemma UnionOfSingle(c: Cidr)
    ensures UnionOf([c]) == c.Addresses()
  {
    assert [c][..0] == [];
  }

  lemma {:induction false} UnionOfAppend(a: seq<Cidr>, b: seq<Cidr>)
    ensures UnionOf(a + b) == UnionOf(a) + UnionOf(b)
  {
    if b == [] {
      assert a + b == a;
    } else {
      var n := |b| - 1;
      assert (a + b)[..|a + b| - 1] == a + b[..n];
      UnionOfAppend(a, b[..n]);
    }
  }

  /** A union of blocks each disjoint from `s` is disjoint from `s`. */
  lemma UnionOfDisjoint(cs: seq<Cidr>, s: set<nat>)
    requires forall k :: 0 <= k < |cs| ==> cs[k].Addresses() !! s
    ensures UnionOf(cs) !! s
  {
    forall a | a in UnionOf(cs)
      ensures a !in s
    {
      UnionOfMember(cs, a);
    }
  }

  // ---------------------------------------------------------------------
  // Sorted lists of blocks

  lemma SortedConcat(a: seq<Cidr>, b: seq<Cidr>)
    requires Sorted(a) && Sorted(b)
    requires forall i, j :: 0 <= i < |a| && 0 <= j < |b| ==> Below(a[i], b[j])
    ensures Sorted(a + b)
  {
  }

  /** Two sorted lists with the same blocks are the same list. */
  lemma {:induction false} SortedUnique(a: seq<Cidr>, b: seq<Cidr>)
    requires Sorted(a) && Sorted(b)
    requires forall x :: x in a <==> x in b
    ensures a == b
  {
    assert b != [] ==> b[0] in a;
    assert a != [] ==> a[0] in b;
    if a != [] {
      var k :| 0 <= k < |b| && b[k] == a[0];
      var m :| 0 <= m < |a| && a[m] == b[0];
      assert k > 0 ==> Below(b[0], a[0]);
      assert m > 0 ==> Below(a[0], b[0]);
      BelowAntisymmetric(a[0], b[0]);
      assert a[0] == b[0];
      forall x
        ensures x in a[1..] <==> x in b[1..]
      {
        if x in a[1..] {
          var i :| 1 <= i < |a| && a[i] == x;
          assert Below(a[0], a[i]);
          assert x in b && x != b[0];
        }
        if x in b[1..] {
          var i :| 1 <= i < |b| && b[i] == x;
          assert Below(b[0], b[i]);
          assert x in a && x != a[0];
        }
      }
      SortedUnique(a[1..], b[1..]);
      assert a == [a[0]] + a[1..];
      assert b == [b[0]] + b[1..];
    }
  }

  // ---------------------------------------------------------------------
  // The CIDR decomposition

  lemma {:induction false} CoverSound(s: set<nat>, c: Cidr)
    requires c.Valid()
    ensures forall k :: 0 <= k < |CidrCover(s, c)| ==>
      var d := CidrCover(s, c)[k]; d.Valid() && Within(d, c) && d.Addresses() <= s
    decreases 32 - c.len
  {
    if !(c.Addresses() <= s) && c.len < 32 {
      HalvesSplit(c);
      CoverSound(s, Lower(c));
      CoverSound(s, Upper(c));
    }
  }

  lemma {:induction false} CoverSorted(s: set<nat>, c: Cidr)
    requires c.Valid()
    ensures Sorted(CidrCover(s, c))
    decreases 32 - c.len
  {
    if !(c.Addresses() <= s) && c.len < 32 {
      HalvesSplit(c);
      CoverSorted(s, Lower(c));
      CoverSorted(s, Upper(c));
      CoverSound(s, Lower(c));
      CoverSound(s, Upper(c));
      SortedConcat(CidrCover(s, Lower(c)), CidrCover(s, Upper(c)));
    }
  }

  lemma {:induction false} CoverUnion(s: set<nat>, c: Cidr)
    ensures UnionOf(CidrCover(s, c)) == s * c.Addresses()
    decreases 32 - c.len
  {
    var cover := CidrCover(s, c);
    if c.Addresses() <= s {
      assert cover == [c];
      assert cover[..0] == [];
    } else if c.len == 32 {
      SingleAddress(c);
    } else {
      CoverUnion(s, Lower(c));
      CoverUnion(s, Upper(c));
      UnionOfAppend(CidrCover(s, Lower(c)), CidrCover(s, Upper(c)));
      AddressesHalves(c);
    }
  }

  // ---------------------------------------------------------------------
  // Flattening sub-blocks

  lemma {:induction false} FlatAppend(a: seq<Cidr>, b: seq<Cidr>, p: PrefixLen)
    ensures FlatSubnets(a + b, p) == FlatSubnets(a, p) + FlatSubnets(b, p)
  {
    if b == [] {
      assert a + b == a;
    } else {
      var n := |b| - 1;
      var init, last := b[..n], b[n];
      assert (a + b)[..|a + b| - 1] == a + init && (a + b)[|a + b| - 1] == last;
      FlatAppend(a, init, p);
      var x, y, z := FlatSubnets(a, p), FlatSubnets(init, p), Subnets(last, p);
      assert (x + y) + z == x + (y + z);
    }
  }

  lemma {:induction false} FlatSound(ds: seq<Cidr>, p: PrefixLen)
    requires forall k :: 0 <= k < |ds| ==> ds[k].Valid()
    ensures forall x :: x in FlatSubnets(ds, p) ==>
      x.Valid() && x.len == p && x.Addresses() <= UnionOf(ds)
  {
    if ds != [] {
      var n := |ds| - 1;
      FlatSound(ds[..n], p);
      SubnetsSound(ds[n], p);
      forall x | x in Subnets(ds[n], p)
        ensures x.Addresses() <= ds[n].Addresses()
      {
        WithinAddresses(x, ds[n]);
      }
    }
  }

  lemma {:induction false} FlatBelow(ds: seq<Cidr>, p: PrefixLen, y: Cidr)
    requires forall k :: 0 <= k < |ds| ==> ds[k].Valid() && Below(ds[k], y)
    ensures forall x :: x in FlatSubnets(ds, p) ==> Below(x, y)
  {
    if ds != [] {
      var n := |ds| - 1;
      FlatBelow(ds[..n], p, y);
      SubnetsSound(ds[n], p);
    }
  }

  lemma {:induction false} FlatSorted(ds: seq<Cidr>, p: PrefixLen)
    requires forall k :: 0 <= k < |ds| ==> ds[k].Valid()
    requires Sorted(ds)
    ensures Sorted(FlatSubnets(ds, p))
  {
    if ds != [] {
      var n := |ds| - 1;
      var init, last := FlatSubnets(ds[..n], p), Subnets(ds[n], p);
      FlatSorted(ds[..n], p);
      SubnetsSorted(ds[n], p);
      SubnetsSound(ds[n], p);
      FlatBelow(ds[..n], p, ds[n]);
      forall i, j | 0 <= i < |init| && 0 <= j < |last|
        ensures Below(init[i], last[j])
      {
        assert init[i] in init;
        assert last[j] in last;
      }
      SortedConcat(init, last);
    }
  }

  /** Every valid block of `s` inside `c` is among the sub-blocks of `c`'s decomposition. */
  lemma {:induction false} CoverComplete(s: set<nat>, c: Cidr, b: Cidr)
    requires c.Valid() && b.Valid() && Within(b, c) && b.Addresses() <= s
    ensures b in FlatSubnets(CidrCover(s, c), b.len)
    decreases 32 - c.len
  {
    WithinLonger(b, c);
    if c.Addresses() <= s {
      assert CidrCover(s, c) == [c];
      assert CidrCover(s, c)[..0] == [];
      SubnetsComplete(c, b);
    } else if c.len == b.len {
      SameLenWithin(b, c);
      assert false;
    } else {
      HalvesSplit(c);
      FlatAppend(CidrCover(s, Lower(c)), CidrCover(s, Upper(c)), b.len);
      InHalf(b, c);
      if Within(b, Lower(c)) {
        CoverComplete(s, Lower(c), b);
      } else {
        CoverComplete(s, Upper(c), b);
      }
    }
  }

  /** The decomposition is maximal: every block of `s` inside `c` lies inside one of its blocks. */
  lemma {:induction false} CoverMaximal(s: set<nat>, c: Cidr, b: Cidr) returns (k: nat)
    requires c.Valid() && b.Valid() && Within(b, c) && b.Addresses() <= s
    ensures k < |CidrCover(s, c)| && Within(b, CidrCover(s, c)[k])
    decreases 32 - c.len
  {
    WithinLonger(b, c);
    if c.Addresses() <= s {
      assert CidrCover(s, c) == [c];
      k := 0;
    } else if c.len == b.len {
      SameLenWithin(b, c);
      assert false;
    } else {
      HalvesSplit(c);
      InHalf(b, c);
      var lower, upper := CidrCover(s, Lower(c)), CidrCover(s, Upper(c));
      assert CidrCover(s, c) == lower + upper;
      if Within(b, Lower(c)) {
        k := CoverMaximal(s, Lower(c), b);
      } else {
        var j := CoverMaximal(s, Upper(c), b);
        k := |lower| + j;
      }
    }
  }

  // ---------------------------------------------------------------------
  // Candidates

  /**
   The candidates of `s` at prefix `p` are exactly the valid /p blocks whose
   addresses all lie in `s`, in strictly ascending order.
   */
  lemma CandidatesExact(s: set<nat>, p: PrefixLen)
    ensures forall x: Cidr :: x in Candidates(s, p) <==> x.Valid() && x.len == p && x.Addresses() <= s
    ensures Sorted(Candidates(s, p))
  {
    var cover := CidrCover(s, Root);
    CoverSound(s, Root);
    CoverUnion(s, Root);
    FlatSound(cover, p);
    FlatSorted(cover, p) by {
      CoverSorted(s, Root);
    }
    forall x: Cidr | x.Valid() && x.len == p && x.Addresses() <= s
      ensures x in Candidates(s, p)
    {
      ValidInSpace(x);
      CoverComplete(s, Root, x);
    }
  }

  /** The candidates of a single block are its sub-blocks, as IPNetwork.subnet lists them. */
  lemma CandidatesOfBlock(c: Cidr, p: PrefixLen)
    requires c.Valid()
    ensures Candidates(c.Addresses(), p) == Subnets(c, p)
  {
    CandidatesExact(c.Addresses(), p);
    SubnetsSound(c, p);
    SubnetsSorted(c, p);
    forall x: Cidr
      ensures x in Candidates(c.Addresses(), p) <==> x in Subnets(c, p)
    {
      if x in Candidates(c.Addresses(), p) {
        AddressesWithin(x, c);
        SubnetsComplete(c, x);
      }
      if x in Subnets(c, p) {
        WithinAddresses(x, c);
      }
    }
    SortedUnique(Candidates(c.Addresses(), p), Subnets(c, p));
  }
}
