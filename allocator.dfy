/**
 The CIDR sub-block allocator shared by both lambdas: findAvailableSubnets
 subtracts the used blocks from an address set in place, and
 returnAvailableSubnet then returns the lowest free block of the requested
 prefix length, or raises LookupError when there is none.
 */
module Allocator {
  import opened Ipv4
  import opened AddressSets
  import opened Outcomes

  /**
   What returnAvailableSubnet returns, given the addresses the set held before
   the call: the first candidate block of the remaining addresses, or LookupError.
   */
  function FirstFree(s: set<nat>, used: seq<Cidr>, p: PrefixLen): (r: Result<Cidr>)
    ensures r.Ok? ==> Fits(r.value, p, s - UnionOf(used))
    ensures r.Err? ==> r.error == LookupError
  {
    var free := Candidates(s - UnionOf(used), p);
    if |free| > 0 then
      CandidateFits(s - UnionOf(used), p, free[0]);
      Ok(free[0])
    else Err(LookupError)
  }

  /** findAvailableSubnets: removes every used block from the set, in place, and returns the same set. */
  method FindAvailableSubnets(supernetSet: AddressSet, usedSubnets: seq<Cidr>) returns (r: AddressSet)
    requires supernetSet.Valid()
    modifies supernetSet
    ensures r == supernetSet && r.Valid()
    ensures supernetSet.addrs == old(supernetSet.addrs) - UnionOf(usedSubnets)
  {
    for i := 0 to |usedSubnets|
      invariant supernetSet.Valid()
      invariant supernetSet.addrs == old(supernetSet.addrs) - UnionOf(usedSubnets[..i])
    {
      supernetSet.Remove(usedSubnets[i]);
      assert usedSubnets[..i + 1][..i] == usedSubnets[..i];
    }
    assert usedSubnets[..|usedSubnets|] == usedSubnets;
    r := supernetSet;
  }

  /** The inner loop of returnAvailableSubnet: each subnet is appended to freeSubnets in turn. */
  method AppendEach(freeSubnets: seq<Cidr>, subnets: seq<Cidr>) returns (r: seq<Cidr>)
    ensures r == freeSubnets + subnets
  {
    r := freeSubnets;
    for j := 0 to |subnets|
      invariant r == freeSubnets + subnets[..j]
    {
      r := r + [subnets[j]];
      assert subnets[..j + 1] == subnets[..j] + [subnets[j]];
    }
    assert subnets[..|subnets|] == subnets;
  }

  /**
   The outer loop of returnAvailableSubnet: the /p sub-blocks of each network in
   turn, appended to freeSubnets.
   */
  method SplitEach(networks: seq<Cidr>, subnetPrefix: PrefixLen) returns (freeSubnets: seq<Cidr>)
    ensures freeSubnets == FlatSubnets(networks, subnetPrefix)
  {
    freeSubnets := [];
    for i := 0 to |networks|
      invariant freeSubnets == FlatSubnets(networks[..i], subnetPrefix)
    {
      var subnets := Subnets(networks[i], subnetPrefix);
      freeSubnets := AppendEach(freeSubnets, subnets);
      FlatStep(networks, i, subnetPrefix);
    }
    assert networks[..|networks|] == networks;
  }

  /** The freeSubnets list of returnAvailableSubnet, built from the set's iter_cidrs(). */
  method CollectFreeSubnets(supernetSet: AddressSet, subnetPrefix: PrefixLen) returns (freeSubnets: seq<Cidr>)
    requires supernetSet.Valid()
    ensures freeSubnets == Candidates(supernetSet.addrs, subnetPrefix)
  {
    var networks := supernetSet.IterCidrs();
    freeSubnets := SplitEach(networks, subnetPrefix);
  }

  /** returnAvailableSubnet as in the pool lambda (its monitoring call is commented out there). */
  method ReturnAvailableSubnet(supernetSet: AddressSet, usedSubnets: seq<Cidr>, subnetPrefix: PrefixLen)
    returns (r: Result<Cidr>)
    requires supernetSet.Valid()
    modifies supernetSet
    ensures supernetSet.Valid()
    ensures supernetSet.addrs == old(supernetSet.addrs) - UnionOf(usedSubnets)
    ensures r == FirstFree(old(supernetSet.addrs), usedSubnets, subnetPrefix)
  {
    var _ := FindAvailableSubnets(supernetSet, usedSubnets);
    var freeSubnets := CollectFreeSubnets(supernetSet, subnetPrefix);
    if |freeSubnets| > 0 {
      r := Ok(freeSubnets[0]);
    } else {
      r := Err(LookupError);
    }
  }

  // ---------------------------------------------------------------------
  // What the allocator promises

  /** Block `b` has prefix length `p` and all its addresses are in `s`. */
  predicate Fits(b: Cidr, p: PrefixLen, s: set<nat>)
  {
    b.Valid() && b.len == p && b.Addresses() <= s
  }

  /**
   A returned block has the requested prefix and lies in the set minus the used
   blocks, and no such block has a lower address; LookupError is raised exactly
   when there is no such block.
   */
  lemma FirstFreeIsLowest(s: set<nat>, used: seq<Cidr>, p: PrefixLen)
    ensures FirstFree(s, used, p).Ok? ==>
      var c := FirstFree(s, used, p).value;
      && Fits(c, p, s - UnionOf(used))
      && forall b: Cidr :: Fits(b, p, s - UnionOf(used)) ==> c.Base() <= b.Base()
    ensures FirstFree(s, used, p).Err? <==> forall b: Cidr :: !Fits(b, p, s - UnionOf(used))
  {
    LowestCandidate(s - UnionOf(used), p);
  }

  /** A returned block lies inside the set and overlaps none of the used blocks. */
  lemma FirstFreeAvoidsUsed(s: set<nat>, used: seq<Cidr>, p: PrefixLen)
    requires FirstFree(s, used, p).Ok?
    ensures FirstFree(s, used, p).value.Addresses() <= s
    ensures forall k :: 0 <= k < |used| ==> FirstFree(s, used, p).value.Addresses() !! used[k].Addresses()
  {
    var c := FirstFree(s, used, p).value;
    FirstFreeIsLowest(s, used, p);
    SubsetOfMinus(c.Addresses(), s, UnionOf(used));
    forall k | 0 <= k < |used|
      ensures c.Addresses() !! used[k].Addresses()
    {
      UnionOfContains(used, k);
      SubsetOfDifference(c.Addresses(), s, UnionOf(used), used[k].Addresses());
    }
  }

  /**
   The persistent set of the pool lambda: removing an earlier prefix of the used
   list first changes nothing, so a set already reduced by earlier calls gives
   the same answer as a fresh one.
   */
  lemma RerunOnReducedSet(s: set<nat>, used: seq<Cidr>, k: nat, p: PrefixLen)
    requires k <= |used|
    ensures FirstFree(s - UnionOf(used[..k]), used, p) == FirstFree(s, used, p)
  {
    var a, b := used[..k], used[k..];
    assert a + b == used;
    UnionOfAppend(a, b);
    DifferenceAbsorbs(s, UnionOf(a), UnionOf(used), UnionOf(b));
  }

  /** Used blocks that lie outside the set do not affect the answer. */
  lemma FirstFreeIgnoresOutside(s: set<nat>, outside: seq<Cidr>, used: seq<Cidr>, p: PrefixLen)
    requires UnionOf(outside) !! s
    ensures FirstFree(s, outside + used, p) == FirstFree(s, used, p)
  {
    UnionOfAppend(outside, used);
    DifferenceIgnores(s, UnionOf(outside), UnionOf(used));
  }

  /**
   Carving in order: when the used list is the first `n` candidates of the set,
   the allocator returns candidate `n`, and LookupError once all are used.
   */
  lemma NextFree(s: set<nat>, p: PrefixLen, n: nat)
    requires n <= |Candidates(s, p)|
    ensures FirstFree(s, Candidates(s, p)[..n], p) ==
      if n < |Candidates(s, p)| then Ok(Candidates(s, p)[n]) else Err(LookupError)
  {
    CandidatesAfterPrefix(s, p, n);
  }

  /** Removing the first `n` candidates leaves exactly the remaining candidates. */
  lemma CandidatesAfterPrefix(s: set<nat>, p: PrefixLen, n: nat)
    requires n <= |Candidates(s, p)|
    ensures Candidates(s - UnionOf(Candidates(s, p)[..n]), p) == Candidates(s, p)[n..]
  {
    var c := Candidates(s, p);
    var c' := Candidates(s - UnionOf(c[..n]), p);
    forall x
      ensures x in c' <==> x in c[n..]
    {
      if x in c' {
        AfterPrefixSound(s, p, n, x);
      }
      if x in c[n..] {
        AfterPrefixComplete(s, p, n, x);
      }
    }
    CandidatesSorted(s, p);
    CandidatesSorted(s - UnionOf(c[..n]), p);
    SortedSuffix(c, n);
    SortedUnique(c', c[n..]);
  }

  /** The candidate blocks hold one block's worth of addresses each, and never more addresses than the set. */
  lemma CandidatesSize(s: set<nat>, p: PrefixLen)
    ensures |UnionOf(Candidates(s, p))| == |Candidates(s, p)| * BlockSize(p)
    ensures |UnionOf(Candidates(s, p))| <= |s|
  {
    var c := Candidates(s, p);
    CandidatesSorted(s, p);
    forall k | 0 <= k < |c|
      ensures c[k].len == p && c[k].Addresses() <= s
    {
      CandidateFits(s, p, c[k]);
    }
    SortedUnionSize(c, p);
    forall a | a in UnionOf(c)
      ensures a in s
    {
      var k := UnionOfWitness(c, a);
    }
    SubsetSize(UnionOf(c), s);
  }

  // Helpers

  lemma FlatStep(ds: seq<Cidr>, i: nat, p: PrefixLen)
    requires i < |ds|
    ensures FlatSubnets(ds[..i + 1], p) == FlatSubnets(ds[..i], p) + Subnets(ds[i], p)
  {
    assert ds[..i + 1][..i] == ds[..i];
  }

  lemma CandidateFits(s: set<nat>, p: PrefixLen, x: Cidr)
    ensures x in Candidates(s, p) <==> Fits(x, p, s)
  {
    CandidatesExact(s, p);
  }

  lemma CandidatesSorted(s: set<nat>, p: PrefixLen)
    ensures Sorted(Candidates(s, p))
  {
    CandidatesExact(s, p);
  }

  lemma LowestCandidate(s: set<nat>, p: PrefixLen)
    ensures |Candidates(s, p)| > 0 ==> Fits(Candidates(s, p)[0], p, s)
    ensures forall b: Cidr :: Fits(b, p, s) ==> |Candidates(s, p)| > 0 && Candidates(s, p)[0].Base() <= b.Base()
  {
    var free := Candidates(s, p);
    CandidatesExact(s, p);
    assert |free| > 0 ==> free[0] in free;
    forall b: Cidr | Fits(b, p, s)
      ensures |free| > 0 && free[0].Base() <= b.Base()
    {
      assert b in free;
      var k :| 0 <= k < |free| && free[k] == b;
      assert k > 0 ==> Below(free[0], free[k]);
    }
  }

  lemma SubsetOfDifference(a: set<nat>, s: set<nat>, u: set<nat>, b: set<nat>)
    requires a <= s - u && b <= u
    ensures a !! b
  {
  }

  lemma SubsetOfMinus(a: set<nat>, s: set<nat>, u: set<nat>)
    requires a <= s - u
    ensures a <= s
  {
  }

  lemma DifferenceAbsorbs(s: set<nat>, a: set<nat>, b: set<nat>, c: set<nat>)
    requires b == a + c
    ensures s - a - b == s - b
  {
  }

  lemma DifferenceIgnores(s: set<nat>, a: set<nat>, b: set<nat>)
    requires a !! s
    ensures s - (a + b) == s - b
  {
  }

  lemma SubsetSize(a: set<nat>, b: set<nat>)
    requires a <= b
    ensures |a| <= |b|
  {
    assert b == a + (b - a);
  }

  lemma SortedSuffix(c: seq<Cidr>, n: nat)
    requires Sorted(c) && n <= |c|
    ensures Sorted(c[n..])
  {
    forall i, j | 0 <= i < j < |c| - n
      ensures Below(c[n..][i], c[n..][j])
    {
      assert c[n..][i] == c[n + i] && c[n..][j] == c[n + j];
    }
  }

  lemma PrefixDisjoint(c: seq<Cidr>, n: nat, i: nat)
    requires Sorted(c) && n <= i < |c|
    ensures UnionOf(c[..n]) !! c[i].Addresses()
  {
    forall k | 0 <= k < n
      ensures c[..n][k].Addresses() !! c[i].Addresses()
    {
      assert c[..n][k] == c[k];
      assert Below(c[k], c[i]);
      BelowDisjoint(c[k], c[i]);
    }
    UnionOfDisjoint(c[..n], c[i].Addresses());
  }

  lemma PrefixCovers(c: seq<Cidr>, n: nat, i: nat, s: set<nat>)
    requires i < |c| && n <= |c|
    ensures i < n ==> !(c[i].Addresses() <= s - UnionOf(c[..n]))
  {
    if i < n {
      assert c[..n][i] == c[i];
      UnionOfContains(c[..n], i);
      assert c[i].Base() in c[i].Addresses();
    }
  }

  lemma AfterPrefixSound(s: set<nat>, p: PrefixLen, n: nat, x: Cidr)
    requires n <= |Candidates(s, p)|
    requires x in Candidates(s - UnionOf(Candidates(s, p)[..n]), p)
    ensures x in Candidates(s, p)[n..]
  {
    var c := Candidates(s, p);
    CandidateFits(s - UnionOf(c[..n]), p, x);
    SubsetOfMinus(x.Addresses(), s, UnionOf(c[..n]));
    CandidateFits(s, p, x);
    var i :| 0 <= i < |c| && c[i] == x;
    PrefixCovers(c, n, i, s);
    assert c[n..][i - n] == x;
  }

  lemma AfterPrefixComplete(s: set<nat>, p: PrefixLen, n: nat, x: Cidr)
    requires n <= |Candidates(s, p)|
    requires x in Candidates(s, p)[n..]
    ensures x in Candidates(s - UnionOf(Candidates(s, p)[..n]), p)
  {
    var c := Candidates(s, p);
    var i :| n <= i < |c| && c[i] == x;
    CandidateFits(s, p, x);
    CandidatesSorted(s, p);
    PrefixDisjoint(c, n, i);
    CandidateFits(s - UnionOf(c[..n]), p, x);
  }

  lemma {:induction false} SortedUnionSize(cs: seq<Cidr>, p: PrefixLen)
    requires Sorted(cs)
    requires forall k :: 0 <= k < |cs| ==> cs[k].len == p
    ensures |UnionOf(cs)| == |cs| * BlockSize(p)
  {
    if cs != [] {
      var n := |cs| - 1;
      var init := cs[..n];
      forall i, j | 0 <= i < j < |init|
        ensures Below(init[i], init[j])
      {
        assert init[i] == cs[i] && init[j] == cs[j];
      }
      forall k | 0 <= k < |init|
        ensures init[k].len == p
      {
        assert init[k] == cs[k];
      }
      SortedUnionSize(init, p);
      forall k | 0 <= k < |init|
        ensures init[k].Addresses() !! cs[n].Addresses()
      {
        assert init[k] == cs[k];
        assert Below(cs[k], cs[n]);
        BelowDisjoint(cs[k], cs[n]);
      }
      UnionOfDisjoint(init, cs[n].Addresses());
      AddressCount(cs[n]);
      MulSucc(n, BlockSize(p));
    }
  }

  /**
   Carving one block: when the used list is the first `n` of a block's /p
   sub-blocks, the allocator hands out sub-block `n`, and LookupError once all
   of them are used.
   */
  lemma CarveBlock(c: Cidr, p: PrefixLen, n: nat)
    requires c.Valid() && n <= |Subnets(c, p)|
    ensures FirstFree(c.Addresses(), Subnets(c, p)[..n], p) ==
      if n < |Subnets(c, p)| then Ok(Subnets(c, p)[n]) else Err(LookupError)
  {
    CandidatesOfBlock(c, p);
    NextFree(c.Addresses(), p, n);
  }

  /** A block with any part of it used cannot be handed out whole: LookupError. */
  lemma PartlyUsedBlockExhausted(c: Cidr, d: Cidr)
    requires c.Valid() && Within(d, c)
    ensures FirstFree(c.Addresses(), [d], c.len) == Err(LookupError)
  {
    var rest := c.Addresses() - UnionOf([d]);
    UnionOfSingle(d);
    forall b: Cidr
      ensures !Fits(b, c.len, rest)
    {
      if Fits(b, c.len, rest) {
        AddressesWithin(b, c);
        SameLenWithin(b, c);
        assert d.Base() in d.Addresses();
        WithinAddresses(d, c);
      }
    }
    FirstFreeIsLowest(c.Addresses(), [d], c.len);
  }

  // ---------------------------------------------------------------------
  // Worked examples

  lemma Pow2Values()
    ensures Pow2(4) == 16 && Pow2(7) == 128 && Pow2(8) == 256 && Pow2(12) == 4096
    ensures Pow2(16) == 0x1_0000 && Pow2(24) == 0x100_0000
  {
    assert Pow2(2) == 4;
    Pow2Add(4, 4);
    Pow2Add(4, 8);
    Pow2Add(8, 8);
    Pow2Add(16, 8);
  }

  /** 10.0.0.0/16 at /20 with nothing used gives 10.0.0.0/20; with 10.0.0.0/20 used it gives 10.0.16.0/20. */
  lemma ExampleSlash16()
    ensures Cidr(2560, 16).Base() == Dotted(10, 0, 0, 0)
    ensures Cidr(40960, 20).Base() == Dotted(10, 0, 0, 0)
    ensures Cidr(40961, 20).Base() == Dotted(10, 0, 16, 0)
    ensures FirstFree(Cidr(2560, 16).Addresses(), [], 20) == Ok(Cidr(40960, 20))
    ensures FirstFree(Cidr(2560, 16).Addresses(), [Cidr(40960, 20)], 20) == Ok(Cidr(40961, 20))
  {
    Pow2Values();
    var top := Cidr(2560, 16);
    var c := Subnets(top, 20);
    assert |c| == 16 && c[0] == Cidr(40960, 20) && c[1] == Cidr(40961, 20);
    CarveBlock(top, 20, 0);
    CarveBlock(top, 20, 1);
    assert c[..0] == [] && c[..1] == [Cidr(40960, 20)];
  }

  /**
   10.0.0.0/24 asked for a /24: LookupError when the whole block is used, and also
   when only 10.0.0.0/25 is, since the free half is smaller than requested.
   */
  lemma ExampleExhausted()
    ensures Cidr(655360, 24).Base() == Dotted(10, 0, 0, 0)
    ensures Cidr(1310720, 25).Base() == Dotted(10, 0, 0, 0)
    ensures FirstFree(Cidr(655360, 24).Addresses(), [Cidr(655360, 24)], 24) == Err(LookupError)
    ensures FirstFree(Cidr(655360, 24).Addresses(), [Cidr(1310720, 25)], 24) == Err(LookupError)
  {
    Pow2Values();
    PartlyUsedBlockExhausted(Cidr(655360, 24), Cidr(655360, 24));
    PartlyUsedBlockExhausted(Cidr(655360, 24), Cidr(1310720, 25));
  }
}
