/**
 The custom-resource handler of the IPAM pool lambda. On Create it carves one
 block of the top-level CIDR per region, using a persistent address set and a
 growing list of used region blocks, and inside each region block one block
 per environment, using a fresh set of the region block and a list of used
 environment blocks that is never reset between regions.
 */
module PoolLambda {
  import opened Ipv4
  import opened AddressSets
  import opened Outcomes
  import opened Allocator

  /** An environment-level pool and the CIDR provisioned to it. */
  datatype EnvPool = EnvPool(env: string, cidr: Cidr)

  /** A regional pool, its CIDR and the environment pools created inside it. */
  datatype RegionPool = RegionPool(region: string, cidr: Cidr, envPools: seq<EnvPool>)

  /** How the invocation ends: a response sent to CloudFormation, none, or an escaping exception. */
  datatype Outcome = Responded(status: string, message: string) | NoResponse | Raised(error: Error)

  const CreateMessage: string := "Goodbye from lambda from create"
  const DeleteMessage: string := "Goodbye from lambda"

  function EnvCidrs(envPools: seq<EnvPool>): seq<Cidr>
  {
    seq(|envPools|, k requires 0 <= k < |envPools| => envPools[k].cidr)
  }

  /** regionalUsedSubnets: the environment blocks of every region so far, region by region. */
  function AllEnvCidrs(pools: seq<RegionPool>): seq<Cidr>
  {
    if pools == [] then [] else AllEnvCidrs(pools[..|pools| - 1]) + EnvCidrs(pools[|pools| - 1].envPools)
  }

  /**
   The environment pools of region block `cidr` are named after the first
   environments in order and hold the first /acc sub-blocks of the region block.
   */
  predicate EnvsCarved(cidr: Cidr, envPools: seq<EnvPool>, envNames: seq<string>, acc: PrefixLen)
  {
    && |envPools| <= |envNames|
    && |envPools| <= |Subnets(cidr, acc)|
    && forall k :: 0 <= k < |envPools| ==> envPools[k] == EnvPool(envNames[k], Subnets(cidr, acc)[k])
  }

  /**
   The regional pools are named after the first regions in order, hold the first
   /prefix sub-blocks of the top-level block, and have their environments carved.
   */
  predicate Carved(pools: seq<RegionPool>, top: Cidr, regions: seq<string>, prefix: PrefixLen,
                   envNames: seq<string>, acc: PrefixLen)
  {
    && |pools| <= |regions|
    && |pools| <= |Subnets(top, prefix)|
    && forall i :: 0 <= i < |pools| ==>
         && pools[i].region == regions[i]
         && pools[i].cidr == Subnets(top, prefix)[i]
         && EnvsCarved(pools[i].cidr, pools[i].envPools, envNames, acc)
  }

  predicate AllComplete(pools: seq<RegionPool>, envNames: seq<string>)
  {
    forall i :: 0 <= i < |pools| ==> |pools[i].envPools| == |envNames|
  }

  /** Every region got all its environments, and no /prefix block of the top-level block is left. */
  predicate RegionsExhausted(pools: seq<RegionPool>, top: Cidr, prefix: PrefixLen, envNames: seq<string>)
  {
    AllComplete(pools, envNames) && |pools| == |Subnets(top, prefix)|
  }

  /** The earlier regions got all their environments, and the last region block ran out of /acc blocks. */
  predicate EnvsExhausted(pools: seq<RegionPool>, envNames: seq<string>, acc: PrefixLen)
  {
    && |pools| > 0
    && AllComplete(pools[..|pools| - 1], envNames)
    && |pools[|pools| - 1].envPools| == |Subnets(pools[|pools| - 1].cidr, acc)|
  }

  lemma AllCompleteStep(pools: seq<RegionPool>, envNames: seq<string>)
    requires |pools| > 0 && AllComplete(pools[..|pools| - 1], envNames)
    requires |pools[|pools| - 1].envPools| == |envNames|
    ensures AllComplete(pools, envNames)
  {
    forall i | 0 <= i < |pools| - 1
      ensures pools[i] == pools[..|pools| - 1][i]
    {
    }
  }

  /**
   One region-level call of returnAvailableSubnet on the persistent set: it
   hands out the next /prefix block of the top-level block and leaves the set
   without every block handed out so far.
   */
  method AllocateRegionBlock(supernetSet: AddressSet, usedSubnets: seq<Cidr>, ghost top: Cidr,
                             prefix: PrefixLen, ghost removed: nat)
    returns (r: Result<Cidr>)
    requires top.Valid() && supernetSet.Valid()
    requires removed <= |usedSubnets| <= |Subnets(top, prefix)|
    requires usedSubnets == Subnets(top, prefix)[..|usedSubnets|]
    requires supernetSet.addrs == top.Addresses() - UnionOf(Subnets(top, prefix)[..removed])
    modifies supernetSet
    ensures supernetSet.Valid()
    ensures supernetSet.addrs == top.Addresses() - UnionOf(usedSubnets)
    ensures r == if |usedSubnets| < |Subnets(top, prefix)| then Ok(Subnets(top, prefix)[|usedSubnets|])
                 else Err(LookupError)
  {
    r := Allocator.ReturnAvailableSubnet(supernetSet, usedSubnets, prefix);
    RegionStep(top, prefix, removed, |usedSubnets|);
  }

  /**
   One environment-level call of returnAvailableSubnet on a fresh set of the
   region block: it hands out the region's next /acc block.
   */
  method AllocateEnvBlock(cidrToAssign: Cidr, ghost earlier: seq<Cidr>, ghost envPools: seq<EnvPool>,
                          regionalUsed: seq<Cidr>, ghost envNames: seq<string>, accPoolPrefixLength: PrefixLen)
    returns (r: Result<Cidr>)
    requires cidrToAssign.Valid() && UnionOf(earlier) !! cidrToAssign.Addresses()
    requires EnvsCarved(cidrToAssign, envPools, envNames, accPoolPrefixLength)
    requires regionalUsed == earlier + EnvCidrs(envPools)
    ensures r == if |envPools| < |Subnets(cidrToAssign, accPoolPrefixLength)|
                 then Ok(Subnets(cidrToAssign, accPoolPrefixLength)[|envPools|]) else Err(LookupError)
  {
    var regionalSupernetSet := new AddressSet([cidrToAssign]);
    UnionOfSingle(cidrToAssign);
    r := Allocator.ReturnAvailableSubnet(regionalSupernetSet, regionalUsed, accPoolPrefixLength);
    EnvIteration(cidrToAssign, earlier, envPools, envNames, accPoolPrefixLength);
  }

  /**
   The environment loop for one region block. It stops with `ok` false where
   returnAvailableSubnet raises LookupError, which happens exactly when every
   /acc sub-block of the region is taken.
   */
  method CreateEnvironmentPools(cidrToAssign: Cidr, regionalUsedSubnets: seq<Cidr>, accEnvNames: seq<string>,
                                accPoolPrefixLength: PrefixLen)
    returns (ok: bool, envPools: seq<EnvPool>, regionalUsed: seq<Cidr>)
    requires cidrToAssign.Valid()
    requires UnionOf(regionalUsedSubnets) !! cidrToAssign.Addresses()
    ensures regionalUsed == regionalUsedSubnets + EnvCidrs(envPools)
    ensures EnvsCarved(cidrToAssign, envPools, accEnvNames, accPoolPrefixLength)
    ensures ok <==> |envPools| == |accEnvNames|
    ensures !ok ==> |envPools| == |Subnets(cidrToAssign, accPoolPrefixLength)|
  {
    var subnets := Subnets(cidrToAssign, accPoolPrefixLength);
    envPools, regionalUsed := [], regionalUsedSubnets;
    for j := 0 to |accEnvNames|
      invariant |envPools| == j
      invariant regionalUsed == regionalUsedSubnets + EnvCidrs(envPools)
      invariant EnvsCarved(cidrToAssign, envPools, accEnvNames, accPoolPrefixLength)
    {
      var r := AllocateEnvBlock(cidrToAssign, regionalUsedSubnets, envPools, regionalUsed, accEnvNames,
        accPoolPrefixLength);
      if r.Err? {
        return false, envPools, regionalUsed;
      }
      var envCidrToAssign := r.value;
      EnvsCarvedAppend(cidrToAssign, envPools, accEnvNames, accPoolPrefixLength);
      EnvCidrsAppend(envPools, EnvPool(accEnvNames[j], envCidrToAssign));
      envPools := envPools + [EnvPool(accEnvNames[j], envCidrToAssign)];
      regionalUsed := regionalUsed + [envCidrToAssign];
    }
    ok := true;
  }

  /**
   The rest of one region iteration once its block is allocated: the regional
   pool is recorded with its block, and the environment loop runs inside it.
   */
  method ProvisionRegion(pools: seq<RegionPool>, poolRegion: string, cidrToAssign: Cidr,
                         regionalUsedSubnets: seq<Cidr>, accEnvNames: seq<string>, accPoolPrefixLength: PrefixLen,
                         ghost top: Cidr, ghost regions: seq<string>, ghost prefix: PrefixLen)
    returns (ok: bool, pools': seq<RegionPool>, regionalUsed: seq<Cidr>)
    requires top.Valid()
    requires Carved(pools, top, regions, prefix, accEnvNames, accPoolPrefixLength)
    requires |pools| < |regions| && |pools| < |Subnets(top, prefix)|
    requires poolRegion == regions[|pools|] && cidrToAssign == Subnets(top, prefix)[|pools|]
    requires regionalUsedSubnets == AllEnvCidrs(pools)
    requires AllComplete(pools, accEnvNames)
    ensures |pools'| == |pools| + 1 && pools'[..|pools|] == pools
    ensures Carved(pools', top, regions, prefix, accEnvNames, accPoolPrefixLength)
    ensures regionalUsed == AllEnvCidrs(pools')
    ensures ok <==> |pools'[|pools|].envPools| == |accEnvNames|
    ensures ok ==> AllComplete(pools', accEnvNames)
    ensures !ok ==> EnvsExhausted(pools', accEnvNames, accPoolPrefixLength)
  {
    EarlierEnvsOutside(pools, top, regions, prefix, accEnvNames, accPoolPrefixLength);
    SubnetAt(top, prefix, |pools|);
    var envPools;
    ok, envPools, regionalUsed :=
      CreateEnvironmentPools(cidrToAssign, regionalUsedSubnets, accEnvNames, accPoolPrefixLength);
    var pool := RegionPool(poolRegion, cidrToAssign, envPools);
    AllEnvCidrsAppend(pools, pool);
    CarvedAppend(pools, pool, top, regions, prefix, accEnvNames, accPoolPrefixLength);
    pools' := pools + [pool];
    assert pools'[..|pools|] == pools;
    if ok {
      AllCompleteStep(pools', accEnvNames);
    }
  }

  /**
   The region loop of Create. It stops with `ok` false where
   returnAvailableSubnet raises LookupError: either every /prefix block of the
   top-level block is taken, or the last region's block ran out of /acc blocks.
   */
  method CreateRegionPools(topLevelPoolCidr: Cidr, poolRegions: seq<string>, accEnvNames: seq<string>,
                           prefix: PrefixLen, accPoolPrefixLength: PrefixLen)
    returns (ok: bool, pools: seq<RegionPool>)
    requires topLevelPoolCidr.Valid()
    ensures Carved(pools, topLevelPoolCidr, poolRegions, prefix, accEnvNames, accPoolPrefixLength)
    ensures ok <==> |pools| == |poolRegions| && AllComplete(pools, accEnvNames)
    ensures !ok ==>
      RegionsExhausted(pools, topLevelPoolCidr, prefix, accEnvNames) || EnvsExhausted(pools, accEnvNames, accPoolPrefixLength)
  {
    var usedSubnets: seq<Cidr> := [];
    var regionalUsedSubnets: seq<Cidr> := [];
    var supernetSet := new AddressSet([topLevelPoolCidr]);
    UnionOfSingle(topLevelPoolCidr);
    ghost var regionBlocks := Subnets(topLevelPoolCidr, prefix);
    ghost var removed := 0;
    pools := [];
    for i := 0 to |poolRegions|
      invariant |pools| == i
      invariant supernetSet.Valid()
      invariant i <= |regionBlocks| && usedSubnets == regionBlocks[..i]
      invariant removed <= i && supernetSet.addrs == topLevelPoolCidr.Addresses() - UnionOf(regionBlocks[..removed])
      invariant regionalUsedSubnets == AllEnvCidrs(pools)
      invariant Carved(pools, topLevelPoolCidr, poolRegions, prefix, accEnvNames, accPoolPrefixLength)
      invariant AllComplete(pools, accEnvNames)
    {
      var r := AllocateRegionBlock(supernetSet, usedSubnets, topLevelPoolCidr, prefix, removed);
      removed := i;
      if r.Err? {
        assert RegionsExhausted(pools, topLevelPoolCidr, prefix, accEnvNames);
        return false, pools;
      }
      var cidrToAssign := r.value;
      usedSubnets := usedSubnets + [cidrToAssign];
      SliceSnoc(regionBlocks, i);
      ok, pools, regionalUsedSubnets := ProvisionRegion(pools, poolRegions[i], cidrToAssign, regionalUsedSubnets,
        accEnvNames, accPoolPrefixLength, topLevelPoolCidr, poolRegions, prefix);
      if !ok {
        return false, pools;
      }
    }
    ok := true;
  }

  /**
   handler: Create carves the pools region by region and then responds SUCCESS;
   a LookupError on the way escapes with the pools made so far. Delete only
   responds SUCCESS; any other request type is logged and gets no response.
   */
  method Handler(requestType: string, topLevelPoolCidr: Cidr, poolRegions: seq<string>, accEnvNames: seq<string>,
                 prefix: PrefixLen, accPoolPrefixLength: PrefixLen)
    returns (outcome: Outcome, pools: seq<RegionPool>)
    requires topLevelPoolCidr.Valid()
    ensures requestType == "Create" ==>
      && Carved(pools, topLevelPoolCidr, poolRegions, prefix, accEnvNames, accPoolPrefixLength)
      && (outcome == Responded("SUCCESS", CreateMessage) || outcome == Raised(LookupError))
      && (outcome.Responded? <==> |pools| == |poolRegions| && AllComplete(pools, accEnvNames))
      && (outcome.Raised? ==>
            || RegionsExhausted(pools, topLevelPoolCidr, prefix, accEnvNames)
            || EnvsExhausted(pools, accEnvNames, accPoolPrefixLength))
    ensures requestType == "Delete" ==> outcome == Responded("SUCCESS", DeleteMessage) && pools == []
    ensures requestType != "Create" && requestType != "Delete" ==> outcome == NoResponse && pools == []
  {
    pools := [];
    if requestType == "Create" {
      var ok;
      ok, pools := CreateRegionPools(topLevelPoolCidr, poolRegions, accEnvNames, prefix, accPoolPrefixLength);
      outcome := if ok then Responded("SUCCESS", CreateMessage) else Raised(LookupError);
    } else if requestType == "Delete" {
      outcome := Responded("SUCCESS", DeleteMessage);
    } else {
      outcome := NoResponse;
    }
  }

  // ---------------------------------------------------------------------
  // Steps of the two loops

  /**
   The persistent region set, already reduced by some of the earlier region
   blocks, hands out the next region block and is left without any of them.
   */
  lemma RegionStep(top: Cidr, prefix: PrefixLen, k: nat, i: nat)
    requires top.Valid() && k <= i <= |Subnets(top, prefix)|
    ensures FirstFree(top.Addresses() - UnionOf(Subnets(top, prefix)[..k]), Subnets(top, prefix)[..i], prefix)
      == if i < |Subnets(top, prefix)| then Ok(Subnets(top, prefix)[i]) else Err(LookupError)
    ensures top.Addresses() - UnionOf(Subnets(top, prefix)[..k]) - UnionOf(Subnets(top, prefix)[..i])
      == top.Addresses() - UnionOf(Subnets(top, prefix)[..i])
  {
    var s := Subnets(top, prefix);
    assert s[..i][..k] == s[..k];
    RerunOnReducedSet(top.Addresses(), s[..i], k, prefix);
    PrefixAbsorbed(top.Addresses(), s[..i], k);
    CarveBlock(top, prefix, i);
  }

  /** Removing a prefix of the used list beforehand leaves the same set once the whole list is removed. */
  lemma PrefixAbsorbed(a: set<nat>, used: seq<Cidr>, k: nat)
    requires k <= |used|
    ensures a - UnionOf(used[..k]) - UnionOf(used) == a - UnionOf(used)
  {
    var x, y := used[..k], used[k..];
    assert x + y == used;
    UnionOfAppend(x, y);
    DifferenceAbsorbs(a, UnionOf(x), UnionOf(used), UnionOf(y));
  }

  /** One pass of the environment loop: the allocator hands out the next /acc block of the region. */
  lemma EnvIteration(cidr: Cidr, earlier: seq<Cidr>, envPools: seq<EnvPool>, envNames: seq<string>, acc: PrefixLen)
    requires cidr.Valid() && UnionOf(earlier) !! cidr.Addresses()
    requires EnvsCarved(cidr, envPools, envNames, acc)
    ensures FirstFree(cidr.Addresses(), earlier + EnvCidrs(envPools), acc)
      == if |envPools| < |Subnets(cidr, acc)| then Ok(Subnets(cidr, acc)[|envPools|]) else Err(LookupError)
  {
    EnvCidrsCarved(cidr, envPools, envNames, acc);
    EnvStep(cidr, earlier, acc, |envPools|);
  }

  lemma EnvsCarvedAppend(cidr: Cidr, envPools: seq<EnvPool>, envNames: seq<string>, acc: PrefixLen)
    requires EnvsCarved(cidr, envPools, envNames, acc)
    requires |envPools| < |envNames| && |envPools| < |Subnets(cidr, acc)|
    ensures EnvsCarved(cidr, envPools + [EnvPool(envNames[|envPools|], Subnets(cidr, acc)[|envPools|])], envNames, acc)
  {
    var e := EnvPool(envNames[|envPools|], Subnets(cidr, acc)[|envPools|]);
    forall k | 0 <= k < |envPools| + 1
      ensures (envPools + [e])[k] == if k < |envPools| then envPools[k] else e
    {
    }
  }

  /**
   The fresh region set hands out the next environment block: the environment
   blocks of earlier regions in the used list lie outside it and change nothing.
   */
  lemma EnvStep(cidr: Cidr, earlier: seq<Cidr>, acc: PrefixLen, j: nat)
    requires cidr.Valid() && UnionOf(earlier) !! cidr.Addresses() && j <= |Subnets(cidr, acc)|
    ensures FirstFree(cidr.Addresses(), earlier + Subnets(cidr, acc)[..j], acc)
      == if j < |Subnets(cidr, acc)| then Ok(Subnets(cidr, acc)[j]) else Err(LookupError)
  {
    FirstFreeIgnoresOutside(cidr.Addresses(), earlier, Subnets(cidr, acc)[..j], acc);
    CarveBlock(cidr, acc, j);
  }

  lemma EnvCidrsCarved(cidr: Cidr, envPools: seq<EnvPool>, envNames: seq<string>, acc: PrefixLen)
    requires EnvsCarved(cidr, envPools, envNames, acc)
    ensures EnvCidrs(envPools) == Subnets(cidr, acc)[..|envPools|]
  {
  }

  lemma EnvCidrsAppend(envPools: seq<EnvPool>, e: EnvPool)
    ensures EnvCidrs(envPools + [e]) == EnvCidrs(envPools) + [e.cidr]
  {
  }

  lemma AllEnvCidrsAppend(pools: seq<RegionPool>, pool: RegionPool)
    ensures AllEnvCidrs(pools + [pool]) == AllEnvCidrs(pools) + EnvCidrs(pool.envPools)
  {
    assert (pools + [pool])[..|pools|] == pools;
  }

  lemma SliceSnoc(s: seq<Cidr>, i: nat)
    requires i < |s|
    ensures s[..i + 1] == s[..i] + [s[i]]
  {
  }

  lemma CarvedAppend(pools: seq<RegionPool>, pool: RegionPool, top: Cidr, regions: seq<string>, prefix: PrefixLen,
                     envNames: seq<string>, acc: PrefixLen)
    requires Carved(pools, top, regions, prefix, envNames, acc)
    requires |pools| < |regions| && |pools| < |Subnets(top, prefix)|
    requires pool.region == regions[|pools|] && pool.cidr == Subnets(top, prefix)[|pools|]
    requires EnvsCarved(pool.cidr, pool.envPools, envNames, acc)
    ensures Carved(pools + [pool], top, regions, prefix, envNames, acc)
  {
    forall i | 0 <= i < |pools| + 1
      ensures (pools + [pool])[i] == if i < |pools| then pools[i] else pool
    {
    }
  }

  /** The environment blocks of the regions so far lie in those regions' blocks. */
  lemma {:induction false} EnvsWithinRegions(pools: seq<RegionPool>, top: Cidr, regions: seq<string>,
                                             prefix: PrefixLen, envNames: seq<string>, acc: PrefixLen)
    requires top.Valid()
    requires Carved(pools, top, regions, prefix, envNames, acc)
    ensures UnionOf(AllEnvCidrs(pools)) <= UnionOf(Subnets(top, prefix)[..|pools|])
  {
    if pools != [] {
      var n := |pools| - 1;
      var init := pools[..n];
      CarvedInit(pools, top, regions, prefix, envNames, acc);
      EnvsWithinRegions(init, top, regions, prefix, envNames, acc);
      SubnetAt(top, prefix, n);
      EnvBlocksWithin(pools[n].cidr, pools[n].envPools, envNames, acc);
      UnionsStep(AllEnvCidrs(init), EnvCidrs(pools[n].envPools), Subnets(top, prefix), n);
    }
  }

  lemma CarvedInit(pools: seq<RegionPool>, top: Cidr, regions: seq<string>, prefix: PrefixLen,
                   envNames: seq<string>, acc: PrefixLen)
    requires |pools| > 0 && Carved(pools, top, regions, prefix, envNames, acc)
    ensures Carved(pools[..|pools| - 1], top, regions, prefix, envNames, acc)
  {
    forall i | 0 <= i < |pools| - 1
      ensures pools[..|pools| - 1][i] == pools[i]
    {
    }
  }

  lemma UnionsStep(a: seq<Cidr>, b: seq<Cidr>, s: seq<Cidr>, n: nat)
    requires n < |s| && UnionOf(a) <= UnionOf(s[..n]) && UnionOf(b) <= s[n].Addresses()
    ensures UnionOf(a + b) <= UnionOf(s[..n + 1])
  {
    UnionOfAppend(a, b);
    assert s[..n + 1] == s[..n] + [s[n]];
    UnionOfAppend(s[..n], [s[n]]);
    UnionOfSingle(s[n]);
  }

  /** The environment blocks of one region lie in its block. */
  lemma EnvBlocksWithin(cidr: Cidr, envPools: seq<EnvPool>, envNames: seq<string>, acc: PrefixLen)
    requires cidr.Valid() && EnvsCarved(cidr, envPools, envNames, acc)
    ensures UnionOf(EnvCidrs(envPools)) <= cidr.Addresses()
  {
    var es := EnvCidrs(envPools);
    forall a | a in UnionOf(es)
      ensures a in cidr.Addresses()
    {
      var k := UnionOfWitness(es, a);
      assert es[k] == Subnets(cidr, acc)[k];
      SubnetAt(cidr, acc, k);
      WithinAddresses(es[k], cidr);
    }
  }

  /**
   regionalUsedSubnets is never reset, but everything in it lies in earlier
   region blocks, so it is disjoint from the next region block.
   */
  lemma EarlierEnvsOutside(pools: seq<RegionPool>, top: Cidr, regions: seq<string>, prefix: PrefixLen,
                           envNames: seq<string>, acc: PrefixLen)
    requires top.Valid()
    requires Carved(pools, top, regions, prefix, envNames, acc) && |pools| < |Subnets(top, prefix)|
    ensures UnionOf(AllEnvCidrs(pools)) !! Subnets(top, prefix)[|pools|].Addresses()
  {
    EnvsWithinRegions(pools, top, regions, prefix, envNames, acc);
    SubnetsSorted(top, prefix);
    PrefixDisjoint(Subnets(top, prefix), |pools|, |pools|);
  }

  // ---------------------------------------------------------------------
  // What the carving promises

  /**
   Every region block has the region prefix and lies in the top-level block;
   region blocks are pairwise disjoint; every environment block has the
   environment prefix and lies in its region's block; and the environment
   blocks of all regions are pairwise disjoint.
   */
  lemma PlanDisjoint(pools: seq<RegionPool>, top: Cidr, regions: seq<string>, prefix: PrefixLen,
                     envNames: seq<string>, acc: PrefixLen)
    requires top.Valid()
    requires Carved(pools, top, regions, prefix, envNames, acc)
    ensures forall i :: 0 <= i < |pools| ==>
      pools[i].cidr.Valid() && pools[i].cidr.len == prefix && Within(pools[i].cidr, top)
    ensures forall i, j :: 0 <= i < j < |pools| ==> pools[i].cidr.Addresses() !! pools[j].cidr.Addresses()
    ensures forall i, k :: 0 <= i < |pools| && 0 <= k < |pools[i].envPools| ==>
      pools[i].envPools[k].cidr.len == acc && Within(pools[i].envPools[k].cidr, pools[i].cidr)
    ensures forall i, k, j, l ::
      0 <= i < |pools| && 0 <= k < |pools[i].envPools| && 0 <= j < |pools| && 0 <= l < |pools[j].envPools|
      && (i, k) != (j, l) ==>
      pools[i].envPools[k].cidr.Addresses() !! pools[j].envPools[l].cidr.Addresses()
  {
    var s := Subnets(top, prefix);
    SubnetsSorted(top, prefix);
    forall i | 0 <= i < |pools|
      ensures pools[i].cidr.Valid() && pools[i].cidr.len == prefix && Within(pools[i].cidr, top)
    {
      SubnetAt(top, prefix, i);
    }
    forall i, j | 0 <= i < j < |pools|
      ensures pools[i].cidr.Addresses() !! pools[j].cidr.Addresses()
    {
      BelowDisjoint(s[i], s[j]);
    }
    forall i, k | 0 <= i < |pools| && 0 <= k < |pools[i].envPools|
      ensures pools[i].envPools[k].cidr.len == acc && Within(pools[i].envPools[k].cidr, pools[i].cidr)
    {
      SubnetAt(top, prefix, i);
      EnvBlockFacts(pools[i].cidr, pools[i].envPools, envNames, acc, k);
    }
    forall i, k, j, l |
      0 <= i < |pools| && 0 <= k < |pools[i].envPools| && 0 <= j < |pools| && 0 <= l < |pools[j].envPools|
      && (i, k) != (j, l)
      ensures pools[i].envPools[k].cidr.Addresses() !! pools[j].envPools[l].cidr.Addresses()
    {
      EnvBlocksDisjoint(pools, top, regions, prefix, envNames, acc, i, k, j, l);
    }
  }

  lemma EnvBlockFacts(cidr: Cidr, envPools: seq<EnvPool>, envNames: seq<string>, acc: PrefixLen, k: nat)
    requires cidr.Valid() && EnvsCarved(cidr, envPools, envNames, acc) && k < |envPools|
    ensures envPools[k].cidr == Subnets(cidr, acc)[k]
    ensures envPools[k].cidr.len == acc && Within(envPools[k].cidr, cidr)
  {
    SubnetAt(cidr, acc, k);
  }

  /** Two different environment blocks of one region block are disjoint. */
  lemma SameRegionEnvsDisjoint(cidr: Cidr, envPools: seq<EnvPool>, envNames: seq<string>, acc: PrefixLen,
                               k: nat, l: nat)
    requires cidr.Valid() && EnvsCarved(cidr, envPools, envNames, acc)
    requires k < l < |envPools|
    ensures envPools[k].cidr.Addresses() !! envPools[l].cidr.Addresses()
  {
    var sub := Subnets(cidr, acc);
    SubnetsSorted(cidr, acc);
    assert envPools[k].cidr == sub[k] && envPools[l].cidr == sub[l];
    assert Below(sub[k], sub[l]);
    BelowDisjoint(sub[k], sub[l]);
  }

  /** Environment blocks of two different region blocks are disjoint. */
  lemma OtherRegionEnvsDisjoint(pools: seq<RegionPool>, top: Cidr, regions: seq<string>, prefix: PrefixLen,
                                envNames: seq<string>, acc: PrefixLen, i: nat, k: nat, j: nat, l: nat)
    requires top.Valid()
    requires Carved(pools, top, regions, prefix, envNames, acc)
    requires i < j < |pools| && k < |pools[i].envPools| && l < |pools[j].envPools|
    ensures pools[i].envPools[k].cidr.Addresses() !! pools[j].envPools[l].cidr.Addresses()
  {
    var s := Subnets(top, prefix);
    SubnetAt(top, prefix, i);
    SubnetAt(top, prefix, j);
    SubnetsSorted(top, prefix);
    var ci, cj := pools[i].cidr, pools[j].cidr;
    EnvBlockFacts(ci, pools[i].envPools, envNames, acc, k);
    EnvBlockFacts(cj, pools[j].envPools, envNames, acc, l);
    WithinAddresses(pools[i].envPools[k].cidr, ci);
    WithinAddresses(pools[j].envPools[l].cidr, cj);
    assert Below(s[i], s[j]);
    BelowDisjoint(s[i], s[j]);
  }

  lemma EnvBlocksDisjoint(pools: seq<RegionPool>, top: Cidr, regions: seq<string>, prefix: PrefixLen,
                          envNames: seq<string>, acc: PrefixLen, i: nat, k: nat, j: nat, l: nat)
    requires top.Valid()
    requires Carved(pools, top, regions, prefix, envNames, acc)
    requires i < |pools| && k < |pools[i].envPools| && j < |pools| && l < |pools[j].envPools|
    requires (i, k) != (j, l)
    ensures pools[i].envPools[k].cidr.Addresses() !! pools[j].envPools[l].cidr.Addresses()
  {
    if i == j {
      SubnetAt(top, prefix, i);
      if k < l {
        SameRegionEnvsDisjoint(pools[i].cidr, pools[i].envPools, envNames, acc, k, l);
      } else {
        SameRegionEnvsDisjoint(pools[i].cidr, pools[i].envPools, envNames, acc, l, k);
      }
    } else if i < j {
      OtherRegionEnvsDisjoint(pools, top, regions, prefix, envNames, acc, i, k, j, l);
    } else {
      OtherRegionEnvsDisjoint(pools, top, regions, prefix, envNames, acc, j, l, i, k);
    }
  }

  /**
   Every block the carving recorded is what the allocator returns for it: the
   lowest free block of its prefix given the blocks recorded before it.
   */
  lemma PlanIsLowestFirst(pools: seq<RegionPool>, top: Cidr, regions: seq<string>, prefix: PrefixLen,
                          envNames: seq<string>, acc: PrefixLen, i: nat)
    requires top.Valid()
    requires Carved(pools, top, regions, prefix, envNames, acc) && i < |pools|
    ensures FirstFree(top.Addresses(), Subnets(top, prefix)[..i], prefix) == Ok(pools[i].cidr)
    ensures forall k :: 0 <= k < |pools[i].envPools| ==>
      FirstFree(pools[i].cidr.Addresses(), EnvCidrs(pools[i].envPools)[..k], acc) == Ok(pools[i].envPools[k].cidr)
  {
    CarveBlock(top, prefix, i);
    var c := pools[i].cidr;
    SubnetAt(top, prefix, i);
    forall k | 0 <= k < |pools[i].envPools|
      ensures FirstFree(c.Addresses(), EnvCidrs(pools[i].envPools)[..k], acc) == Ok(pools[i].envPools[k].cidr)
    {
      EnvCidrsCarved(c, pools[i].envPools, envNames, acc);
      assert EnvCidrs(pools[i].envPools)[..k] == Subnets(c, acc)[..k];
      CarveBlock(c, acc, k);
    }
  }
}
