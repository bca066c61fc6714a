/**
 The Control Tower integration lambda: its monitored variant of
 returnAvailableSubnet, and the filter of lambda_handler that picks the IPAM
 pools whose Env allocation tag names the new account's organizational unit.
 */
module CtIntegration {
  import opened Ipv4
  import opened AddressSets
  import opened Outcomes
  import opened Allocator
  import opened Monitor

  /**
   totalFreeIps: the addresses of the candidate blocks left once the used blocks
   are removed, one block's worth per candidate.
   */
  function FreeAddressCount(s: set<nat>, used: seq<Cidr>, p: PrefixLen): (r: nat)
    ensures r == |UnionOf(Candidates(s - UnionOf(used), p))|
    ensures r <= |s|
  {
    var n := |Candidates(s - UnionOf(used), p)|;
    MulLe(0, n, BlockSize(p));
    CandidatesSize(s - UnionOf(used), p);
    SubsetSize(s - UnionOf(used), s);
    n * BlockSize(p)
  }

  /**
   returnAvailableSubnet with monitoring: totalIps is taken before removal, and
   monitoring runs before the exhaustion check, so an empty set raises
   ZeroDivisionError and an alert goes out whether or not a block is returned.
   */
  method ReturnAvailableSubnet(supernetSet: AddressSet, usedSubnets: seq<Cidr>, subnetPrefix: PrefixLen,
                               region: string, env: string)
    returns (r: Result<Cidr>, alert: Option<Alert>)
    requires supernetSet.Valid()
    modifies supernetSet
    ensures supernetSet.Valid()
    ensures supernetSet.addrs == old(supernetSet.addrs) - UnionOf(usedSubnets)
    ensures old(supernetSet.Size()) == 0 ==> r == Err(ZeroDivisionError) && alert == None
    ensures old(supernetSet.Size()) > 0 ==>
      && r == FirstFree(old(supernetSet.addrs), usedSubnets, subnetPrefix)
      && alert == Monitoring(old(supernetSet.Size()),
                             FreeAddressCount(old(supernetSet.addrs), usedSubnets, subnetPrefix), region, env).value
  {
    var totalIps := supernetSet.Size();
    var _ := FindAvailableSubnets(supernetSet, usedSubnets);
    var freeSubnets := CollectFreeSubnets(supernetSet, subnetPrefix);
    forall k | 0 <= k < |freeSubnets|
      ensures freeSubnets[k].Valid()
    {
      CandidateFits(supernetSet.addrs, subnetPrefix, freeSubnets[k]);
    }
    var freeSet := new AddressSet(freeSubnets);
    var totalFreeIps := freeSet.Size();
    CandidatesSize(supernetSet.addrs, subnetPrefix);
    var monitored := Monitoring(totalIps, totalFreeIps, region, env);
    if monitored.Err? {
      r, alert := Err(monitored.error), None;
      return;
    }
    alert := monitored.value;
    if |freeSubnets| > 0 {
      r := Ok(freeSubnets[0]);
    } else {
      r := Err(LookupError);
    }
  }

  /**
   A non-empty set with no block left: the full-usage alert (100 percent) goes
   out, and then the call raises LookupError.
   */
  lemma ExhaustionAlerts(s: set<nat>, used: seq<Cidr>, p: PrefixLen, region: string, env: string)
    requires |s| > 0 && FirstFree(s, used, p).Err?
    ensures Monitoring(|s|, FreeAddressCount(s, used, p), region, env) == Ok(Some(Alert(100, region, env)))
    ensures FirstFree(s, used, p) == Err(LookupError)
  {
    assert FreeAddressCount(s, used, p) == 0;
    FullUsage(|s|);
  }

  // ---------------------------------------------------------------------
  // The pool tag filter of lambda_handler

  datatype Tag = Tag(key: string, value: string)

  /** What describe_ipam_pools reports of a pool; the tag list is absent for untagged pools. */
  datatype IpamPool = IpamPool(poolId: string, poolArn: string, allocationResourceTags: Option<seq<Tag>>)

  predicate EnvTag(tag: Tag, tagValue: string)
  {
    tag.key == "Env" && tag.value == tagValue
  }

  /** The pool's ARN once for each matching tag of `tags`. */
  function TagArns(tags: seq<Tag>, arn: string, tagValue: string): seq<string>
  {
    if tags == [] then []
    else TagArns(tags[..|tags| - 1], arn, tagValue) + (if EnvTag(tags[|tags| - 1], tagValue) then [arn] else [])
  }

  function PoolArns(pool: IpamPool, tagValue: string): seq<string>
  {
    match pool.allocationResourceTags
    case None => []
    case Some(tags) => TagArns(tags, pool.poolArn, tagValue)
  }

  /** memberIpamPoolArn as the loop leaves it: pool by pool, in input order. */
  function SelectedArns(pools: seq<IpamPool>, tagValue: string): seq<string>
  {
    if pools == [] then [] else SelectedArns(pools[..|pools| - 1], tagValue) + PoolArns(pools[|pools| - 1], tagValue)
  }

  /** The outer loop of the filter that builds memberIpamPoolArn, pool by pool. */
  method SelectMemberPoolArns(pools: seq<IpamPool>, tagValue: string) returns (memberIpamPoolArn: seq<string>)
    ensures memberIpamPoolArn == SelectedArns(pools, tagValue)
  {
    memberIpamPoolArn := [];
    for i := 0 to |pools|
      invariant memberIpamPoolArn == SelectedArns(pools[..i], tagValue)
    {
      memberIpamPoolArn := AppendPoolArns(memberIpamPoolArn, pools[i], tagValue);
      assert pools[..i + 1][..i] == pools[..i];
    }
    assert pools[..|pools|] == pools;
  }

  /** The inner loop over one pool's tags: its ARN is appended once for each matching Env tag. */
  method AppendPoolArns(memberIpamPoolArn: seq<string>, pool: IpamPool, tagValue: string) returns (r: seq<string>)
    ensures r == memberIpamPoolArn + PoolArns(pool, tagValue)
  {
    r := memberIpamPoolArn;
    if pool.allocationResourceTags.Some? {
      var tags := pool.allocationResourceTags.value;
      for j := 0 to |tags|
        invariant r == memberIpamPoolArn + TagArns(tags[..j], pool.poolArn, tagValue)
      {
        TagArnsStep(tags, j, pool.poolArn, tagValue);
        if tags[j].key == "Env" && tags[j].value == tagValue {
          r := r + [pool.poolArn];
        }
      }
      assert tags[..|tags|] == tags;
    }
  }

  lemma TagArnsStep(tags: seq<Tag>, j: nat, arn: string, tagValue: string)
    requires j < |tags|
    ensures TagArns(tags[..j + 1], arn, tagValue)
      == TagArns(tags[..j], arn, tagValue) + (if EnvTag(tags[j], tagValue) then [arn] else [])
  {
    assert tags[..j + 1][..j] == tags[..j];
  }

  /** The pool has its tag list and one of its tags is Env with the wanted value. */
  predicate Selected(pool: IpamPool, tagValue: string)
  {
    pool.allocationResourceTags.Some? && exists t :: t in pool.allocationResourceTags.value && EnvTag(t, tagValue)
  }

  /** Each entry of a pool's contribution is its ARN, and there is one exactly when the pool is selected. */
  lemma {:induction false} TagArnsMember(tags: seq<Tag>, arn: string, tagValue: string, x: string)
    ensures x in TagArns(tags, arn, tagValue) <==> x == arn && exists t :: t in tags && EnvTag(t, tagValue)
  {
    if tags != [] {
      var init := tags[..|tags| - 1];
      var last := tags[|tags| - 1];
      TagArnsMember(init, arn, tagValue, x);
      assert tags == init + [last];
      if x == arn && EnvTag(last, tagValue) {
        assert x in TagArns(tags, arn, tagValue);
      }
      forall t | t in init
        ensures t in tags
      {
      }
    }
  }

  /** An ARN is listed exactly when some pool carrying it has the matching Env tag. */
  lemma {:induction false} SelectedArnsMember(pools: seq<IpamPool>, tagValue: string, arn: string)
    ensures arn in SelectedArns(pools, tagValue) <==>
      exists i :: 0 <= i < |pools| && pools[i].poolArn == arn && Selected(pools[i], tagValue)
  {
    if pools != [] {
      var n := |pools| - 1;
      SelectedArnsMember(pools[..n], tagValue, arn);
      PoolArnsMember(pools[n], tagValue, arn);
      ListsArnStep(pools, tagValue, arn);
    }
  }

  /** Some pool of `pools` carries `arn` and is selected. */
  predicate ListsArn(pools: seq<IpamPool>, tagValue: string, arn: string)
  {
    exists i :: 0 <= i < |pools| && pools[i].poolArn == arn && Selected(pools[i], tagValue)
  }

  lemma ListsArnStep(pools: seq<IpamPool>, tagValue: string, arn: string)
    requires pools != []
    ensures ListsArn(pools, tagValue, arn) <==>
      ListsArn(pools[..|pools| - 1], tagValue, arn)
      || (pools[|pools| - 1].poolArn == arn && Selected(pools[|pools| - 1], tagValue))
  {
    var n := |pools| - 1;
    var init := pools[..n];
    if ListsArn(pools, tagValue, arn) {
      var i :| 0 <= i < |pools| && pools[i].poolArn == arn && Selected(pools[i], tagValue);
      if i < n {
        assert init[i] == pools[i];
      }
    }
    if ListsArn(init, tagValue, arn) {
      var i :| 0 <= i < |init| && init[i].poolArn == arn && Selected(init[i], tagValue);
      assert pools[i] == init[i];
    }
  }

  lemma PoolArnsMember(pool: IpamPool, tagValue: string, arn: string)
    ensures arn in PoolArns(pool, tagValue) <==> pool.poolArn == arn && Selected(pool, tagValue)
  {
    if pool.allocationResourceTags.Some? {
      TagArnsMember(pool.allocationResourceTags.value, pool.poolArn, tagValue, arn);
    }
  }

  /** Input order is kept: filtering two lists of pools one after the other is filtering their concatenation. */
  lemma {:induction false} SelectedArnsAppend(a: seq<IpamPool>, b: seq<IpamPool>, tagValue: string)
    ensures SelectedArns(a + b, tagValue) == SelectedArns(a, tagValue) + SelectedArns(b, tagValue)
  {
    if b != [] {
      var n := |b| - 1;
      var init, last := b[..n], b[n];
      SelectedArnsAppend(a, init, tagValue);
      assert (a + b)[..|a + b| - 1] == a + init && (a + b)[|a + b| - 1] == last;
      StringsAssoc(SelectedArns(a, tagValue), SelectedArns(init, tagValue), PoolArns(last, tagValue));
    } else {
      assert a + b == a;
    }
  }

  /** Concatenation regroups; stated apart so the step above is proved in a small context. */
  lemma StringsAssoc(x: seq<string>, y: seq<string>, z: seq<string>)
    ensures (x + y) + z == x + (y + z)
  {
  }

  /** The indices of the tags that match. */
  function MatchingTags(tags: seq<Tag>, tagValue: string): set<nat>
  {
    set k | 0 <= k < |tags| && EnvTag(tags[k], tagValue)
  }

  /** A tagged pool contributes its ARN once per matching tag, so a pool with two matching tags is listed twice. */
  lemma {:induction false} TagArnsCount(tags: seq<Tag>, arn: string, tagValue: string)
    ensures |TagArns(tags, arn, tagValue)| == |MatchingTags(tags, tagValue)|
    ensures forall k :: 0 <= k < |TagArns(tags, arn, tagValue)| ==> TagArns(tags, arn, tagValue)[k] == arn
  {
    if tags != [] {
      var n := |tags| - 1;
      TagArnsCount(tags[..n], arn, tagValue);
      MatchingStep(tags, tagValue);
      ArnsAppend(TagArns(tags[..n], arn, tagValue), if EnvTag(tags[n], tagValue) then [arn] else [], arn);
    }
  }

  /** The matching indices of a list are those of its initial part, and the last index when the last tag matches. */
  lemma MatchingStep(tags: seq<Tag>, tagValue: string)
    requires tags != []
    ensures var n := |tags| - 1;
      && n !in MatchingTags(tags[..n], tagValue)
      && MatchingTags(tags, tagValue)
         == MatchingTags(tags[..n], tagValue) + (if EnvTag(tags[n], tagValue) then {n} else {})
  {
    var n := |tags| - 1;
    var init := tags[..n];
    forall k | 0 <= k < n
      ensures init[k] == tags[k]
    {
    }
  }

  lemma ArnsAppend(x: seq<string>, y: seq<string>, arn: string)
    requires forall k :: 0 <= k < |x| ==> x[k] == arn
    requires forall k :: 0 <= k < |y| ==> y[k] == arn
    ensures forall k :: 0 <= k < |x + y| ==> (x + y)[k] == arn
  {
  }

  /** A pool without AllocationResourceTags adds nothing. */
  lemma UntaggedPoolSkipped(pools: seq<IpamPool>, pool: IpamPool, tagValue: string)
    requires pool.allocationResourceTags.None?
    ensures SelectedArns(pools + [pool], tagValue) == SelectedArns(pools, tagValue)
  {
    assert (pools + [pool])[..|pools|] == pools;
  }
}
