# CIDR sub-block allocator for IPAM pool hierarchies

This project models the address-allocation core of two AWS Lambda functions. The functions build and
share a hierarchy of IPv4 address pools: a top-level pool, one pool per region, and one pool per
environment inside each region.

- `ipam-pool-lambda/index.py` handles the CloudFormation custom resource. On `Create` it
  carves one block of prefix length `IPAM_POOL_PREFIX` out of the top-level CIDR for each region, and
  inside each regional block one block of `AccPoolPrefixLength` per environment name.
  On `Delete` it only acknowledges. On any other request type it only logs.
- `ct-integration-lambda/index.py` runs when Control Tower creates an account. It selects the
  pools whose allocation tags carry `Env = <organizational unit name>` and shares them. Its copy
  of `returnAvailableSubnet` also runs the usage monitor, which warns when more than 80 percent of
  a supernet is used.

`findAvailableSubnets`, `alert` and `monitoring` are textually identical in the two files, so each is
modelled once. The two `returnAvailableSubnet` variants differ in two ways: the ct-integration
copy takes an `Env` parameter (ct-integration-lambda/index.py:41, against
ipam-pool-lambda/index.py:42), and it calls `monitoring` where the ipam-pool copy has that call
commented out. They are `Allocator.ReturnAvailableSubnet` and
`CtIntegration.ReturnAvailableSubnet`.

The modules:

- `Ipv4` (`ipv4.dfy`): an IPv4 block is `Cidr(index, len)`.
  - Its base address is `index * 2^(32 - len)`, so a block is aligned by construction.
  - It is valid when `index < 2^len`.
  - The module defines the address set of a block, containment (`Within`), the strict order
    `Below`, and `Subnets(c, p)`, which is netaddr's `IPNetwork.subnet(p)`: the `2^(p - len)` aligned
    `/p` blocks of `c` in address order, or none when `p < len`.
- `AddressSets` (`address_sets.dfy`): netaddr's `IPSet` as the class `AddressSet` over a set of
  addresses.
  - `remove` is set difference.
  - `iter_cidrs` is the sorted block cover `CidrCover`.
  - `Candidates(s, p)` is the list that `returnAvailableSubnet` builds with its two nested loops.
- `Allocator` (`allocator.dfy`): the specification function `FirstFree(s, used, p)`, the methods
  that run the source's loops, and the lemmas about the allocation.
- `Monitor` (`monitor.dfy`): the percentage computation, the 80 percent threshold and the warning
  text.
- `CtIntegration` (`ct_integration.dfy`): the monitoring variant of the allocator and the tag
  filter of `lambda_handler`.
- `PoolLambda` (`ipam_pool.dfy`): the `Create`/`Delete`/other dispatch of `handler`, with its region
  loop and environment loop, and the properties of the plan it produces.
- `Outcomes` (`outcomes.dfy`): `Result`, `Option`, and the two Python exceptions the core can raise,
  `LookupError` and `ZeroDivisionError`.

Two behaviours of the code that the model keeps as written:

- `monitoring` truncates the used percentage with `int()` (ct-integration-lambda/index.py:34). The
  model divides exact integers and truncates toward zero.
- `IPSet.remove` raises nothing for a used block that does not lie inside the set; it subtracts
  whatever overlaps. The model takes a set difference, and `FirstFreeIgnoresOutside` shows that a
  used block outside the set has no effect on the answer.

## Model

| member | source | states |
|---|---|---|
| AddressSets.AddressSet.constructor | ipam-pool-lambda/index.py:83-85 | the new set holds exactly the addresses of the given blocks |
| AddressSets.AddressSet.Remove | ipam-pool-lambda/index.py:21 | removing a block takes away exactly its addresses and nothing else |
| AddressSets.AddressSet.Size | ct-integration-lambda/index.py:42 | `IPSet.size` counts the addresses of the set, at most the 2^32 of the IPv4 space |
| AddressSets.AddressSet.IterCidrs | ipam-pool-lambda/index.py:46 | the blocks iterated are valid, in ascending address order without overlap, and together cover exactly the set; each is as large as possible, so every block inside the set lies inside one of them |
| AddressSets.CoverMaximal | ipam-pool-lambda/index.py:46 | every block of the set inside a given block lies inside one block of that block's decomposition |
| AddressSets.CandidatesExact | ipam-pool-lambda/index.py:46-50 | a block is in the collected list exactly when it is a valid `/p` block lying wholly inside the set; the list is in ascending address order |
| AddressSets.CandidatesOfBlock | ipam-pool-lambda/index.py:125-128 | the candidates of a single block are that block's `/p` subnets, in order |
| Ipv4.SubnetsSound | ipam-pool-lambda/index.py:48 | every subnet of a valid block is a valid block of the requested length contained in it |
| Ipv4.SubnetsComplete | ipam-pool-lambda/index.py:48 | every block of the requested length contained in a block is one of its subnets |
| Ipv4.SubnetsSorted | ipam-pool-lambda/index.py:48 | subnets come out in strictly ascending, non-overlapping address order |
| Allocator.FirstFree | ipam-pool-lambda/index.py:42-56 | what `returnAvailableSubnet` returns for the addresses it was given: a returned block fits in what remains once the used blocks are removed, and the only error is `LookupError` |
| Allocator.FindAvailableSubnets | ipam-pool-lambda/index.py:19-22 | the set is updated in place to its old addresses minus every used block, and the same object is returned |
| Allocator.SplitEach | ipam-pool-lambda/index.py:46-50 | the loop appends the subnets of every network, in iteration order |
| Allocator.AppendEach | ipam-pool-lambda/index.py:49-50 | the inner loop appends a network's subnets to the list after what it held |
| Allocator.CollectFreeSubnets | ipam-pool-lambda/index.py:45-50 | the collected list is exactly the candidate list of the remaining set |
| Allocator.ReturnAvailableSubnet | ipam-pool-lambda/index.py:42-56 | the set loses every used block, and the answer is the lowest free `/p` block or `LookupError` |
| Allocator.FirstFreeIsLowest | ipam-pool-lambda/index.py:46-56 | an answer fits in the space left after removing the used blocks, and no fitting block starts lower; `LookupError` exactly when no block fits |
| Allocator.FirstFreeAvoidsUsed | ipam-pool-lambda/index.py:43-50 | an answer lies inside the supernet and overlaps none of the used blocks |
| Allocator.CandidateFits | ipam-pool-lambda/index.py:46-50 | a block is a candidate exactly when it is a `/p` block that fits in the set |
| Allocator.RerunOnReducedSet | ipam-pool-lambda/index.py:85-120 | calling again on the set the previous calls already reduced gives the same answer as on the original set |
| Allocator.FirstFreeIgnoresOutside | ipam-pool-lambda/index.py:124-143 | used blocks that lie outside the supernet do not change the answer |
| Allocator.NextFree | ipam-pool-lambda/index.py:100-120 | after the first n candidates have been handed out, the next call returns candidate n, or `LookupError` once all are gone |
| Allocator.CandidatesAfterPrefix | ipam-pool-lambda/index.py:44-50 | removing the first n candidates leaves exactly the remaining candidates |
| Allocator.CarveBlock | ipam-pool-lambda/index.py:124-128 | carving a block repeatedly yields its `/p` subnets in order, then `LookupError` |
| Allocator.PartlyUsedBlockExhausted | ipam-pool-lambda/index.py:53-56 | once any part of a block is used, no block of the same size remains |
| Allocator.ExampleSlash16 | ipam-pool-lambda/index.py:46-54 | 10.0.0.0/16 at /20 gives 10.0.0.0/20 first, then 10.0.16.0/20 once that is used |
| Allocator.ExampleExhausted | ipam-pool-lambda/index.py:53-56 | a /24 with itself or its lower half used has no /24 left |
| Allocator.CandidatesSize | ct-integration-lambda/index.py:44-50 | the free addresses counted are the number of candidates times the block size, never more than the set |
| PoolLambda.AllocateRegionBlock | ipam-pool-lambda/index.py:103 | with the region blocks taken so far used, the call returns the next `/prefix` block of the top-level CIDR or `LookupError` |
| PoolLambda.AllocateEnvBlock | ipam-pool-lambda/index.py:125-128 | in a fresh set of one regional block, with all earlier environment blocks used, the call returns that block's next `/acc` subnet or `LookupError` |
| PoolLambda.CreateEnvironmentPools | ipam-pool-lambda/index.py:124-145 | the environment loop assigns each name, in order, the next subnet of the regional block and records it as used; it stops early exactly when the block runs out |
| PoolLambda.ProvisionRegion | ipam-pool-lambda/index.py:103-145 | one region step adds one regional pool carrying the next region block and keeps the plan carved; it is complete exactly when every environment got a block |
| PoolLambda.CreateRegionPools | ipam-pool-lambda/index.py:100-145 | the region loop builds a carved plan; it succeeds exactly when every region and every environment got a block, and otherwise region or environment blocks ran out |
| PoolLambda.Handler | ipam-pool-lambda/index.py:78-158 | `Create` answers SUCCESS exactly when the whole plan is built, else raises `LookupError` from exhaustion; `Delete` answers SUCCESS; any other type produces no response |
| PoolLambda.RegionStep | ipam-pool-lambda/index.py:103-120 | on the set left by earlier calls, with i region blocks used, the next call returns region block i |
| PoolLambda.EnvIteration | ipam-pool-lambda/index.py:124-143 | blocks of other regions in the shared used list are irrelevant; the environment call returns the next free subnet of its own region |
| PoolLambda.EnvsWithinRegions | ipam-pool-lambda/index.py:124-143 | every environment block handed out lies inside the region blocks handed out |
| PoolLambda.EarlierEnvsOutside | ipam-pool-lambda/index.py:124-143 | environment blocks of earlier regions stay outside the next regional block |
| PoolLambda.PlanDisjoint | ipam-pool-lambda/index.py:99-145 | region blocks are `/prefix` blocks inside the top-level CIDR and pairwise disjoint; environment blocks are `/acc` blocks inside their region and pairwise disjoint across the whole plan |
| PoolLambda.EnvBlocksDisjoint | ipam-pool-lambda/index.py:124-143 | two different environment pools never share an address, in the same region or in different ones |
| PoolLambda.PlanIsLowestFirst | ipam-pool-lambda/index.py:103-128 | each region block and each environment block is the lowest free block at the moment it was asked for |
| CtIntegration.ReturnAvailableSubnet | ct-integration-lambda/index.py:41-55 | an empty supernet raises `ZeroDivisionError` before any lookup; otherwise the answer is the lowest free block or `LookupError`, together with the alert that `monitoring` would publish for the same totals |
| CtIntegration.FreeAddressCount | ct-integration-lambda/index.py:50 | `totalFreeIps` is the number of addresses of the free candidate blocks, and never more than the supernet holds |
| CtIntegration.ExhaustionAlerts | ct-integration-lambda/index.py:50-55 | a call that ends in `LookupError` first raises a 100 percent alert |
| Monitor.PercentageUsed | ct-integration-lambda/index.py:34 | the used percentage is never above 100, and not negative while no more is free than the total |
| Monitor.Monitoring | ct-integration-lambda/index.py:33-39 | `ZeroDivisionError` exactly for an empty supernet; an alert carries the region, the environment and a percentage above 80 and at most 100; no alert means at most 80 percent used |
| Monitor.PercentageIsFloor | ct-integration-lambda/index.py:34 | the used percentage is between 0 and 100 and is the floor of the true used share |
| Monitor.AlertIffLowFree | ct-integration-lambda/index.py:33-39 | for a non-empty supernet the alert fires exactly when at most 19 percent is free, and it carries the percentage, region and environment |
| Monitor.FullUsage | ct-integration-lambda/index.py:34 | nothing free means 100 percent used |
| Monitor.ThresholdExamples | ct-integration-lambda/index.py:34-35 | 80 percent used does not alert, 81 does, and 150 free of 1000 alerts at 85 |
| Monitor.Alert.Message | ct-integration-lambda/index.py:26 | the published text opens with `WARNING: ` and closes with `% of available CIDR addresses` |
| Monitor.NatToStringRoundTrip | ct-integration-lambda/index.py:26 | the percentage is written as a non-empty digit string whose decimal value is the percentage |
| Monitor.MessageParts | ct-integration-lambda/index.py:26 | the warning begins with its fixed head, and the environment name, region and decimal percentage can be read back from their places in it |
| CtIntegration.SelectedArns | ct-integration-lambda/index.py:94-100 | `memberIpamPoolArn` as the filter leaves it; what it holds is stated by SelectedArnsMember, TagArnsCount and SelectedArnsAppend |
| CtIntegration.SelectMemberPoolArns | ct-integration-lambda/index.py:92-100 | the outer loop collects exactly the ARNs of `SelectedArns`, in pool order |
| CtIntegration.AppendPoolArns | ct-integration-lambda/index.py:96-100 | the inner loop appends the pool's ARN once per matching tag |
| CtIntegration.TagArnsMember | ct-integration-lambda/index.py:97-100 | a pool's ARN is appended only when some tag matches `Env` and the value |
| CtIntegration.SelectedArnsMember | ct-integration-lambda/index.py:94-100 | an ARN is selected exactly when some pool with that ARN has a tag `Env` equal to the organizational unit name |
| CtIntegration.TagArnsCount | ct-integration-lambda/index.py:97-100 | a pool's ARN is appended exactly as many times as it has matching tags |
| CtIntegration.SelectedArnsAppend | ct-integration-lambda/index.py:94-100 | the selection over two lists of pools is the selection over the first followed by that over the second |
| CtIntegration.UntaggedPoolSkipped | ct-integration-lambda/index.py:96 | a pool without allocation tags contributes nothing |

## Left out

- AWS calls are not modelled: EC2 `create_ipam_pool`, `describe_ipam_pools` and `provision_ipam_pool_cidr`, STS `assume_role`, and RAM `create_resource_share`. The pools a `Create` request would create are returned as `RegionPool` and `EnvPool` values.
- SNS `publish` is left out. The alert is returned as an `Alert` value with its `Message()`, and the subject is the constant `AlertSubject`.
- CtIntegration.ReturnAvailableSubnet: SNS `publish` errors are not modelled. In the source a failing `publish` (ct-integration-lambda/index.py:24) raises out of `monitoring` before a block is returned; the model always returns its answer after the alert.
- `time.sleep`, logging and `print` have no effect on the allocation.
- `sendResponse` and `requests.put` are left out. A CloudFormation answer is the `Responded` outcome, and a failed PUT is not modelled.
- The response dictionary returned by the ct-integration `lambda_handler` is not modelled.
- `os.environ` and the event are not modelled. The values read from them (prefix lengths, top-level CIDR, regions, environment names, tag value, request type) are parameters.
- A missing `RequestType` is treated like any other unknown type.
- `getUsedCidrs` and the `scanDDB` it calls are not part of this model. `scanDDB` and `table` are not defined anywhere in the file.
- Parsing and printing of CIDR strings is not modelled. `IPNetwork` values with host bits set are not modelled either: blocks are aligned by construction.
- The `Region` parameter of the ipam-pool variant is not modelled: it is unused there. So are the commented-out monitoring call and the unused `totalIps`/`totalFreeIps`.
- Monitor.PercentageIsFloor: the quotient is computed over exact rationals. Binary floating-point rounding of `free/total*100` is not modelled.
- Prefix lengths outside 0..32 are not modelled: `PrefixLen` is `0..32`. The source reads `IPAM_POOL_PREFIX` and `AccPoolPrefixLength` with `int()` (ipam-pool-lambda/index.py:86, 90; ct-integration-lambda/index.py:71). A negative length makes `subnet()` yield nothing, so the call raises `LookupError`. A length above 32 is no IPv4 prefix, and what netaddr does with it is not modelled.
- IPv6 is not modelled: the source only handles IPv4 pools.
- Concurrent invocations of the lambdas are not modelled.
