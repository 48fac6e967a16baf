# Deterministic private addresses for an auto-scaling fleet

The `AutoScalingGroup` construct reserves one network interface per fleet slot
before any instance exists. Each interface gets a private IPv4 address and a
`HostName` tag, and both are derived from the slot's position. This project
models the two pieces of that construct that hold logic, and proves what they
guarantee.

- **`generateIpAddress`**: a CIDR block plus a zero-based index gives either
  a dotted-quad address or an error sentence. The octets are packed
  most-significant-first with JavaScript's signed `<<`. The block keeps
  `2^(32 - prefix) - 5` usable indexes. An accepted index is placed
  `4 + index` past the network address. The result is unpacked with `>>>` and
  `% 256`.
- **The interface loop**: slot `i` of `maxCapacity` (10) goes to subnet
  `i % n` at offset `floor(i / n)`. It receives
  `generateIpAddress(cidr, offset)` as its private address and
  `web-<zone>-<offset>.corp.non-97.net` as its hostname.

Layout, one module per file:

| file | module | contents |
|---|---|---|
| `wrappers.dfy` | `Wrappers` | `Option`, `Result` |
| `text.dfy` | `Text` | decimal rendering of integers, `split`/`join` on one character, and their round trips |
| `jsint.dfy` | `JsInt` | exact powers of two, `ToInt32`/`ToUint32`, `<<` and `>>>` |
| `arith.dfy` | `Arith` | Euclidean-division facts the solver needs spelled out |
| `ipv4.dfy` | `Ipv4` | octets, unsigned packing, the JavaScript `reduce`/`>>>` expressions, dotted-quad text |
| `allocator.dfy` | `AddressAllocator` | `GenerateIpAddress` and its properties |
| `eni.dfy` | `EniLoop` | the per-slot records, the loop, balance, uniqueness, fail-fast `Plan` |

The CIDR block enters the model already parsed: four octets in 0..255 and a
prefix in 0..32. The allocator's result is
`Result<seq<nat>, AllocError>`. `IpAddressText` turns it back into the exact
string the source returns, and that string includes the error sentence. Each
interface record keeps the allocator's `Result`. The loop in the source does
not stop on an error, so a record may carry the failure.

What the model states about the loop as a whole:
- The code does not abort on an out-of-range slot. It passes the error
  sentence on as the interface's `privateIpAddress` (see Findings). `Plan` is
  the fail-fast alternative.
- (subnet id, address) pairs are unique when the subnet ids are distinct and
  both slots' offsets are in range (`AddressedPairsUnique`, and `PlanUnique`
  after a successful plan). Without the range condition the claim fails: two
  out-of-range slots on one subnet both carry (subnet id, error sentence).
- Two hostnames are equal exactly when zone and offset are equal
  (`HostnamesMatchPlacement`). So hostnames are unique when every subnet has
  its own zone (`HostnamesUnique`).

## Model

| member | source | states |
|---|---|---|
| AddressAllocator.AvailableCount | lib/constructs/autoscaling-group.ts:88 | The number of accepted indexes, `2^(32-prefix) - 5`. It is positive exactly when the prefix is at most 29, and negative for /30, /31 and /32. |
| AddressAllocator.GenerateIpAddress | lib/constructs/autoscaling-group.ts:84-107 | An index fails exactly when it is negative or at least `2^(32-prefix) - 5`, and every index fails for /30, /31 and /32. An accepted index yields four octets in 0..255 that are the unsigned unpacking of `(network + 4 + index) mod 2^32`. This is proved although the body uses the signed JavaScript shifts. |
| AddressAllocator.AddressBitsValue | lib/constructs/autoscaling-group.ts:89-100 | `startIpAddressBit + index` from the signed `reduce`, read as an unsigned 32-bit number, equals `network + 4 + index` mod 2^32. |
| Ipv4.ShiftedPack | lib/constructs/autoscaling-group.ts:89-94 | The `reduce` over `current << ((3 - index) * 8)` equals the unsigned packed address. It is 2^32 lower exactly when the first octet is 128 or more. |
| Ipv4.ShiftedOctets | lib/constructs/autoscaling-group.ts:102-104 | `[3,2,1,0].map(shift => (x >>> (shift*8)) % 256)` gives the four octets of `x mod 2^32` for any integer `x`, negative or above 2^32. |
| Ipv4.Unpack | lib/constructs/autoscaling-group.ts:102-104 | Unpacking a 32-bit value gives four octets in 0..255 that pack back to the same value. |
| Ipv4.UnpackPack | lib/constructs/autoscaling-group.ts:89-104 | Packing four octets and unpacking the result returns the same octets. |
| Ipv4.PackInjective | lib/constructs/autoscaling-group.ts:89-94 | Two octet sequences pack to the same value exactly when they are equal. |
| Ipv4.ParseDottedQuadRoundTrip | lib/constructs/autoscaling-group.ts:102-104 | Reading back the `join(".")` text of an address gives its octets. |
| Ipv4.DottedQuadInjective | lib/constructs/autoscaling-group.ts:102-104 | Two addresses have the same dotted-quad text exactly when they are equal. |
| Text.ParseShow | lib/constructs/autoscaling-group.ts:129-131 | Reading back the decimal text that a template literal gives for a non-negative integer returns that integer. |
| Text.ShowInjective | lib/constructs/autoscaling-group.ts:129-131 | Different offsets have different decimal texts. |
| Text.SplitJoin | lib/constructs/autoscaling-group.ts:102-104 | Splitting a `join` of separator-free parts returns the parts. |
| AddressAllocator.IpAddressText | lib/constructs/autoscaling-group.ts:96-106 | The returned string decodes to the allocated octets when an address was allocated. The error sentence never decodes as an address. |
| AddressAllocator.ConsecutiveAddresses | lib/constructs/autoscaling-group.ts:100 | For accepted indexes `k` and `k+1`, the packed address for `k+1` is that for `k` plus one, mod 2^32. |
| AddressAllocator.DistinctIndexesDistinctAddresses | lib/constructs/autoscaling-group.ts:96-104 | Two different in-range indexes in the same block both get addresses, and the addresses differ. |
| AddressAllocator.AddressWithinBlock | lib/constructs/autoscaling-group.ts:88-104 | When the network address has zero host bits, an accepted index gives exactly `network + 4 + index` with no wrap-around. That address is inside the block, after the network address and the three reserved after it, and before the broadcast address. |
| AddressAllocator.SlashTwentyEightExample | lib/constructs/autoscaling-group.ts:84-107 | In `10.0.0.0/28`, 11 indexes are usable. Index 0 gives `10.0.0.4` and index 10 gives `10.0.0.14`. Indexes 11 and -1 fail. |
| AddressAllocator.SlashTwentyEightText | lib/constructs/autoscaling-group.ts:102-104 | The returned string for `10.0.0.14` is `"10.0.0.14"`. |
| EniLoop.Hostname | lib/constructs/autoscaling-group.ts:129-131 | Models the `HostName` tag template `${prefix}-${zone}-${offset}.${domain}`. Its meaning is proved in `HostnameInjective`. |
| EniLoop.PrivateIpAddress | lib/constructs/autoscaling-group.ts:122-125 | The `privateIpAddress` string of an interface reads back as the record's allocated address. When the allocator refused, it is the error sentence. |
| EniLoop.SlotEni | lib/constructs/autoscaling-group.ts:115-131 | Models one loop iteration: the subnet at `i % n`, the offset `floor(i / n)`, the allocator's answer for that offset and the hostname. Its properties are proved in `SlotPlacement` and `PlacementIsDivMod`. |
| EniLoop.Enis | lib/constructs/autoscaling-group.ts:114-135 | Models the whole loop as a pure function: one record per slot, in slot order. Its properties are proved in `CreateInterfaces`, `RoundRobinBalance`, `AddressedPairsUnique` and `HostnamesMatchPlacement`. |
| EniLoop.CreateInterfaces | lib/constructs/autoscaling-group.ts:114-135 | The loop, appending one interface per slot, builds exactly `Enis`: `capacity` records in slot order. |
| EniLoop.ConstructEnis | lib/constructs/autoscaling-group.ts:17-19 | With the construct's constants there are ten interfaces in slot order, and slot `i` is on subnet `i % n`. |
| EniLoop.SlotPlacement | lib/constructs/autoscaling-group.ts:114-131 | Slot `i` has `i == offset * n + subnetIndex` with `subnetIndex < n`. It carries that subnet's id and zone, and the allocator's answer for that offset whether accepted or not. Its hostname is built from the zone and the offset. |
| EniLoop.PlacementIsDivMod | lib/constructs/autoscaling-group.ts:115-124 | Whenever `i == q * n + j` with `j < n`, slot `i` is on subnet `j` at offset `q`. Together with `SlotPlacement` this makes the placement the unique such pair. |
| EniLoop.DistinctSlotsDistinctPlacements | lib/constructs/autoscaling-group.ts:115-124 | Different slots get different (subnet, offset) pairs. |
| EniLoop.SameSubnetDistinctAddresses | lib/constructs/autoscaling-group.ts:115-125 | Two slots on the same subnet whose offsets are in range both get an address. The addresses differ, and so do the `privateIpAddress` strings. |
| EniLoop.AddressedPairsUnique | lib/constructs/autoscaling-group.ts:115-125 | When subnet ids are distinct, two slots whose offsets are in range get addresses, and they never share both subnet id and private address. |
| EniLoop.HostnameInjective | lib/constructs/autoscaling-group.ts:129-131 | For a fixed prefix and domain, two hostnames are equal exactly when zone and offset are equal. |
| EniLoop.HostnamesMatchPlacement | lib/constructs/autoscaling-group.ts:117-131 | Two interfaces have the same hostname exactly when they are in the same zone at the same offset. |
| EniLoop.HostnamesUnique | lib/constructs/autoscaling-group.ts:117-131 | When every subnet has its own zone, different slots have different hostnames. |
| EniLoop.RoundRobinBalance | lib/constructs/autoscaling-group.ts:114-115 | Subnet `j` receives `capacity / n` slots, plus one when `j < capacity % n`. So every subnet gets `capacity / n` or `capacity / n + 1`. |
| EniLoop.OffsetBelowShare | lib/constructs/autoscaling-group.ts:115-124 | Every slot's offset is below the slot count of its subnet. |
| EniLoop.LastSlotOfShare | lib/constructs/autoscaling-group.ts:115-124 | A subnet with `s > 0` slots has its last slot at offset `s - 1`, and that slot is below the capacity. |
| EniLoop.FirstUnaddressed | lib/constructs/autoscaling-group.ts:122-125 | Finds the first interface at or after a position that got no address, or reports that all of them got one. |
| EniLoop.Plan | lib/constructs/autoscaling-group.ts:114-125 | Fail-fast variant. It returns all interfaces exactly when every slot got an address. Otherwise it names the first slot that got none, with that slot's subnet id and offset. |
| EniLoop.PlanSucceedsIffSubnetsFit | lib/constructs/autoscaling-group.ts:88-125 | The plan succeeds exactly when every subnet's slot count is at most the number of addresses it can hand out. |
| EniLoop.PlanUnique | lib/constructs/autoscaling-group.ts:114-125 | After a successful plan with distinct subnet ids, no two interfaces share both subnet id and private address. |
| EniLoop.ThreeSubnetsExample | lib/constructs/autoscaling-group.ts:114-131 | Ten slots on three subnets: slots 0, 3, 6 and 9 go to the first subnet at offsets 0 to 3. Slot 9 is named `web-<zone>-3.corp.non-97.net`. The subnets get 4, 3 and 3 slots. |
| EniLoop.SentinelReachesInterface | lib/constructs/autoscaling-group.ts:122-125 | With two /29 subnets, slot 6 gets the error sentence as its `privateIpAddress`. The fail-fast plan stops at slot 6, subnet `subnet-a`, offset 3. |

## Left out

- The IAM role and its policy statements (lines 22-49). They are declarative configuration.
- Reading `user-data.sh` with `fs.readFileSync` (lines 52-57). This is file I/O.
- The Auto Scaling Group, its health check and the CPU scaling policy (lines 60-81). These are library objects whose code is not part of this model.
- `vpc.selectSubnets`, the security-group lookup and the creation of `CfnNetworkInterface` (lines 110-112, 119-121). The subnet list is an input sequence of (id, CIDR, zone). Each created interface is represented by its `Eni` record.
- Parsing the CIDR text with `split` and `Number` (lines 85-87). The octets and prefix are inputs, and `ValidCidr` requires exactly four octets in 0..255 and a prefix in 0..32. Malformed text, `NaN`, and prefixes outside 0..32 for which `Math.pow` would give a non-integer are not modelled.
- Non-integer indexes to `generateIpAddress`. The loop only passes `Math.floor` results, so the index is an `int`.
- JavaScript numbers are doubles. Every intermediate value is an integer below 2^34 in absolute value, and a double holds those exactly, so unbounded integers are used.
- An empty subnet list with a positive capacity makes the source throw a `TypeError` on its first iteration. `Enis`, `CreateInterfaces` and `Plan` require `capacity == 0 || |subnets| > 0`, which is exactly the set of inputs on which the loop does not throw.
- Determinism is not stated as a lemma. Every member is a pure function, so equal inputs give equal results by construction.

## Findings

| source | as written | input that shows it | evidently intended | confidence | as-written member | corrected member |
|---|---|---|---|---|---|---|
| lib/constructs/autoscaling-group.ts:122-125 | The result of `generateIpAddress` goes straight into `privateIpAddress`. When the offset is out of range, the interface is still created, with the text "Error: The provided index is out of range." as its address. | Two /29 subnets (`10.0.0.0/29`, `10.0.0.8/29`, three usable addresses each) with the construct's capacity of 10. Slot 6 is offset 3 in the first subnet. | Stop before creating any interface, and report the first slot whose subnet is too small. | medium; not executed | EniLoop.SentinelReachesInterface | EniLoop.Plan (with EniLoop.PlanSucceedsIffSubnetsFit) |
