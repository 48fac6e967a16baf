/** The network-interface loop of the AutoScalingGroup construct: for every
    slot below the maximum capacity, the subnet chosen round-robin, the
    offset of the slot inside that subnet, the reserved private address and
    the hostname tag. The source creates one interface per slot whatever the
    allocator returns; `Plan` is the fail-fast variant that reports the first
    slot whose address is out of range instead. */
module EniLoop {
  import opened Wrappers
  import opened Text
  import opened Ipv4
  import opened AddressAllocator
  import opened Arith
  import opened JsInt

  /** The construct's fixed configuration. */
  const MaxCapacity: nat := 10
  const HostnamePrefix: string := "web"
  const HostnameDomain: string := "corp.non-97.net"

  /** A subnet as the VPC lists it. */
  datatype Subnet = Subnet(id: string, cidr: Cidr, zone: string)

  predicate ValidSubnets(subnets: seq<Subnet>) {
    forall k | 0 <= k < |subnets| :: ValidCidr(subnets[k].cidr)
  }

  /** What the loop passes to one network interface: the slot it was made
      for, where the slot landed, the allocator's answer and the hostname. */
  datatype Eni = Eni(
    slot: nat,
    subnetIndex: nat,
    subnetId: string,
    zone: string,
    offset: nat,
    address: Result<seq<nat>, AllocError>,
    hostname: string)

  /** `${prefix}-${zone}-${offset}.${domain}` */
  function Hostname(prefix: string, zone: string, offset: nat, domain: string): string {
    prefix + "-" + zone + "-" + Show(offset) + "." + domain
  }

  /** The string handed to the interface as its private address: it reads
      back as the allocated address, and is the error sentence otherwise. */
  function PrivateIpAddress(e: Eni): (s: string)
    requires e.address.Success? ==> IsOctets(e.address.value)
    ensures e.address.Success? ==> ParseDottedQuad(s) == Some(e.address.value)
    ensures e.address.Failure? ==> s == OutOfRangeMessage
  {
    IpAddressText(e.address)
  }

  /** One iteration of the loop: slot `i` goes to subnet `i % n` at offset
      `floor(i / n)`; together they are the unique pair with
      `i == offset * n + subnetIndex` and `subnetIndex < n`. */
  function SlotEni(subnets: seq<Subnet>, i: nat, prefix: string, domain: string): (e: Eni)
    requires |subnets| > 0 && ValidSubnets(subnets)
    ensures e.slot == i
    ensures e.subnetIndex == i % |subnets| < |subnets| && e.offset == i / |subnets|
    ensures e.subnetId == subnets[e.subnetIndex].id && e.zone == subnets[e.subnetIndex].zone
    ensures e.address == GenerateIpAddress(subnets[e.subnetIndex].cidr, e.offset)
    ensures e.address.Success? ==> IsOctets(e.address.value)
    ensures e.hostname == Hostname(prefix, e.zone, e.offset, domain)
  {
    var n := |subnets|;
    var j := i % n;
    var offset := i / n;
    Eni(i, j, subnets[j].id, subnets[j].zone, offset,
        GenerateIpAddress(subnets[j].cidr, offset),
        Hostname(prefix, subnets[j].zone, offset, domain))
  }

  /** The interfaces the loop creates for slots 0 .. capacity-1, in creation
      order. With no subnets the source fails on the first iteration, so an
      empty subnet list is only allowed when the loop does not run. */
  function Enis(subnets: seq<Subnet>, capacity: nat, prefix: string, domain: string): (r: seq<Eni>)
    requires capacity == 0 || |subnets| > 0
    requires ValidSubnets(subnets)
    ensures |r| == capacity
    ensures forall i | 0 <= i < capacity :: r[i] == SlotEni(subnets, i, prefix, domain)
  {
    seq(capacity, i requires 0 <= i < capacity => SlotEni(subnets, i, prefix, domain))
  }

  /** The loop as the construct runs it: one interface per slot, appended in
      slot order. */
  method CreateInterfaces(subnets: seq<Subnet>, capacity: nat, prefix: string, domain: string)
    returns (enis: seq<Eni>)
    requires capacity == 0 || |subnets| > 0
    requires ValidSubnets(subnets)
    ensures enis == Enis(subnets, capacity, prefix, domain)
  {
    enis := [];
    var i := 0;
    while i < capacity
      invariant 0 <= i <= capacity
      invariant enis == Enis(subnets, i, prefix, domain)
    {
      enis := enis + [SlotEni(subnets, i, prefix, domain)];
      i := i + 1;
    }
  }

  /** Slot `i` lands on subnet `subnetIndex` at `offset`, the unique pair
      with `i == offset * n + subnetIndex` and `subnetIndex < n`, and its
      interface carries that subnet's id and zone, the allocator's answer for
      that offset and the hostname built from zone and offset. */
  lemma SlotPlacement(subnets: seq<Subnet>, capacity: nat, prefix: string, domain: string, i: nat)
    requires |subnets| > 0 && ValidSubnets(subnets) && i < capacity
    ensures var e := Enis(subnets, capacity, prefix, domain)[i];
            && e.slot == i
            && e.subnetIndex < |subnets|
            && e.offset * |subnets| + e.subnetIndex == i
            && e.subnetId == subnets[e.subnetIndex].id
            && e.zone == subnets[e.subnetIndex].zone
            && e.address == GenerateIpAddress(subnets[e.subnetIndex].cidr, e.offset)
            && e.hostname == Hostname(prefix, e.zone, e.offset, domain)
  {
  }

  /** The interfaces of the construct as configured: ten slots, hostnames
      under `web-` and `corp.non-97.net`. */
  function ConstructEnis(subnets: seq<Subnet>): (r: seq<Eni>)
    requires |subnets| > 0 && ValidSubnets(subnets)
    ensures |r| == MaxCapacity
    ensures forall i | 0 <= i < |r| :: r[i].slot == i && r[i].subnetIndex == i % |subnets|
  {
    Enis(subnets, MaxCapacity, HostnamePrefix, HostnameDomain)
  }

  /** Different slots land on different (subnet, offset) pairs. */
  lemma DistinctSlotsDistinctPlacements(subnets: seq<Subnet>, capacity: nat, prefix: string, domain: string,
                                        i: nat, k: nat)
    requires |subnets| > 0 && ValidSubnets(subnets)
    requires i < capacity && k < capacity && i != k
    ensures var r := Enis(subnets, capacity, prefix, domain);
            r[i].subnetIndex != r[k].subnetIndex || r[i].offset != r[k].offset
  {
    DivModDistinct(i, k, |subnets|);
  }

  /** The offset of slot `i` is one its subnet accepts. */
  predicate OffsetFits(subnets: seq<Subnet>, i: nat)
    requires |subnets| > 0 && ValidSubnets(subnets)
  {
    i / |subnets| < AvailableCount(subnets[i % |subnets|].cidr)
  }

  /** Two slots of the same subnet whose offsets are in range receive
      addresses, and different ones, so different private-address strings. */
  lemma SameSubnetDistinctAddresses(subnets: seq<Subnet>, capacity: nat, prefix: string, domain: string,
                                    i: nat, k: nat)
    requires |subnets| > 0 && ValidSubnets(subnets)
    requires i < capacity && k < capacity && i != k
    requires i % |subnets| == k % |subnets| && OffsetFits(subnets, i) && OffsetFits(subnets, k)
    ensures var r := Enis(subnets, capacity, prefix, domain);
            && r[i].address.Success? && r[k].address.Success?
            && r[i].address.value != r[k].address.value
            && PrivateIpAddress(r[i]) != PrivateIpAddress(r[k])
  {
    var r := Enis(subnets, capacity, prefix, domain);
    var c := subnets[r[i].subnetIndex].cidr;
    DivModDistinct(i, k, |subnets|);
    DistinctIndexesDistinctAddresses(c, r[i].offset, r[k].offset);
    DottedQuadInjective(r[i].address.value, r[k].address.value);
  }

  predicate DistinctIds(subnets: seq<Subnet>) {
    forall a, b | 0 <= a < b < |subnets| :: subnets[a].id != subnets[b].id
  }

  /** When the subnet ids are distinct, no two addressed interfaces share
      both their subnet and their private address. */
  lemma AddressedPairsUnique(subnets: seq<Subnet>, capacity: nat, prefix: string, domain: string,
                             i: nat, k: nat)
    requires |subnets| > 0 && ValidSubnets(subnets) && DistinctIds(subnets)
    requires i < capacity && k < capacity && i != k
    requires OffsetFits(subnets, i) && OffsetFits(subnets, k)
    ensures var r := Enis(subnets, capacity, prefix, domain);
            && r[i].address.Success? && r[k].address.Success?
            && (r[i].subnetId, PrivateIpAddress(r[i])) != (r[k].subnetId, PrivateIpAddress(r[k]))
  {
    var r := Enis(subnets, capacity, prefix, domain);
    if r[i].subnetIndex == r[k].subnetIndex {
      SameSubnetDistinctAddresses(subnets, capacity, prefix, domain, i, k);
    } else if r[i].subnetIndex < r[k].subnetIndex {
      assert subnets[r[i].subnetIndex].id != subnets[r[k].subnetIndex].id;
    } else {
      assert subnets[r[k].subnetIndex].id != subnets[r[i].subnetIndex].id;
    }
  }

  /** A zone label followed by a dash and a run of digits splits back
      uniquely: the last dash separates them, since digits contain none. */
  lemma DashDigitsSplit(z1: string, d1: string, z2: string, d2: string)
    requires AllDigits(d1) && AllDigits(d2)
    requires z1 + "-" + d1 == z2 + "-" + d2
    ensures z1 == z2 && d1 == d2
  {
    var m1, m2 := z1 + "-" + d1, z2 + "-" + d2;
    assert m1[|z1|] == '-' && m2[|z2|] == '-';
    assert !IsDigit('-');
    assert |z1| == |z2|;
    assert z1 == m1[..|z1|] && z2 == m2[..|z2|];
    assert d1 == m1[|z1| + 1..] && d2 == m2[|z2| + 1..];
  }

  /** Under a fixed prefix and domain, two hostnames are equal exactly when
      their zones and offsets are. */
  lemma HostnameInjective(prefix: string, z1: string, k1: nat, z2: string, k2: nat, domain: string)
    ensures Hostname(prefix, z1, k1, domain) == Hostname(prefix, z2, k2, domain)
            <==> z1 == z2 && k1 == k2
  {
    var h1, h2 := Hostname(prefix, z1, k1, domain), Hostname(prefix, z2, k2, domain);
    if h1 == h2 {
      var m1, m2 := z1 + "-" + Show(k1), z2 + "-" + Show(k2);
      assert h1 == prefix + "-" + m1 + "." + domain;
      assert h2 == prefix + "-" + m2 + "." + domain;
      assert |m1| == |m2|;
      assert m1 == h1[|prefix| + 1..|prefix| + 1 + |m1|];
      assert m2 == h2[|prefix| + 1..|prefix| + 1 + |m2|];
      DashDigitsSplit(z1, Show(k1), z2, Show(k2));
      ShowInjective(k1, k2);
    }
  }

  /** Two interfaces carry the same hostname exactly when they are in the
      same zone at the same offset; so when every subnet has its own zone,
      every slot has its own hostname. */
  lemma HostnamesMatchPlacement(subnets: seq<Subnet>, capacity: nat, prefix: string, domain: string,
                                i: nat, k: nat)
    requires |subnets| > 0 && ValidSubnets(subnets)
    requires i < capacity && k < capacity
    ensures var r := Enis(subnets, capacity, prefix, domain);
            r[i].hostname == r[k].hostname <==> r[i].zone == r[k].zone && r[i].offset == r[k].offset
  {
    var r := Enis(subnets, capacity, prefix, domain);
    HostnameInjective(prefix, r[i].zone, r[i].offset, r[k].zone, r[k].offset, domain);
  }

  predicate DistinctZones(subnets: seq<Subnet>) {
    forall a, b | 0 <= a < b < |subnets| :: subnets[a].zone != subnets[b].zone
  }

  lemma HostnamesUnique(subnets: seq<Subnet>, capacity: nat, prefix: string, domain: string,
                        i: nat, k: nat)
    requires |subnets| > 0 && ValidSubnets(subnets) && DistinctZones(subnets)
    requires i < capacity && k < capacity && i != k
    ensures var r := Enis(subnets, capacity, prefix, domain);
            r[i].hostname != r[k].hostname
  {
    HostnamesMatchPlacement(subnets, capacity, prefix, domain, i, k);
    DistinctSlotsDistinctPlacements(subnets, capacity, prefix, domain, i, k);
  }

  /** The placement is the only one that fits: whenever `i == q * n + j`
      with `j < n`, slot `i` lands on subnet `j` at offset `q`. */
  lemma PlacementIsDivMod(subnets: seq<Subnet>, i: nat, prefix: string, domain: string, q: nat, j: nat)
    requires |subnets| > 0 && ValidSubnets(subnets)
    requires j < |subnets| && i == q * |subnets| + j
    ensures SlotEni(subnets, i, prefix, domain).subnetIndex == j
    ensures SlotEni(subnets, i, prefix, domain).offset == q
  {
    DivModUnique(i, |subnets|, q, j);
  }

  /** How many of the interfaces `r` are on subnet `j`. */
  function SlotsOn(r: seq<Eni>, j: nat): nat {
    if |r| == 0 then 0
    else SlotsOn(r[..|r| - 1], j) + (if r[|r| - 1].subnetIndex == j then 1 else 0)
  }

  /** The round-robin share of subnet `j` when `capacity` slots go to `n`
      subnets: the first `capacity % n` subnets get one slot more. */
  function FairShare(capacity: nat, n: nat, j: nat): nat
    requires n > 0
  {
    capacity / n + (if j < capacity % n then 1 else 0)
  }

  lemma FairShareStep(m: nat, n: nat, j: nat)
    requires n > 0 && j < n
    ensures FairShare(m + 1, n, j) == FairShare(m, n, j) + (if m % n == j then 1 else 0)
  {
    if m % n + 1 < n {
      DivModUnique(m + 1, n, m / n, m % n + 1);
    } else {
      DivModUnique(m + 1, n, m / n + 1, 0);
    }
  }

  /** Round-robin balance: every subnet receives its fair share of the
      slots, which is `capacity / n` or one more. */
  lemma {:induction false} RoundRobinBalance(subnets: seq<Subnet>, capacity: nat, prefix: string,
                                             domain: string, j: nat)
    requires |subnets| > 0 && ValidSubnets(subnets) && j < |subnets|
    ensures SlotsOn(Enis(subnets, capacity, prefix, domain), j) == FairShare(capacity, |subnets|, j)
    ensures capacity / |subnets| <= SlotsOn(Enis(subnets, capacity, prefix, domain), j)
                                 <= capacity / |subnets| + 1
    decreases capacity
  {
    if capacity > 0 {
      var r, r' := Enis(subnets, capacity, prefix, domain), Enis(subnets, capacity - 1, prefix, domain);
      assert r[..capacity - 1] == r';
      assert SlotsOn(r, j) == SlotsOn(r', j) + (if (capacity - 1) % |subnets| == j then 1 else 0);
      RoundRobinBalance(subnets, capacity - 1, prefix, domain, j);
      FairShareStep(capacity - 1, |subnets|, j);
    }
  }

  /** Every slot's offset is below the share of its subnet. */
  lemma OffsetBelowShare(m: nat, n: nat, i: nat)
    requires n > 0 && i < m
    ensures i / n < FairShare(m, n, i % n)
  {
    var q, Q := i / n, m / n;
    assert i == q * n + i % n;
    assert m == Q * n + m % n;
    assert (Q + 1) * n == Q * n + n;
    MulCancelLess(q, Q + 1, n);
  }

  /** A subnet with a positive share has its last slot at offset share - 1. */
  lemma LastSlotOfShare(m: nat, n: nat, j: nat)
    requires n > 0 && j < n && FairShare(m, n, j) > 0
    ensures (FairShare(m, n, j) - 1) * n + j < m
    ensures ((FairShare(m, n, j) - 1) * n + j) % n == j
    ensures ((FairShare(m, n, j) - 1) * n + j) / n == FairShare(m, n, j) - 1
  {
    var s := FairShare(m, n, j);
    DivModUnique((s - 1) * n + j, n, s - 1, j);
    assert (s - 1) * n + n == s * n;
  }

  /** Addresses a subnet can hand out: its available count, or none for a
      block too small to cover the reserved addresses. */
  function UsableAddresses(c: Cidr): (k: nat)
    requires c.prefix <= 32
    ensures k > 0 ==> k == AvailableCount(c)
  {
    if AvailableCount(c) < 0 then 0 else AvailableCount(c)
  }

  /** Why a fail-fast plan stops: the first slot the allocator refused. */
  datatype PlanError = SlotOutOfRange(slot: nat, subnetId: string, offset: nat)

  /** Position of the first interface, at or after `from`, without an address. */
  function FirstUnaddressed(r: seq<Eni>, from: nat): (k: Option<nat>)
    requires from <= |r|
    ensures k.Some? ==>
              && from <= k.value < |r|
              && r[k.value].address.Failure?
              && forall i | from <= i < k.value :: r[i].address.Success?
    ensures k.None? ==> forall i | from <= i < |r| :: r[i].address.Success?
    decreases |r| - from
  {
    if from == |r| then None
    else if r[from].address.Failure? then Some(from)
    else FirstUnaddressed(r, from + 1)
  }

  /** The interfaces of every slot when all of them received an address,
      and otherwise the first slot that did not. */
  function Plan(subnets: seq<Subnet>, capacity: nat, prefix: string, domain: string): (p: Result<seq<Eni>, PlanError>)
    requires capacity == 0 || |subnets| > 0
    requires ValidSubnets(subnets)
    ensures p.Success? <==>
              forall i | 0 <= i < capacity :: Enis(subnets, capacity, prefix, domain)[i].address.Success?
    ensures p.Success? ==> p.value == Enis(subnets, capacity, prefix, domain)
    ensures p.Failure? ==>
              && p.error.slot < capacity
              && Enis(subnets, capacity, prefix, domain)[p.error.slot].address.Failure?
              && Enis(subnets, capacity, prefix, domain)[p.error.slot].subnetId == p.error.subnetId
              && Enis(subnets, capacity, prefix, domain)[p.error.slot].offset == p.error.offset
              && forall i | 0 <= i < p.error.slot :: Enis(subnets, capacity, prefix, domain)[i].address.Success?
  {
    var r := Enis(subnets, capacity, prefix, domain);
    match FirstUnaddressed(r, 0)
    case None => Success(r)
    case Some(k) => Failure(SlotOutOfRange(k, r[k].subnetId, r[k].offset))
  }

  /** A slot receives an address when the share of its subnet fits. */
  lemma SlotAddressedWhenShareFits(subnets: seq<Subnet>, capacity: nat, prefix: string, domain: string, i: nat)
    requires |subnets| > 0 && ValidSubnets(subnets) && i < capacity
    requires var j := i % |subnets|; FairShare(capacity, |subnets|, j) <= UsableAddresses(subnets[j].cidr)
    ensures Enis(subnets, capacity, prefix, domain)[i].address.Success?
  {
    OffsetBelowShare(capacity, |subnets|, i);
  }

  /** When every slot received an address, the share of each subnet fits:
      its last slot sits at offset share - 1 and was accepted. */
  lemma ShareFitsWhenAllAddressed(subnets: seq<Subnet>, capacity: nat, prefix: string, domain: string, j: nat)
    requires |subnets| > 0 && ValidSubnets(subnets) && j < |subnets|
    requires forall i | 0 <= i < capacity :: Enis(subnets, capacity, prefix, domain)[i].address.Success?
    ensures FairShare(capacity, |subnets|, j) <= UsableAddresses(subnets[j].cidr)
  {
    var n := |subnets|;
    if FairShare(capacity, n, j) > 0 {
      LastSlotOfShare(capacity, n, j);
      var i := (FairShare(capacity, n, j) - 1) * n + j;
      assert Enis(subnets, capacity, prefix, domain)[i].address.Success?;
    }
  }

  /** The plan succeeds exactly when every subnet can hand out as many
      addresses as it has slots. */
  lemma PlanSucceedsIffSubnetsFit(subnets: seq<Subnet>, capacity: nat, prefix: string, domain: string)
    requires |subnets| > 0 && ValidSubnets(subnets)
    ensures Plan(subnets, capacity, prefix, domain).Success? <==>
              forall j | 0 <= j < |subnets| ::
                SlotsOn(Enis(subnets, capacity, prefix, domain), j) <= UsableAddresses(subnets[j].cidr)
  {
    var r := Enis(subnets, capacity, prefix, domain);
    var n := |subnets|;
    forall j | 0 <= j < n
      ensures SlotsOn(r, j) == FairShare(capacity, n, j)
    {
      RoundRobinBalance(subnets, capacity, prefix, domain, j);
    }
    if forall j | 0 <= j < n :: FairShare(capacity, n, j) <= UsableAddresses(subnets[j].cidr) {
      forall i | 0 <= i < capacity
        ensures r[i].address.Success?
      {
        SlotAddressedWhenShareFits(subnets, capacity, prefix, domain, i);
      }
    }
    if Plan(subnets, capacity, prefix, domain).Success? {
      forall j | 0 <= j < n
        ensures FairShare(capacity, n, j) <= UsableAddresses(subnets[j].cidr)
      {
        ShareFitsWhenAllAddressed(subnets, capacity, prefix, domain, j);
      }
    }
  }

  /** After a successful plan no two interfaces share both their subnet id
      and their private address, provided the subnet ids are distinct. */
  lemma PlanUnique(subnets: seq<Subnet>, capacity: nat, prefix: string, domain: string, i: nat, k: nat)
    requires |subnets| > 0 && ValidSubnets(subnets) && DistinctIds(subnets)
    requires Plan(subnets, capacity, prefix, domain).Success?
    requires i < capacity && k < capacity && i != k
    ensures var r := Plan(subnets, capacity, prefix, domain).value;
            (r[i].subnetId, PrivateIpAddress(r[i])) != (r[k].subnetId, PrivateIpAddress(r[k]))
  {
    var r := Enis(subnets, capacity, prefix, domain);
    assert r[i].address.Success? && r[k].address.Success?;
    AddressedPairsUnique(subnets, capacity, prefix, domain, i, k);
  }

  /** Ten slots over three subnets: the first subnet serves slots 0, 3, 6
      and 9 at offsets 0 to 3, and slot 9 is named after offset 3. */
  lemma ThreeSubnetsExample(subnets: seq<Subnet>)
    requires |subnets| == 3 && ValidSubnets(subnets)
    ensures var r := ConstructEnis(subnets);
            && r[0].subnetIndex == 0 && r[0].offset == 0
            && r[3].subnetIndex == 0 && r[3].offset == 1
            && r[6].subnetIndex == 0 && r[6].offset == 2
            && r[9].subnetIndex == 0 && r[9].offset == 3
            && r[9].hostname == "web-" + subnets[0].zone + "-3.corp.non-97.net"
            && SlotsOn(r, 0) == 4 && SlotsOn(r, 1) == 3 && SlotsOn(r, 2) == 3
  {
    var r := ConstructEnis(subnets);
    RoundRobinBalance(subnets, MaxCapacity, HostnamePrefix, HostnameDomain, 0);
    RoundRobinBalance(subnets, MaxCapacity, HostnamePrefix, HostnameDomain, 1);
    RoundRobinBalance(subnets, MaxCapacity, HostnamePrefix, HostnameDomain, 2);
    assert Show(3) == "3";
  }

  /** Two /29 subnets: each can hand out three addresses, but the ten slots
      give each of them five. */
  function SmallSubnets(): (s: seq<Subnet>)
    ensures |s| == 2 && ValidSubnets(s)
  {
    [ Subnet("subnet-a", Cidr([10, 0, 0, 0], 29), "zone-a"),
      Subnet("subnet-b", Cidr([10, 0, 0, 8], 29), "zone-b") ]
  }

  /** With those subnets the source gives slot 6 (offset 3 in the first
      subnet) the error sentence as its private address and still creates
      its interface, while the fail-fast plan stops at that slot. */
  lemma SentinelReachesInterface()
    ensures PrivateIpAddress(ConstructEnis(SmallSubnets())[6]) == OutOfRangeMessage
    ensures Plan(SmallSubnets(), MaxCapacity, HostnamePrefix, HostnameDomain)
            == Failure(SlotOutOfRange(6, "subnet-a", 3))
  {
    var subnets := SmallSubnets();
    var r := ConstructEnis(subnets);
    assert Pow2(3) == 8;
    assert AvailableCount(subnets[0].cidr) == 3 && AvailableCount(subnets[1].cidr) == 3;
    assert forall i | 0 <= i < 6 :: r[i].offset <= 2;
    assert r[6].offset == 3 && r[6].subnetIndex == 0;
  }
}
