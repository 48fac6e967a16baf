/** The `generateIpAddress` closure of the AutoScalingGroup construct: from
    a CIDR block and a zero-based index, the private address reserved for that
    index, skipping the network address and the three addresses the provider
    keeps at the start of the block, and never handing out the last one. */
module AddressAllocator {
  import opened Wrappers
  import opened JsInt
  import opened Ipv4
  import opened Arith
  import opened Text

  /** A CIDR block after parsing: the network address and the prefix length. */
  datatype Cidr = Cidr(network: seq<nat>, prefix: nat)

  predicate ValidCidr(c: Cidr) {
    IsOctets(c.network) && c.prefix <= 32
  }

  /** Addresses of a block that are never handed out. */
  const ReservedAddresses: nat := 5

  /** Distance from the network address to the first address handed out. */
  const FirstHostOffset: nat := 4

  datatype AllocError = IndexOutOfRange

  /** The text the source returns in place of an address. */
  const OutOfRangeMessage: string := "Error: The provided index is out of range."

  /** Number of addresses in the block, 2^(32 - prefix). */
  function BlockSize(c: Cidr): (n: nat)
    requires c.prefix <= 32
    ensures 1 <= n <= TwoTo32
  {
    Pow2Monotone(32 - c.prefix, 32);
    Pow2Bytes();
    Pow2(32 - c.prefix)
  }

  /** How many indexes the allocator accepts: the block less the reserved
      addresses. A block hands out at least one address exactly when its
      prefix is at most 29; for /30, /31 and /32 the count is negative. */
  function AvailableCount(c: Cidr): (a: int)
    requires c.prefix <= 32
    ensures a > 0 <==> c.prefix <= 29
    ensures a < 0 <==> c.prefix >= 30
  {
    assert c.prefix >= 30 <==> BlockSize(c) <= 4 by {
      if c.prefix >= 30 {
        Pow2Monotone(32 - c.prefix, 2);
        assert Pow2(2) == 4;
      } else {
        Pow2Monotone(3, 32 - c.prefix);
        assert Pow2(3) == 8;
      }
    }
    BlockSize(c) - ReservedAddresses
  }

  /** The bits the source computes for `index` (its `startIpAddressBit +
      index`), read as an unsigned 32-bit value, are the network address plus
      four plus the index, modulo 2^32. */
  lemma AddressBitsValue(c: Cidr, index: int)
    requires ValidCidr(c)
    ensures ToUint32(ShiftedPack(c.network) + FirstHostOffset + index)
            == (Pack(c.network) + FirstHostOffset + index) % TwoTo32
  {
    if c.network[0] >= 128 {
      ModSubModulus(Pack(c.network) + FirstHostOffset + index, TwoTo32);
    }
  }

  /** The address for `index` within `c`, or the out-of-range error. The
      body follows the source step by step (the JavaScript `reduce` with its
      signed shifts, then the unsigned-shift extraction); the contract states
      the result as plain unsigned arithmetic modulo 2^32. */
  function GenerateIpAddress(c: Cidr, index: int): (r: Result<seq<nat>, AllocError>)
    requires ValidCidr(c)
    ensures r.Failure? <==> index < 0 || index >= AvailableCount(c)
    ensures c.prefix >= 30 ==> r.Failure?
    ensures r.Success? ==>
              IsOctets(r.value)
              && r.value == Unpack((Pack(c.network) + FirstHostOffset + index) % TwoTo32)
  {
    var available := AvailableCount(c);
    var start := ShiftedPack(c.network) + FirstHostOffset;
    if index < 0 || index >= available then
      Failure(IndexOutOfRange)
    else
      AddressBitsValue(c, index);
      Success(ShiftedOctets(start + index))
  }

  /** The string `generateIpAddress` returns: the dotted quad, which reads
      back as exactly the allocated octets, or the error sentence, which never
      reads as an address. */
  function IpAddressText(r: Result<seq<nat>, AllocError>): (s: string)
    requires r.Success? ==> IsOctets(r.value)
    ensures ParseDottedQuad(s) == if r.Success? then Some(r.value) else None
  {
    match r
    case Success(o) =>
      ParseDottedQuadRoundTrip(o);
      DottedQuad(o)
    case Failure(_) =>
      assert OutOfRangeMessage[0] == 'E';
      assert Split(OutOfRangeMessage, '.')[0][0] == 'E';
      OutOfRangeMessage
  }

  /** Consecutive indexes receive consecutive addresses. */
  lemma ConsecutiveAddresses(c: Cidr, k: int)
    requires ValidCidr(c)
    requires 0 <= k && k + 1 < AvailableCount(c)
    ensures GenerateIpAddress(c, k).Success? && GenerateIpAddress(c, k + 1).Success?
    ensures Pack(GenerateIpAddress(c, k + 1).value)
            == (Pack(GenerateIpAddress(c, k).value) + 1) % TwoTo32
  {
    var x := Pack(c.network) + FirstHostOffset + k;
    var a, b := GenerateIpAddress(c, k).value, GenerateIpAddress(c, k + 1).value;
    assert Pack(a) == x % TwoTo32;
    assert Pack(b) == (x + 1) % TwoTo32;
    ModSucc(x, TwoTo32);
  }

  /** Two different accepted indexes never receive the same address. */
  lemma DistinctIndexesDistinctAddresses(c: Cidr, j: int, k: int)
    requires ValidCidr(c)
    requires 0 <= j < AvailableCount(c) && 0 <= k < AvailableCount(c) && j != k
    ensures GenerateIpAddress(c, j).Success? && GenerateIpAddress(c, k).Success?
    ensures GenerateIpAddress(c, j).value != GenerateIpAddress(c, k).value
  {
    var x := Pack(c.network) + FirstHostOffset;
    var a, b := GenerateIpAddress(c, j).value, GenerateIpAddress(c, k).value;
    assert Pack(a) == (x + j) % TwoTo32 && Pack(b) == (x + k) % TwoTo32;
    if a == b {
      ModAddInjective(x, j, k, TwoTo32);
    }
  }

  /** When the host bits of the network address are zero (the usual form of
      a CIDR block), an accepted index yields an address inside the block,
      past the network address and the three reserved after it, and before
      the broadcast address. */
  lemma AddressWithinBlock(c: Cidr, k: int)
    requires ValidCidr(c)
    requires Pack(c.network) % BlockSize(c) == 0
    requires 0 <= k < AvailableCount(c)
    ensures GenerateIpAddress(c, k).Success?
    ensures Pack(GenerateIpAddress(c, k).value) == Pack(c.network) + FirstHostOffset + k
    ensures Pack(GenerateIpAddress(c, k).value) / BlockSize(c) == Pack(c.network) / BlockSize(c)
    ensures FirstHostOffset <= Pack(GenerateIpAddress(c, k).value) % BlockSize(c) <= BlockSize(c) - 2
  {
    var n, s := Pack(c.network), BlockSize(c);
    var x := n + FirstHostOffset + k;
    var a := GenerateIpAddress(c, k).value;
    assert Pack(a) == x % TwoTo32;
    assert FirstHostOffset + k <= s - 2;
    Pow2Add(c.prefix, 32 - c.prefix);
    Pow2Bytes();
    AlignedBlockOffset(n, s, Pow2(c.prefix), FirstHostOffset + k);
    DivModUnique(x, TwoTo32, 0, x);
  }

  /** The worked example of a /28 block: eleven usable indexes, the first at
      10.0.0.4 and the last at 10.0.0.14. */
  lemma SlashTwentyEightExample()
    ensures AvailableCount(Cidr([10, 0, 0, 0], 28)) == 11
    ensures GenerateIpAddress(Cidr([10, 0, 0, 0], 28), 0) == Success([10, 0, 0, 4])
    ensures GenerateIpAddress(Cidr([10, 0, 0, 0], 28), 10) == Success([10, 0, 0, 14])
    ensures GenerateIpAddress(Cidr([10, 0, 0, 0], 28), 11) == Failure(IndexOutOfRange)
    ensures GenerateIpAddress(Cidr([10, 0, 0, 0], 28), -1) == Failure(IndexOutOfRange)
  {
    var c := Cidr([10, 0, 0, 0], 28);
    assert Pow2(4) == 16;
    assert Pack(c.network) == 0x0A00_0000;
    var first, last := GenerateIpAddress(c, 0), GenerateIpAddress(c, 10);
    assert first.value == Unpack(0x0A00_0004);
    assert last.value == Unpack(0x0A00_000E);
    UnpackPack([10, 0, 0, 4]);
    UnpackPack([10, 0, 0, 14]);
  }

  /** The text the source returns for the last index of that block. */
  lemma SlashTwentyEightText()
    ensures IpAddressText(Success([10, 0, 0, 14])) == "10.0.0.14"
  {
    assert Show(10) == "10";
    assert Show(14) == "14";
    assert Show(0) == "0";
    var parts := ["10", "0", "0", "14"];
    assert Join(parts[3..], '.') == "14";
    assert Join(parts[2..], '.') == "0.14";
    assert Join(parts[1..], '.') == "0.0.14";
  }
}
