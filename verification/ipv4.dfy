/** IPv4 addresses as four octets, the 32-bit integer they pack to, and the
    dotted-quad text. Alongside the plain unsigned packing, this module models
    the two JavaScript expressions the allocator actually uses: the `reduce`
    over `current << ((3 - index) * 8)` (a signed shift) and the
    `(x >>> (shift * 8)) % 256` extraction, and proves them equivalent to the
    unsigned arithmetic modulo 2^32. */
module Ipv4 {
  import opened Wrappers
  import opened JsInt
  import opened Text

  /** Exactly four octets, each in 0 .. 255, most significant first. */
  predicate IsOctets(o: seq<nat>) {
    |o| == 4 && forall k | 0 <= k < 4 :: o[k] < 256
  }

  /** The unsigned 32-bit value of an address: octet 0 in bits 31-24 down to
      octet 3 in bits 7-0. */
  function Pack(o: seq<nat>): (x: nat)
    requires IsOctets(o)
    ensures x < TwoTo32
  {
    ((o[0] * 256 + o[1]) * 256 + o[2]) * 256 + o[3]
  }

  /** The four octets of an unsigned 32-bit value. */
  function Unpack(x: nat): (o: seq<nat>)
    requires x < TwoTo32
    ensures IsOctets(o)
    ensures Pack(o) == x
  {
    var a := x / 0x100_0000;
    var b := x / 0x1_0000 % 256;
    var c := x / 256 % 256;
    var d := x % 256;
    assert x / 0x1_0000 == a * 256 + b;
    assert x / 256 == (a * 256 + b) * 256 + c;
    [a, b, c, d]
  }

  /** Packing and then unpacking returns the same octets. */
  lemma UnpackPack(o: seq<nat>)
    requires IsOctets(o)
    ensures Unpack(Pack(o)) == o
  {
    var x := Pack(o);
    var a, b, c, d := o[0], o[1], o[2], o[3];
    assert x == ((a * 256 + b) * 256 + c) * 256 + d;
    assert x / 256 == (a * 256 + b) * 256 + c;
    assert x / 0x1_0000 == a * 256 + b;
    assert x / 0x100_0000 == a;
  }

  /** Packing is one-to-one on octet sequences. */
  lemma PackInjective(o: seq<nat>, p: seq<nat>)
    requires IsOctets(o) && IsOctets(p)
    ensures Pack(o) == Pack(p) <==> o == p
  {
    if Pack(o) == Pack(p) {
      UnpackPack(o);
      UnpackPack(p);
    }
  }

  /** The accumulator of `octets.reduce((acc, cur, k) => acc + (cur << ((3 - k) * 8)), 0)`
      after the elements before position `k` have been folded in. */
  function ShiftedSum(o: seq<nat>, k: nat): int
    requires |o| <= 4 && k <= |o|
    decreases k
  {
    if k == 0 then 0 else ShiftedSum(o, k - 1) + ShiftLeft(o[k - 1], (4 - k) * 8)
  }


  /** Shifting an octet by 0, 8 or 16 bits never reaches the sign bit. */
  lemma ShiftLeftLow(x: nat)
    requires x < 256
    ensures ShiftLeft(x, 0) == x
    ensures ShiftLeft(x, 8) == x * 256
    ensures ShiftLeft(x, 16) == x * 0x1_0000
  {
    Pow2Bytes();
    assert ToInt32(x) == x;
  }

  /** Shifting an octet by 24 bits lands in the sign bit when the octet is
      128 or more. */
  lemma ShiftLeftTop(x: nat)
    requires x < 256
    ensures ShiftLeft(x, 24) == x * 0x100_0000 - (if x >= 128 then TwoTo32 else 0)
  {
    Pow2Bytes();
    assert ToInt32(x) == x;
  }

  /** The fold over four octets, term by term. */
  lemma ShiftedSumOfOctets(o: seq<nat>)
    requires |o| <= 4
    ensures IsOctets(o) ==> ShiftedSum(o, |o|) == Pack(o) - (if o[0] >= 128 then TwoTo32 else 0)
  {
    if IsOctets(o) {
      Pow2Bytes();
      ShiftLeftTop(o[0]);
      ShiftLeftLow(o[1]);
      ShiftLeftLow(o[2]);
      ShiftLeftLow(o[3]);
      assert ShiftedSum(o, 1) == ShiftLeft(o[0], 24);
      assert ShiftedSum(o, 2) == ShiftedSum(o, 1) + ShiftLeft(o[1], 16);
      assert ShiftedSum(o, 3) == ShiftedSum(o, 2) + ShiftLeft(o[2], 8);
      assert ShiftedSum(o, 4) == ShiftedSum(o, 3) + ShiftLeft(o[3], 0);
    }
  }

  /** The value the `reduce` returns for the whole octet sequence. For four
      octets the signed shift of the top one makes the sum negative exactly
      when that octet is 128 or more; the sum is then 2^32 below the unsigned
      value. */
  function ShiftedPack(o: seq<nat>): (p: int)
    requires |o| <= 4
    ensures IsOctets(o) ==> p == Pack(o) - (if o[0] >= 128 then TwoTo32 else 0)
  {
    ShiftedSumOfOctets(o);
    ShiftedSum(o, |o|)
  }

  /** `[3, 2, 1, 0].map(shift => (x >>> (shift * 8)) % 256)`: the octets of
      `x` modulo 2^32, whatever the sign or size of `x`. */
  function ShiftedOctets(x: int): (o: seq<nat>)
    ensures o == Unpack(ToUint32(x))
  {
    Pow2Bytes();
    assert ToUint32(x) / 0x100_0000 < 256;
    [ UnsignedShiftRight(x, 24) % 256, UnsignedShiftRight(x, 16) % 256,
      UnsignedShiftRight(x, 8) % 256, UnsignedShiftRight(x, 0) % 256 ]
  }

  /** The address as `octets.join(".")`. */
  function DottedQuad(o: seq<nat>): string
    requires IsOctets(o)
  {
    Join([Show(o[0]), Show(o[1]), Show(o[2]), Show(o[3])], '.')
  }

  /** Reads dotted-quad text: four non-empty runs of digits, each at most 255,
      separated by dots. */
  function ParseDottedQuad(s: string): (r: Option<seq<nat>>)
    ensures r.Some? ==> IsOctets(r.value)
  {
    var parts := Split(s, '.');
    if |parts| == 4
       && (forall k | 0 <= k < 4 :: |parts[k]| > 0 && AllDigits(parts[k]))
       && (forall k | 0 <= k < 4 :: ParseDigits(parts[k]) < 256)
    then Some(seq(4, k requires 0 <= k < 4 => ParseDigits(parts[k])))
    else None
  }

  /** Reading back the dotted-quad text of an address gives its octets. */
  lemma ParseDottedQuadRoundTrip(o: seq<nat>)
    requires IsOctets(o)
    ensures ParseDottedQuad(DottedQuad(o)) == Some(o)
  {
    var parts := [Show(o[0]), Show(o[1]), Show(o[2]), Show(o[3])];
    forall k | 0 <= k < 4
      ensures '.' !in parts[k]
      ensures ParseDigits(parts[k]) == o[k]
    {
      ParseShow(o[k]);
      assert !IsDigit('.');
    }
    SplitJoin(parts, '.');
    assert Split(DottedQuad(o), '.') == parts;
    assert seq(4, k requires 0 <= k < 4 => ParseDigits(parts[k])) == o;
  }

  /** Distinct addresses have distinct dotted-quad texts. */
  lemma DottedQuadInjective(o: seq<nat>, p: seq<nat>)
    requires IsOctets(o) && IsOctets(p)
    ensures DottedQuad(o) == DottedQuad(p) <==> o == p
  {
    ParseDottedQuadRoundTrip(o);
    ParseDottedQuadRoundTrip(p);
  }
}
