/** The parts of JavaScript number semantics the allocator depends on. Every
    value the allocator computes is an integer well inside the range a double
    holds exactly, so numbers are modelled as unbounded integers and only the
    32-bit conversions done by the bitwise operators are written out. */
module JsInt {
  import opened Arith

  const TwoTo31: int := 0x8000_0000
  const TwoTo32: int := 0x1_0000_0000

  /** 2 raised to `e`, exactly (what `Math.pow(2, e)` gives for 0 <= e <= 32). */
  function Pow2(e: nat): (r: nat)
    ensures r >= 1
  {
    if e == 0 then 1 else 2 * Pow2(e - 1)
  }

  lemma {:induction false} Pow2Add(a: nat, b: nat)
    ensures Pow2(a) * Pow2(b) == Pow2(a + b)
    decreases a
  {
    if a > 0 {
      Pow2Add(a - 1, b);
      assert Pow2(a) * Pow2(b) == 2 * (Pow2(a - 1) * Pow2(b));
    }
  }

  lemma {:induction false} Pow2Monotone(a: nat, b: nat)
    requires a <= b
    ensures Pow2(a) <= Pow2(b)
    decreases b
  {
    if a < b {
      Pow2Monotone(a, b - 1);
    }
  }

  /** The powers the byte shifts use. */
  lemma Pow2Bytes()
    ensures Pow2(0) == 1 && Pow2(8) == 256 && Pow2(16) == 0x1_0000
    ensures Pow2(24) == 0x100_0000 && Pow2(32) == TwoTo32
  {
    assert Pow2(2) == 4;
    Pow2Add(2, 2);
    Pow2Add(4, 4);
    Pow2Add(8, 8);
    Pow2Add(16, 8);
    Pow2Add(16, 16);
  }

  /** The ToUint32 conversion: the integer congruent to `x` modulo 2^32 in
      0 .. 2^32-1. */
  function ToUint32(x: int): (r: nat)
    ensures r < TwoTo32
    ensures (x - r) % TwoTo32 == 0
  {
    x % TwoTo32
  }

  /** The ToInt32 conversion: the integer congruent to `x` modulo 2^32 in
      -2^31 .. 2^31-1. */
  function ToInt32(x: int): (r: int)
    ensures -TwoTo31 <= r < TwoTo31
    ensures (x - r) % TwoTo32 == 0
  {
    var u := x % TwoTo32;
    if u >= TwoTo31 then u - TwoTo32 else u
  }

  /** `x << s` for a shift count below 32: the left operand is converted with
      ToInt32 and the shifted bit pattern is read back as a signed 32-bit
      integer. */
  function ShiftLeft(x: int, s: nat): (r: int)
    requires s < 32
    ensures -TwoTo31 <= r < TwoTo31
  {
    ToInt32(ToInt32(x) * Pow2(s))
  }

  /** `x >>> s` for a shift count below 32: the left operand is converted with
      ToUint32 and shifted right filling with zeros. */
  function UnsignedShiftRight(x: int, s: nat): (r: nat)
    requires s < 32
    ensures r < TwoTo32
  {
    DivAtMost(ToUint32(x), Pow2(s));
    ToUint32(x) / Pow2(s)
  }
}
