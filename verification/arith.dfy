/** Facts about integer multiplication and Euclidean division that the
    solver does not find on its own when the divisor is not a constant. */
module Arith {

  lemma {:induction false} MulAtLeast(a: int, d: int)
    requires a >= 1 && d > 0
    ensures a * d >= d
    decreases a
  {
    if a > 1 {
      MulAtLeast(a - 1, d);
      assert a * d == (a - 1) * d + d;
    }
  }

  /** Dividing a non-negative number by a positive one does not make it
      larger. */
  lemma DivAtMost(x: int, d: int)
    requires x >= 0 && d >= 1
    ensures 0 <= x / d <= x
  {
    var q := x / d;
    assert x == q * d + x % d;
    if q >= 1 {
      MulAtLeast(d, q);
      assert d * q == q * d;
    }
  }

  /** A strict inequality between multiples of a positive number carries
      over to the factors. */
  lemma MulCancelLess(a: int, b: int, d: int)
    requires d > 0 && a * d < b * d
    ensures a < b
  {
    if a >= b {
      if a > b {
        MulAtLeast(a - b, d);
      }
    }
  }

  /** The quotient and remainder of Euclidean division are the only pair
      that satisfies `x == q * d + r` with `0 <= r < d`. */
  lemma DivModUnique(x: int, d: int, q: int, r: int)
    requires d > 0 && 0 <= r < d && x == q * d + r
    ensures x / d == q && x % d == r
  {
    var q', r' := x / d, x % d;
    assert x == q' * d + r';
    if q' > q {
      MulAtLeast(q' - q, d);
    } else if q' < q {
      MulAtLeast(q - q', d);
    }
  }

  /** Subtracting the modulus does not change the remainder. */
  lemma ModSubModulus(x: int, m: int)
    requires m > 0
    ensures (x - m) % m == x % m
  {
    DivModUnique(x - m, m, x / m - 1, x % m);
  }

  /** Adding two different amounts smaller than the modulus to the same
      number gives different remainders. */
  lemma ModAddInjective(x: int, j: int, k: int, m: int)
    requires m > 0 && 0 <= j < m && 0 <= k < m
    requires (x + j) % m == (x + k) % m
    ensures j == k
  {
    var r := (x + j) % m;
    var qj, qk := (x + j) / m, (x + k) / m;
    assert x + j == qj * m + r;
    assert x + k == qk * m + r;
    if qj > qk {
      MulAtLeast(qj - qk, m);
    } else if qk > qj {
      MulAtLeast(qk - qj, m);
    }
  }

  /** Remainders step by one along with their dividend, wrapping to zero. */
  lemma ModSucc(x: int, m: int)
    requires m > 0
    ensures (x + 1) % m == (x % m + 1) % m
  {
    if x % m + 1 < m {
      DivModUnique(x + 1, m, x / m, x % m + 1);
    } else {
      DivModUnique(x + 1, m, x / m + 1, 0);
    }
  }

  /** Within a range of `count` aligned blocks of `size`, an offset smaller
      than `size` from the start of a block stays in that block. */
  lemma AlignedBlockOffset(base: int, size: int, count: int, h: int)
    requires size > 0 && 0 <= base < count * size && base % size == 0
    requires 0 <= h < size
    ensures base + h < count * size
    ensures (base + h) / size == base / size
    ensures (base + h) % size == h
  {
    var b := base / size;
    assert base == b * size;
    MulCancelLess(b, count, size);
    if b + 1 < count {
      MulAtLeast(count - (b + 1), size);
      assert count * size == (count - (b + 1)) * size + (b + 1) * size;
    }
    assert (b + 1) * size == b * size + size;
    DivModUnique(base + h, size, b, h);
  }

  /** Different numbers differ in their quotient or their remainder. */
  lemma DivModDistinct(i: int, k: int, n: int)
    requires n > 0 && i != k
    ensures i / n != k / n || i % n != k % n
  {
  }
}
