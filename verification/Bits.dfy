/** Binary arithmetic on natural numbers: the parts of Go's `&`, `>>` and `math/bits` that the chain code uses. */
module Bits {

  /** The number of values of a 64-bit unsigned integer. */
  const TWO_TO_64: nat := 0x1_0000_0000_0000_0000

  /** More elements than any Go slice can hold. */
  const SLICE_LIMIT: nat := 0x8000_0000_0000_0000

  /** The conversion of a 64-bit unsigned integer to `int`. */
  function Signed64(n: nat): (i: int)
    requires n < TWO_TO_64
    ensures i < SLICE_LIMIT && (i == n || i == n - TWO_TO_64)
  {
    if n < SLICE_LIMIT then n else n - TWO_TO_64
  }

  function Pow2(k: nat): (r: nat)
    ensures r >= 1
  {
    if k == 0 then 1 else 2 * Pow2(k - 1)
  }

  /** Bitwise conjunction. */
  function And(a: nat, b: nat): (r: nat)
    ensures r <= a && r <= b
  {
    if a == 0 || b == 0 then 0
    else (if a % 2 == 1 && b % 2 == 1 then 1 else 0) + 2 * And(a / 2, b / 2)
  }

  /** Right shift. */
  function Shr(n: nat, h: nat): nat {
    if h == 0 then n else Shr(n, h - 1) / 2
  }

  /** The number of 1 bits. */
  function PopCount(n: nat): nat {
    if n == 0 then 0 else n % 2 + PopCount(n / 2)
  }

  /** The number of binary digits; zero for zero. */
  function BitLen(n: nat): nat {
    if n == 0 then 0 else 1 + BitLen(n / 2)
  }

  lemma {:induction false} DivUnique(n: int, d: int, q: int, r: int)
    requires d > 0 && 0 <= r < d && n == q * d + r
    ensures n / d == q && n % d == r
  {
    var q' := n / d;
    var k := q' - q;
    assert k * d == r - n % d;
    if k >= 1 {
      MulGe(k, d);
      assert false;
    }
    if k <= -1 {
      MulGe(-k, d);
      assert false;
    }
  }

  lemma {:induction false} MulGe(k: int, d: int)
    requires k >= 1 && d >= 0
    ensures k * d >= d
  {
    assert (k - 1) * d >= 0;
  }

  lemma {:induction false} BitLenBound(n: nat, k: nat)
    requires n < Pow2(k)
    ensures BitLen(n) <= k
  {
    if n > 0 {
      BitLenBound(n / 2, k - 1);
    }
  }

  lemma {:induction false} BelowPow2BitLen(n: nat)
    ensures n < Pow2(BitLen(n))
    ensures n > 0 ==> Pow2(BitLen(n) - 1) <= n
  {
    if n > 0 {
      BelowPow2BitLen(n / 2);
    }
  }

  lemma {:induction false} BitLenMonotone(a: nat, b: nat)
    requires a <= b
    ensures BitLen(a) <= BitLen(b)
  {
    if a > 0 {
      BitLenMonotone(a / 2, b / 2);
    }
  }

  lemma {:induction false} PopCountAtMostBitLen(n: nat)
    ensures PopCount(n) <= BitLen(n)
  {
    if n > 0 {
      PopCountAtMostBitLen(n / 2);
    }
  }

  lemma {:induction false} Pow2Of8()
    ensures Pow2(8) == 0x100
  {
    assert Pow2(4) == 0x10;
  }

  lemma {:induction false} Pow2Of64()
    ensures Pow2(64) == TWO_TO_64
  {
    hide Pow2;
    Pow2Of8();
    Pow2Sum(8, 8);
    Pow2Sum(16, 16);
    Pow2Sum(32, 32);
  }

  lemma {:induction false} BitLenOf64(n: nat)
    requires n < TWO_TO_64
    ensures BitLen(n) <= 64
  {
    Pow2Of64();
    BitLenBound(n, 64);
  }

  lemma {:induction false} Pow2Sum(a: nat, b: nat)
    ensures Pow2(a + b) == Pow2(a) * Pow2(b)
  {
    if a > 0 {
      Pow2Sum(a - 1, b);
      assert Pow2(a + b) == 2 * (Pow2(a - 1) * Pow2(b));
      assert 2 * (Pow2(a - 1) * Pow2(b)) == (2 * Pow2(a - 1)) * Pow2(b);
    }
  }

  // ----- clearing the lowest 1 bit, n & (n - 1) -----

  lemma {:induction false} AndSelf(n: nat)
    ensures And(n, n) == n
  {
    if n > 0 {
      AndSelf(n / 2);
    }
  }

  lemma {:induction false} AndPredOdd(k: nat)
    ensures And(2 * k + 1, 2 * k) == 2 * k
  {
    AndSelf(k);
    if k > 0 {
      assert (2 * k + 1) / 2 == k && (2 * k) / 2 == k;
      assert (2 * k + 1) % 2 == 1 && (2 * k) % 2 == 0;
    }
  }

  lemma {:induction false} AndPredEven(k: nat)
    requires k > 0
    ensures And(2 * k, 2 * k - 1) == 2 * And(k, k - 1)
  {
    assert (2 * k - 1) / 2 == k - 1;
    assert (2 * k) / 2 == k;
  }

  /** The test `n & (n - 1) == 0` recognises exactly the powers of two. */
  lemma {:induction false} PowerOfTwoTest(n: nat)
    requires n > 0
    ensures And(n, n - 1) == 0 <==> PopCount(n) == 1
    ensures And(n, n - 1) == 0 ==> n == Pow2(BitLen(n) - 1)
  {
    if n % 2 == 1 {
      AndPredOdd(n / 2);
      assert n == 2 * (n / 2) + 1;
      if n > 1 {
        PopCountPositive(n / 2);
      }
    } else {
      assert n == 2 * (n / 2);
      AndPredEven(n / 2);
      PowerOfTwoTest(n / 2);
    }
  }

  lemma {:induction false} PopCountOfOne()
    ensures PopCount(1) == 1
  {
    assert PopCount(0) == 0;
  }

  lemma {:induction false} PopCountPositive(n: nat)
    ensures PopCount(n) == 0 <==> n == 0
  {
    if n > 0 {
      PopCountPositive(n / 2);
    }
  }
}
