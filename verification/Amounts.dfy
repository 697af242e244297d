/**
 * The compression of amounts (compress.go): trailing zeros, up to nine, become an exponent, and the
 * last digit, which then is not zero, takes one of nine values instead of ten.
 */
module Amounts {
  import opened Bits

  const MAX_EXPONENT: nat := 9

  function Pow10(e: nat): (p: nat)
    ensures p > 0
  {
    if e == 0 then 1 else 10 * Pow10(e - 1)
  }

  /** What is left of `a` without its trailing zeros, at most `max` of them, and their number. */
  function Strip(a: nat, max: nat): (r: (nat, nat))
    requires a > 0
    ensures r.0 > 0 && r.1 <= max && (r.1 < max ==> r.0 % 10 != 0)
    decreases max
  {
    if max == 0 || a % 10 != 0 then (a, 0)
    else var (n, e) := Strip(a / 10, max - 1); (n, e + 1)
  }

  /** The number for `n` followed by `e` zeros. */
  function Pack(n: nat, e: nat): (c: nat)
    requires n > 0 && e <= MAX_EXPONENT && (e < MAX_EXPONENT ==> n % 10 != 0)
    ensures c > 0
  {
    if e < MAX_EXPONENT then 1 + 10 * (9 * (n / 10) + n % 10 - 1) + e else 10 + 10 * (n - 1)
  }

  function CompressAmount(a: nat): nat {
    if a == 0 then 0 else var (n, e) := Strip(a, MAX_EXPONENT); Pack(n, e)
  }

  function Unpack(c: nat): (r: (nat, nat))
    requires c > 0
    ensures r.0 > 0 && r.1 <= MAX_EXPONENT && (r.1 < MAX_EXPONENT ==> r.0 % 10 != 0)
  {
    var x := c - 1;
    if x % 10 < MAX_EXPONENT then (x / 10 / 9 * 10 + (x / 10 % 9 + 1), x % 10) else (x / 10 + 1, MAX_EXPONENT)
  }

  function DecompressAmount(c: nat): nat {
    if c == 0 then 0 else var (n, e) := Unpack(c); n * Pow10(e)
  }

  // ----- a bijection on the naturals -----

  lemma {:induction false} UnpackPack(n: nat, e: nat)
    requires n > 0 && e <= MAX_EXPONENT && (e < MAX_EXPONENT ==> n % 10 != 0)
    ensures Unpack(Pack(n, e)) == (n, e)
  {
    if e < MAX_EXPONENT {
      var q := 9 * (n / 10) + n % 10 - 1;
      DivUnique(10 * q + e, 10, q, e);
      DivUnique(q, 9, n / 10, n % 10 - 1);
    }
  }

  lemma {:induction false} PackUnpack(c: nat)
    requires c > 0
    ensures var (n, e) := Unpack(c); Pack(n, e) == c
  {
    var x := c - 1;
    if x % 10 < MAX_EXPONENT {
      var q := x / 10;
      var n := q / 9 * 10 + (q % 9 + 1);
      DivUnique(n, 10, q / 9, q % 9 + 1);
    }
  }

  lemma {:induction false} StripValue(a: nat, max: nat)
    requires a > 0
    ensures var (n, e) := Strip(a, max); n * Pow10(e) == a
    decreases max
  {
    if max > 0 && a % 10 == 0 {
      StripValue(a / 10, max - 1);
      var (n, e) := Strip(a / 10, max - 1);
      TimesTen(n, e);
    }
  }

  lemma {:induction false} TimesTen(n: nat, e: nat)
    ensures n * Pow10(e + 1) == 10 * (n * Pow10(e))
  {
  }

  lemma {:induction false} StripStep(a: nat, b: nat, max: nat)
    requires b > 0 && a == 10 * b && max > 0
    ensures Strip(a, max) == (Strip(b, max - 1).0, Strip(b, max - 1).1 + 1)
  {
  }

  lemma {:induction false} StripUnique(n: nat, e: nat, max: nat)
    requires n > 0 && e <= max && (e < max ==> n % 10 != 0)
    ensures n * Pow10(e) > 0 && Strip(n * Pow10(e), max) == (n, e)
    decreases e
  {
    hide Pow10, Strip;
    if e == 0 {
      NoZeros(n);
      NothingToStrip(n, max);
    } else {
      StripUnique(n, e - 1, max - 1);
      TimesTen(n, e - 1);
      StripStep(n * Pow10(e), n * Pow10(e - 1), max);
    }
  }

  lemma {:induction false} NothingToStrip(n: nat, max: nat)
    requires n > 0 && (max == 0 || n % 10 != 0)
    ensures Strip(n, max) == (n, 0)
  {
  }

  lemma {:induction false} DecompressCompressed(a: nat)
    ensures DecompressAmount(CompressAmount(a)) == a
  {
    if a > 0 {
      var (n, e) := Strip(a, MAX_EXPONENT);
      StripValue(a, MAX_EXPONENT);
      UnpackPack(n, e);
    }
  }

  lemma {:induction false} CompressDecompressed(c: nat)
    ensures CompressAmount(DecompressAmount(c)) == c
  {
    if c > 0 {
      var (n, e) := Unpack(c);
      StripUnique(n, e, MAX_EXPONENT);
      PackUnpack(c);
    }
  }

  /** Compression at most multiplies by nine, so amounts below a ninth of 2^64 always fit. */
  lemma {:induction false} CompressedSize(a: nat)
    ensures CompressAmount(a) <= 9 * a
  {
    if a > 0 {
      var (n, e) := Strip(a, MAX_EXPONENT);
      StripValue(a, MAX_EXPONENT);
      if e > 0 {
        TimesTen(n, e - 1);
        assert n * Pow10(e - 1) >= n by {
          AtLeast(n, Pow10(e - 1));
        }
      }
    }
  }

  lemma {:induction false} AtLeast(n: nat, p: nat)
    requires p > 0
    ensures n * p >= n
  {
  }

  // ----- the code -----

  /** `compressTxOutAmount`: the result wraps around at 64 bits. */
  method CompressTxOutAmount(amount: nat) returns (compressed: nat)
    ensures compressed == CompressAmount(amount) % TWO_TO_64
  {
    hide Pack;
    if amount == 0 {
      return 0;
    }
    var a := amount;
    var exponent := 0;
    while a % 10 == 0 && exponent < 9
      invariant a > 0 && 0 <= exponent <= MAX_EXPONENT
      invariant var (n, e) := Strip(a, MAX_EXPONENT - exponent); Strip(amount, MAX_EXPONENT) == (n, e + exponent)
      decreases MAX_EXPONENT - exponent
    {
      a := a / 10;
      exponent := exponent + 1;
    }
    PackMeans(a, exponent);
    if exponent < 9 {
      var lastDigit := a % 10;
      a := a / 10;
      return (1 + 10 * (9 * a + lastDigit - 1) + exponent) % TWO_TO_64;
    }
    return (10 + 10 * (a - 1)) % TWO_TO_64;
  }

  lemma {:induction false} PackMeans(n: nat, e: nat)
    requires n > 0 && e <= MAX_EXPONENT && (e < MAX_EXPONENT ==> n % 10 != 0)
    ensures Pack(n, e) == if e < 9 then 1 + 10 * (9 * (n / 10) + n % 10 - 1) + e else 10 + 10 * (n - 1)
  {
  }

  /** `decompressTxOutAmount`: applying the exponent wraps around at 64 bits. */
  method DecompressTxOutAmount(compressed: nat) returns (amount: nat)
    requires compressed < TWO_TO_64
    ensures amount == DecompressAmount(compressed) % TWO_TO_64
  {
    hide Unpack, Pow10;
    if compressed == 0 {
      return 0;
    }
    UnpackFits(compressed);
    var x := compressed - 1;
    var exponent := x % 10;
    x := x / 10;
    var n := 0;
    if exponent < 9 {
      var lastDigit := x % 9 + 1;
      x := x / 9;
      n := x * 10 + lastDigit;
    } else {
      n := x + 1;
    }
    ghost var (n0, e) := Unpack(compressed);
    assert n == n0 && exponent == e;
    NoZeros(n0);
    while exponent > 0
      invariant 0 <= exponent <= e && n == n0 * Pow10(e - exponent) % TWO_TO_64
    {
      TimesTen(n0, e - exponent);
      TenWraps(n0 * Pow10(e - exponent));
      n := n * 10 % TWO_TO_64;
      exponent := exponent - 1;
    }
    return n;
  }

  lemma {:induction false} UnpackFits(c: nat)
    requires 0 < c < TWO_TO_64
    ensures var x := c - 1;
      Unpack(c) == if x % 10 < 9 then (x / 10 / 9 * 10 + (x / 10 % 9 + 1), x % 10) else (x / 10 + 1, 9)
    ensures Unpack(c).0 < TWO_TO_64
  {
  }

  lemma {:induction false} NoZeros(n: nat)
    ensures n * Pow10(0) == n
  {
  }

  lemma {:induction false} TenWraps(x: nat)
    ensures (x % TWO_TO_64) * 10 % TWO_TO_64 == 10 * x % TWO_TO_64
  {
    var q, r := x / TWO_TO_64, x % TWO_TO_64;
    var q', r' := r * 10 / TWO_TO_64, r * 10 % TWO_TO_64;
    assert 10 * x == TWO_TO_64 * (10 * q + q') + r';
    DivUnique(10 * x, TWO_TO_64, 10 * q + q', r');
  }

  // ----- documented values -----

  /** An amount written as digits and trailing zeros. */
  lemma {:induction false} CodeOf(a: nat, n: nat, e: nat)
    requires n > 0 && e <= 9 && (e < 9 ==> n % 10 != 0) && a == n * Pow10(e)
    ensures CompressAmount(a) == if e < 9 then 1 + 10 * (9 * (n / 10) + n % 10 - 1) + e else 10 + 10 * (n - 1)
  {
    hide Strip;
    StripUnique(n, e, 9);
  }

  /** The amounts and codes listed in compress.go; its 47 for half a coin is 48. */
  lemma {:induction false} DocumentedAmounts()
    ensures CompressAmount(0) == 0 && CompressAmount(1000) == 4 && CompressAmount(10000) == 5
    ensures CompressAmount(12345678) == 111111101 && CompressAmount(50000000) == 48
    ensures CompressAmount(100000000) == 9 && CompressAmount(500000000) == 49 && CompressAmount(1000000000) == 10
  {
    SmallPowers();
    assert CompressAmount(0) == 0;
    hide CompressAmount, Pow10;
    CodeOf(1000, 1, 3);
    CodeOf(10000, 1, 4);
    CodeOf(12345678, 12345678, 0);
    CodeOf(50000000, 5, 7);
    CodeOf(100000000, 1, 8);
    CodeOf(500000000, 5, 8);
    CodeOf(1000000000, 1, 9);
  }

  lemma {:induction false} SmallPowers()
    ensures Pow10(0) == 1 && Pow10(3) == 1000 && Pow10(4) == 10000 && Pow10(6) == 1000000
    ensures Pow10(7) == 10000000 && Pow10(8) == 100000000 && Pow10(9) == 1000000000
  {
  }
}
