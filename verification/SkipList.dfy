/**
 * How many links the skip search of `Ancestor` follows (blockindex.go): at most the square of the
 * bit length of the starting height, and the documented worst case from height 2^29, exactly.
 */
module SkipList {
  import opened BlockTree
  import opened Bits

  function Shl(a: nat, p: nat): nat {
    if p == 0 then a else 2 * Shl(a, p - 1)
  }

  lemma {:induction false} ShlBit(a: nat, p: nat)
    requires p > 0
    ensures Shl(2 * a, p - 1) == Shl(a, p)
    ensures Shl(2 * a + 1, p - 1) == Shl(a, p) + Pow2(p - 1)
  {
    if p > 1 {
      ShlBit(a, p - 1);
    }
  }

  lemma {:induction false} ShlSum(a: nat, p: nat, q: nat)
    ensures Shl(Shl(a, p), q) == Shl(a, p + q)
  {
    if q > 0 {
      ShlSum(a, p, q - 1);
    }
  }

  lemma {:induction false} ShlZero(p: nat)
    ensures Shl(0, p) == 0
  {
    if p > 0 {
      ShlZero(p - 1);
    }
  }

  // ----- clearing low bits below a prefix -----

  lemma {:induction false} PopCountOfDouble(k: nat)
    ensures PopCount(2 * k) == PopCount(k)
    ensures PopCount(2 * k + 1) == PopCount(k) + 1
  {
  }

  lemma {:induction false} InvertDropsBit(r: nat)
    requires r > 0
    ensures PopCount(InvertLowestOne(r)) == PopCount(r) - 1
  {
    hide InvertLowestOne, PopCount;
    var half := r / 2;
    PopCountOfDouble(half);
    if r % 2 == 1 {
      InvertLowestOneOdd(half);
    } else {
      InvertLowestOneEven(half);
      InvertDropsBit(half);
      PopCountOfDouble(InvertLowestOne(half));
    }
  }

  lemma {:induction false} InvertBelowPrefix(a: nat, p: nat, r: nat)
    requires 0 < r < Pow2(p)
    ensures InvertLowestOne(Shl(a, p) + r) == Shl(a, p) + InvertLowestOne(r)
  {
    hide InvertLowestOne;
    var up, half := Shl(a, p - 1), r / 2;
    if r % 2 == 1 {
      InvertLowestOneOdd(up + half);
      InvertLowestOneOdd(half);
    } else {
      InvertLowestOneEven(up + half);
      InvertLowestOneEven(half);
      InvertBelowPrefix(a, p - 1, half);
    }
  }

  lemma {:induction false} InvertShl(a: nat, p: nat)
    ensures InvertLowestOne(Shl(a, p)) == Shl(InvertLowestOne(a), p)
  {
    hide InvertLowestOne;
    if p > 0 {
      InvertShl(a, p - 1);
      InvertLowestOneEven(Shl(a, p - 1));
    }
  }

  lemma {:induction false} InvertLower(n: nat)
    ensures InvertLowestOne(n) <= n
    ensures n > 0 ==> InvertLowestOne(n) < n
  {
  }

  /** Below a prefix the skip height clears two 1 bits. */
  lemma {:induction false} SkipBelowPrefix(a: nat, p: nat, r: nat)
    requires r < Pow2(p) && PopCount(r) >= 2
    ensures GetAncestorHeight(Shl(a, p) + r) == Shl(a, p) + GetAncestorHeight(r)
    ensures PopCount(GetAncestorHeight(r)) == PopCount(r) - 2
    ensures GetAncestorHeight(r) < r
  {
    hide InvertLowestOne;
    PopCountPositive(r);
    InvertBelowPrefix(a, p, r);
    InvertDropsBit(r);
    InvertLower(r);
    var r' := InvertLowestOne(r);
    PopCountPositive(r');
    InvertBelowPrefix(a, p, r');
    InvertDropsBit(r');
    InvertLower(r');
  }

  /** A single bit `q` below the prefix is cleared together with the lowest bit of the prefix. */
  lemma {:induction false} SkipLastBit(a: nat, p: nat, q: nat)
    requires q < p
    ensures GetAncestorHeight(Shl(a, p) + Pow2(q)) == InvertLowestOne(Shl(a, p))
  {
    hide InvertLowestOne;
    ShlSum(a, p - q, q);
    PowerIsShl(q);
    PowerBelow(q, p);
    InvertShl(1, q);
    assert InvertLowestOne(1) == 0 by { InvertLowestOneOdd(0); }
    ShlZero(q);
    InvertBelowPrefix(a, p, Pow2(q));
  }

  lemma {:induction false} PowerIsShl(q: nat)
    ensures Pow2(q) == Shl(1, q)
  {
    if q > 0 {
      PowerIsShl(q - 1);
    }
  }

  lemma {:induction false} PowerBelow(q: nat, p: nat)
    requires q < p
    ensures 2 * Pow2(q) <= Pow2(p)
  {
    if q < p - 1 {
      PowerBelow(q, p - 1);
    }
  }

  lemma {:induction false} OnesPopCount(q: nat)
    ensures PopCount(Pow2(q) - 1) == q
  {
    if q > 0 {
      OnesPopCount(q - 1);
      assert (Pow2(q) - 1) / 2 == Pow2(q - 1) - 1;
    }
  }

  // ----- the cost of a descent -----

  lemma {:induction false} StepToSkip(x: nat, h: nat)
    requires h <= GetAncestorHeight(x) < x
    ensures Steps(x, h) == 1 + Steps(GetAncestorHeight(x), h)
  {
  }

  lemma {:induction false} StepToParent(x: nat, h: nat)
    requires h < x && GetAncestorHeight(x) < h
    ensures Steps(x, h) == 1 + Steps(x - 1, h)
  {
  }

  /** An even number of 1 bits below a prefix is cleared two at a time. */
  lemma {:induction false} ClearEvenBits(a: nat, p: nat, r: nat, h: nat)
    requires r < Pow2(p) && PopCount(r) % 2 == 0 && h <= Shl(a, p)
    ensures Steps(Shl(a, p) + r, h) == PopCount(r) / 2 + Steps(Shl(a, p), h)
    decreases r
  {
    hide GetAncestorHeight, Steps, Shl, PopCount;
    PopCountPositive(r);
    if r > 0 {
      SkipBelowPrefix(a, p, r);
      StepToSkip(Shl(a, p) + r, h);
      ClearEvenBits(a, p, GetAncestorHeight(r), h);
    }
  }

  /** The steps that clear a block of `q` ones. */
  function OnesCost(q: nat): nat {
    if q % 2 == 0 then q / 2 else q
  }

  /** A single bit above `h` needs a parent step, unless the skip happens to land on `h` itself. */
  lemma {:induction false} ClearLastBit(a: nat, p: nat, q: nat, h: nat)
    requires q < p && InvertLowestOne(Shl(a, p)) <= h < Shl(a, p)
    ensures Steps(Shl(a, p) + Pow2(q), h) <= 1 + OnesCost(q) + Steps(Shl(a, p), h)
    ensures InvertLowestOne(Shl(a, p)) < h ==>
      Steps(Shl(a, p) + Pow2(q), h) == 1 + OnesCost(q) + Steps(Shl(a, p), h)
    decreases q
  {
    hide GetAncestorHeight, InvertLowestOne;
    var b := Shl(a, p);
    SkipLastBit(a, p, q);
    PowerBelow(q, p);
    if InvertLowestOne(b) < h {
      assert Steps(b + Pow2(q), h) == 1 + Steps(b + (Pow2(q) - 1), h);
      OnesPopCount(q);
      if q % 2 == 0 {
        ClearEvenBits(a, p, Pow2(q) - 1, h);
      } else {
        ClearOddOnes(a, p, q, h);
      }
    }
  }

  lemma {:induction false} ClearOddOnes(a: nat, p: nat, q: nat, h: nat)
    requires q < p && q % 2 == 1 && InvertLowestOne(Shl(a, p)) < h < Shl(a, p)
    ensures Steps(Shl(a, p) + (Pow2(q) - 1), h) == q + Steps(Shl(a, p), h)
    decreases q, 0
  {
    hide GetAncestorHeight, InvertLowestOne, PopCount, Steps, Shl;
    OnesBelowBit(a, p, q);
    OnesPopCount(q - 1);
    PowerBelow(q - 1, p);
    ClearEvenBits(Shl(a, p - q + 1) + 1, q - 1, Pow2(q - 1) - 1, h);
    ClearLastBit(a, p, q - 1, h);
  }

  /** A block of ones seen as its top bit and the ones below. */
  lemma {:induction false} OnesBelowBit(a: nat, p: nat, q: nat)
    requires 0 < q <= p
    ensures Shl(Shl(a, p - q + 1) + 1, q - 1) == Shl(a, p) + Pow2(q - 1)
    ensures Shl(Shl(a, p - q + 1) + 1, q - 1) + (Pow2(q - 1) - 1) == Shl(a, p) + (Pow2(q) - 1)
  {
    PrefixWithBit(a, p, q - 1);
  }

  /** Setting bit `q` below a prefix gives the longer prefix that ends in that bit. */
  lemma {:induction false} PrefixWithBit(a: nat, p: nat, q: nat)
    requires q < p
    ensures Shl(Shl(a, p - q) + 1, q) == Shl(a, p) + Pow2(q)
  {
    ShlSum(a, p - q, q);
    ShlPlusOne(Shl(a, p - q), q);
  }

  lemma {:induction false} ShlPlusOne(a: nat, q: nat)
    ensures Shl(a + 1, q) == Shl(a, q) + Pow2(q)
  {
    if q > 0 {
      ShlPlusOne(a, q - 1);
    }
  }

  lemma {:induction false} ClearOnes(a: nat, p: nat, q: nat, h: nat)
    requires q <= p && InvertLowestOne(Shl(a, p)) <= h < Shl(a, p)
    ensures Steps(Shl(a, p) + (Pow2(q) - 1), h) <= OnesCost(q) + Steps(Shl(a, p), h)
    ensures InvertLowestOne(Shl(a, p)) < h ==>
      Steps(Shl(a, p) + (Pow2(q) - 1), h) == OnesCost(q) + Steps(Shl(a, p), h)
  {
    hide GetAncestorHeight, InvertLowestOne, PopCount, Steps, Shl;
    OnesPopCount(q);
    if q < p {
      PowerBelow(q, p);
    }
    if q % 2 == 0 {
      ClearEvenBits(a, p, Pow2(q) - 1, h);
    } else {
      OnesBelowBit(a, p, q);
      OnesPopCount(q - 1);
      ClearEvenBits(Shl(a, p - q + 1) + 1, q - 1, Pow2(q - 1) - 1, h);
      ClearLastBit(a, p, q - 1, h);
    }
  }

  // ----- the documented worst case -----

  /** The most steps from a block of `p` ones down to a number with the same bits above them. */
  function WorstFromOnes(p: nat): nat {
    if p == 0 then 0 else WorstFromOnes(p - 1) + OnesCost(p - 1) + 1
  }

  /** From just below a power of two one parent step reaches the next block of ones. */
  lemma {:induction false} ParentOfPower(a: nat, p: nat, h: nat)
    requires p > 0 && Shl(a, p) <= h < Shl(a, p) + Pow2(p - 1)
    ensures InvertLowestOne(Shl(2 * a + 1, p - 1)) == Shl(a, p)
    ensures Shl(2 * a + 1, p - 1) == Shl(a, p) + Pow2(p - 1)
    ensures Steps(Shl(a, p) + Pow2(p - 1), h) <= 1 + Steps(Shl(a, p) + (Pow2(p - 1) - 1), h)
    ensures h > Shl(a, p) ==>
      Steps(Shl(a, p) + Pow2(p - 1), h) == 1 + Steps(Shl(a, p) + (Pow2(p - 1) - 1), h)
  {
    hide InvertLowestOne;
    ShlBit(a, p);
    InvertShl(2 * a + 1, p - 1);
    InvertLowestOneOdd(a);
    InvertLower(Shl(a, p));
  }

  lemma {:induction false} StepsFromOnes(a: nat, p: nat, s: nat)
    requires s < Pow2(p)
    ensures Steps(Shl(a, p) + (Pow2(p) - 1), Shl(a, p) + s) <= WorstFromOnes(p)
    ensures s > 0 ==> Steps(Shl(a, p) + (Pow2(p) - 1), Shl(a, p) + s) <= WorstFromOnes(p) - 1
    decreases p
  {
    hide GetAncestorHeight, InvertLowestOne, Steps, Shl, OnesCost;
    NoSteps(Shl(a, p));
    if p > 0 {
      ShlBit(a, p);
      var h := Shl(a, p) + s;
      if s >= Pow2(p - 1) {
        StepsFromOnes(2 * a + 1, p - 1, s - Pow2(p - 1));
      } else {
        ParentOfPower(a, p, h);
        ClearOnes(2 * a + 1, p - 1, p - 1, h);
        StepsFromOnes(2 * a, p - 1, s);
      }
    }
  }

  /** From a power of two down to any height. */
  lemma {:induction false} StepsFromPower(p: nat, h: nat)
    requires p > 0 && h <= Pow2(p)
    ensures Steps(Pow2(p), h) <= WorstFromOnes(p)
  {
    hide GetAncestorHeight;
    if h < Pow2(p) {
      SkipLastBit(0, p + 1, p);
      ShlZero(p + 1);
      ShlZero(p);
      InvertLower(0);
      StepsFromOnes(0, p, h);
    }
  }

  /** From a power of two the first step to height 1 is a parent step. */
  lemma {:induction false} PowerToOne(p: nat)
    requires p > 0
    ensures Steps(Pow2(p), 1) == 1 + Steps(Pow2(p) - 1, 1)
  {
    hide GetAncestorHeight, InvertLowestOne, Shl, Steps;
    SkipLastBit(0, p + 1, p);
    ShlZero(p + 1);
    InvertLower(0);
    StepToParent(Pow2(p), 1);
  }

  /** The bound is reached at height 1. */
  lemma {:induction false} StepsToOne(p: nat)
    requires p > 0
    ensures Steps(Pow2(p), 1) == WorstFromOnes(p)
  {
    hide GetAncestorHeight, InvertLowestOne, Steps, Shl;
    PowerToOne(p);
    if p > 1 {
      StepsToOne(p - 1);
      ShlZero(p);
      ParentOfPower(0, p, 1);
      ClearOnes(1, p - 1, p - 1, 1);
    } else {
      NoSteps(1);
    }
  }

  /** From height 2^29 at most 330 links are followed, and that many are needed to reach height 1. */
  lemma {:induction false} DocumentedWorstCase(h: nat)
    requires h <= Pow2(29)
    ensures Steps(Pow2(29), h) <= 330
    ensures Steps(Pow2(29), 1) == 330
  {
    hide Steps, Pow2;
    WorstIsTriangular(14);
    TriangleClosedForm(14);
    StepsFromPower(29, h);
    StepsToOne(29);
  }

  // ----- the general bound -----

  lemma {:induction false} ClearAnyBits(a: nat, p: nat, r: nat, h: nat)
    requires r < Pow2(p) && InvertLowestOne(Shl(a, p)) <= h < Shl(a, p)
    ensures Steps(Shl(a, p) + r, h) <= 3 * p / 2 + Steps(Shl(a, p), h)
  {
    hide GetAncestorHeight, InvertLowestOne, Steps;
    PopCountAtMostBitLen(r);
    BitLenBound(r, p);
    if PopCount(r) % 2 == 0 {
      ClearEvenBits(a, p, r, h);
    } else {
      ClearOddBits(a, p, r, h);
    }
  }

  lemma {:induction false} ClearOddBits(a: nat, p: nat, r: nat, h: nat)
    requires r < Pow2(p) && PopCount(r) % 2 == 1 && InvertLowestOne(Shl(a, p)) <= h < Shl(a, p)
    ensures Steps(Shl(a, p) + r, h) <= 3 * p / 2 + Steps(Shl(a, p), h)
  {
    hide GetAncestorHeight, InvertLowestOne, Steps, Shl, PopCount;
    PopCountPositive(r);
    BelowPow2BitLen(r);
    BitLenBound(r, p);
    var q := BitLen(r) - 1;
    var s := r - Pow2(q);
    TopBitPopCount(r, q);
    PopCountAtMostBitLen(s);
    BitLenBound(s, q);
    PrefixWithBit(a, p, q);
    ClearEvenBits(Shl(a, p - q) + 1, q, s, h);
    ClearLastBit(a, p, q, h);
  }

  lemma {:induction false} TopBitPopCount(r: nat, q: nat)
    requires Pow2(q) <= r < 2 * Pow2(q)
    ensures PopCount(r) == 1 + PopCount(r - Pow2(q))
  {
    if q > 0 {
      var top := Pow2(q - 1);
      TopBitPopCount(r / 2, q - 1);
      assert (r - 2 * top) / 2 == r / 2 - top && (r - 2 * top) % 2 == r % 2;
    } else {
      PopCountOfOne();
      assert PopCount(0) == 0;
    }
  }

  function Triangle(m: nat): nat {
    if m == 0 then 0 else Triangle(m - 1) + m
  }

  lemma {:induction false} TriangleClosedForm(m: nat)
    ensures 2 * Triangle(m) == m * m + m
  {
    if m > 0 {
      TriangleClosedForm(m - 1);
      assert (m - 1) * (m - 1) == m * m - 2 * m + 1;
    }
  }

  lemma {:induction false} WorstIsTriangular(m: nat)
    ensures WorstFromOnes(2 * m) == 3 * Triangle(m)
    ensures WorstFromOnes(2 * m + 1) == 3 * Triangle(m) + m + 1
  {
    assert OnesCost(2 * m) == m;
    if m > 0 {
      WorstIsTriangular(m - 1);
      assert OnesCost(2 * m - 1) == 2 * m - 1;
    }
  }

  /** One level of the general bound: the square grows faster than a descent costs. */
  lemma {:induction false} LevelFitsSquare(p: nat)
    requires p > 0
    ensures 3 * (p - 1) / 2 + 1 + WorstFromOnes(p - 1) <= p * p
  {
    hide WorstFromOnes, Triangle;
    var m := (p - 1) / 2;
    WorstIsTriangular(m);
    TriangleClosedForm(m);
    SquareOfHalves(m);
  }

  lemma {:induction false} SquareOfHalves(m: nat)
    ensures (2 * m + 1) * (2 * m + 1) == 4 * (m * m) + 4 * m + 1
    ensures (2 * m + 2) * (2 * m + 2) == 4 * (m * m) + 8 * m + 4
    ensures m * m >= 0
  {
  }

  lemma {:induction false} StepsBelowPrefix(a: nat, p: nat, x: nat, h: nat)
    requires h <= x < Pow2(p)
    ensures Steps(Shl(a, p) + x, Shl(a, p) + h) <= p * p
    decreases p
  {
    hide GetAncestorHeight, InvertLowestOne, Steps, Shl, WorstFromOnes;
    if p > 0 {
      ShlBit(a, p);
      var top := Pow2(p - 1);
      SquareStep(p);
      if h >= top {
        StepsBelowPrefix(2 * a + 1, p - 1, x - top, h - top);
      } else if x < top {
        StepsBelowPrefix(2 * a, p - 1, x, h);
      } else {
        ParentOfPower(a, p, Shl(a, p) + h);
        ClearAnyBits(2 * a + 1, p - 1, x - top, Shl(a, p) + h);
        StepsFromOnes(2 * a, p - 1, h);
        LevelFitsSquare(p);
      }
    } else {
      NoSteps(Shl(a, p) + x);
    }
  }

  lemma {:induction false} SquareStep(p: nat)
    requires p > 0
    ensures (p - 1) * (p - 1) <= p * p
  {
  }

  lemma {:induction false} NoSteps(h: nat)
    ensures Steps(h, h) == 0
  {
  }

  /** The skip search is quadratic in the number of binary digits of the starting height. */
  lemma {:induction false} StepsQuadratic(from: nat, to: nat)
    requires to <= from
    ensures Steps(from, to) <= BitLen(from) * BitLen(from)
  {
    BelowPow2BitLen(from);
    ShlZero(BitLen(from));
    StepsBelowPrefix(0, BitLen(from), from, to);
  }
}
