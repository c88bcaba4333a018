/**
 Why multiplying by a reciprocal divides exactly.

 A divisor b with 2^l <= b < 2^(l+1) gets the scale p = 2^l and a multiplier near
 p * 2^64 / b. Everything here is about plain integers; module Div64 shows that
 the wrapping 64-bit code computes these integers.
 */
module Reciprocal {
  import opened Arith
  import opened Words

  /** ((bias ? m : 0) + m * n) >> 64, divided by the scale p. */
  function Approx(m: nat, p: nat, bias: bool, n: nat): (r: nat)
    requires p > 0
  {
    ((if bias then m else 0) + m * n) / B64 / p
  }

  /** The multiplier with its scale divides every 64-bit word by b. */
  ghost predicate DividesAll(m: nat, p: nat, bias: bool, b: nat)
    requires p > 0 && b > 0
  {
    forall n: u64 :: Approx(m, p, bias, n) == n / b
  }

  function Scale(b: u32): (p: nat)
    requires b > 0
    ensures p > 0
  {
    Pow2(ILog2(b))
  }

  /** p * 2^64, the numerator of the reciprocal. */
  function Numerator(b: u32): (d: nat)
    requires b > 0
    ensures d > 0
  {
    Scale(b) * B64
  }

  /** The reciprocal rounded up and rounded down. */
  function RoundUp(b: u32): (r: nat) requires b > 0 { (Numerator(b) + b - 1) / b }
  function RoundDown(b: u32): (r: nat) requires b > 0 { Numerator(b) / b }

  /** The one dividend the rounded-up reciprocal is tried at. */
  function TestPoint(b: u32): (r: u64)
    requires b > 0
  {
    TestPointRange(b);
    MAX64 / b * b - 1
  }

  ghost predicate TestPasses(b: u32)
    requires b > 0
  {
    Approx(RoundUp(b), Scale(b), false, TestPoint(b)) == TestPoint(b) / b
  }

  lemma ApproxIsOneDivision(m: nat, p: nat, bias: bool, n: nat)
    requires p > 0
    ensures p * B64 > 0 && Approx(m, p, bias, n) == (if bias then m * (n + 1) else m * n) / (p * B64)
  {
    Dist(n, 1, m);
    NestedDiv((if bias then m else 0) + m * n, B64, p);
  }

  // --- the scale and the test point

  lemma ScaleBounds(b: u32)
    requires b > 0
    ensures 1 <= Scale(b) <= b < 2 * Scale(b) && ILog2(b) <= 31 && Scale(b) <= 0x8000_0000
    ensures !IsPow2(b) ==> Scale(b) < b
  {
    Pow2Values();
    if ILog2(b) > 31 { Pow2Mono(32, ILog2(b)); assert false; }
    Pow2Mono(ILog2(b), 31);
  }

  lemma TestPointRange(b: u32)
    requires b > 0
    ensures 0 <= MAX64 / b * b - 1 < B64
  {
    var q := MAX64 / b;
    assert MAX64 == q * b + MAX64 % b;
    QuotientIff(MAX64, b, 0);
    Le(1, q, b);
  }

  lemma TestPointQuotient(b: u32)
    requires b > 0
    ensures TestPoint(b) % b == b - 1 && TestPoint(b) / b == MAX64 / b - 1
  {
    TestPointRange(b);
    Dist(MAX64 / b, 1, b);
    DivModUnique(TestPoint(b), b, MAX64 / b - 1, b - 1);
  }

  /** Unless b divides 2^64, TestPoint(b) is the largest word whose remainder is b - 1. */
  lemma TestPointIsWorst(b: u32, n: u64)
    requires b > 0 && !IsPow2(b) && n % b == b - 1
    ensures n <= TestPoint(b)
  {
    hide IsPow2, TestPoint;
    TestPointIs(b, MAX64 / b);
    SplitBy(n, b);
    WorstNamed(b, n, n / b, MAX64 / b);
  }

  lemma TestPointIs(b: u32, q: nat)
    requires b > 0 && q == MAX64 / b
    ensures TestPoint(b) == q * b - 1
  {}

  lemma WorstNamed(b: u32, n: u64, k: nat, q: nat)
    requires b > 0 && !IsPow2(b) && n == k * b + (b - 1) && q == MAX64 / b
    ensures n <= q * b - 1
  {
    hide IsPow2;
    if k >= q {
      NoFullQuotient(b, q, k);
      assert false;
    }
    WorstBelow(b, q, k);
  }

  lemma NoFullQuotient(b: u32, q: nat, k: nat)
    requires b > 0 && k >= q == MAX64 / b && k * b + (b - 1) <= MAX64
    ensures IsPow2(b)
  {
    hide IsPow2;
    SplitBy(MAX64, b);
    Le(q, k, b);
    Dist(q, 1, b);
    NoDivisorOf64(b, q + 1);
  }

  lemma WorstBelow(b: u32, q: nat, k: nat)
    requires k < q
    ensures k * b + (b - 1) <= q * b - 1
  {
    Le(k, q - 1, b);
    Dist(q, 1, b);
  }

  lemma NoDivisorOf64(b: nat, c: nat)
    requires b * c == B64
    ensures IsPow2(b)
  {
    Pow2Values();
    hide Pow2, IsPow2;
    DivisorOfPow2(b, c, 64);
  }

  // --- the error of the two reciprocals

  /** An over-estimate m of d / b divides n exactly when its overshoot e is small enough for n. */
  lemma OverApprox(m: nat, d: nat, b: nat, e: nat, n: nat)
    requires d > 0 && b > 0 && m * b == d + e
    ensures m * n / d == n / b <==> n * e < (b - n % b) * d
  {
    OverApproxScaled(m, d, b, e, n, n / b, n % b);
    OverApproxOrder(m * n, n / b, d, b, n % b * d, n * e);
    Dist(b, n % b, d);
  }

  /** The product m * n, scaled by b. */
  lemma OverApproxScaled(m: nat, d: nat, b: nat, e: nat, n: nat, q: nat, r: nat)
    requires m * b == d + e && b > 0 && q == n / b && r == n % b
    ensures (m * n) * b == (q * d) * b + r * d + n * e && r * d >= 0 && n * e >= 0
  {
    Swap(m, n, b);
    Dist(d, e, n);
    SplitDividend(n, b, d);
    Le(0, r, d);
    Le(0, n, e);
  }

  /** The same with the products named: x = m * n, rd = r * d, ne = n * e. */
  lemma OverApproxOrder(x: nat, q: nat, d: nat, b: nat, rd: nat, ne: nat)
    requires d > 0 && b > 0 && x * b == (q * d) * b + rd + ne
    ensures x / d == q <==> rd + ne < b * d
  {
    QuotientIff(x, d, q);
    ScaledOrder(x, q * d, d, b, rd + ne);
  }

  /** x lies between t and t + d exactly when the excess of x * b over t * b is less than b * d. */
  lemma ScaledOrder(x: int, t: int, d: nat, b: nat, f: nat)
    requires b > 0 && x * b == t * b + f
    ensures t <= x < t + d <==> f < b * d
  {
    LtIff(x, t, b);
    LtIff(x, t + d, b);
    Dist(t, d, b);
  }

  /** With the bias, an under-estimate m of d / b divides every n < w once its shortfall is at most d / w. */
  lemma UnderApprox(m: nat, d: nat, b: nat, e: nat, n: nat, w: nat)
    requires d > 0 && b > 0 && m * b + e == d && e > 0 && w * e <= d && n < w
    ensures m * (n + 1) / d == n / b
  {
    UnderApproxScaled(m, d, b, e, n, n / b, n % b);
    ShortfallRange(n, n % b, d, b, e, w);
    UnderApproxOrder(m * (n + 1), n / b, d, b, (n % b + 1) * d - (n + 1) * e);
  }

  lemma UnderApproxScaled(m: nat, d: nat, b: nat, e: nat, n: nat, q: nat, r: nat)
    requires m * b + e == d && b > 0 && q == n / b && r == n % b
    ensures (m * (n + 1)) * b == (q * d) * b + (r + 1) * d - (n + 1) * e
  {
    Swap(m, n + 1, b);
    Dist(d, e, n + 1);
    SplitDividend(n, b, d);
    Dist(n, 1, d);
    Dist(r, 1, d);
  }

  lemma ShortfallRange(n: nat, r: nat, d: nat, b: nat, e: nat, w: nat)
    requires r < b && e > 0 && w * e <= d && n < w
    ensures 0 <= (r + 1) * d - (n + 1) * e < b * d
  {
    Le(n + 1, w, e);
    Le(1, r + 1, d);
    Le(r + 1, b, d);
    Lt(0, n + 1, e);
  }

  lemma UnderApproxOrder(x: int, q: int, d: nat, b: nat, f: nat)
    requires d > 0 && b > 0 && x * b == (q * d) * b + f && f < b * d
    ensures x / d == q
  {
    QuotientIff(x, d, q);
    ScaledOrder(x, q * d, d, b, f);
  }

  lemma CeilOvershoot(d: nat, b: nat, m: nat)
    requires b > 0 && m == (d + b - 1) / b
    ensures d <= m * b < d + b
    ensures d < m * b ==> d / b == m - 1 && d % b == b - (m * b - d)
  {
    assert d + b - 1 == m * b + (d + b - 1) % b;
    if d < m * b {
      Dist(m, 1, b);
      DivModUnique(d, b, m - 1, b - (m * b - d));
    }
  }

  /** The rounded-up reciprocal lies in the upper half of a w-valued word. */
  lemma RoundUpRange(m: nat, b: nat, p: nat, w: nat, e: nat)
    requires m * b == p * w + e && e < b && p < b < 2 * p && b < w && w % 2 == 0
    ensures w / 2 <= m < w
  {
    RoundUpBelow(m, b, p, w, e);
    RoundUpAbove(m, b, p, w / 2, e);
  }

  lemma RoundUpBelow(m: nat, b: nat, p: nat, w: nat, e: nat)
    requires m * b == p * w + e && e < b && p < b < w
    ensures m < w
  {
    Le(p, b - 1, w);
    Dist(b, 1, w);
    LtIff(m, w, b);
  }

  lemma RoundUpAbove(m: nat, b: nat, p: nat, h: nat, e: nat)
    requires m * b == p * (2 * h) + e && 0 < b < 2 * p
    ensures m >= h
  {
    Swap(p, 2, h);
    Le(b, 2 * p, h);
    LtIff(m, h, b);
  }

  lemma RoundUpOvershoot(b: u32)
    requires b > 0
    ensures Numerator(b) <= RoundUp(b) * b < Numerator(b) + b
    ensures Numerator(b) < RoundUp(b) * b ==>
              RoundDown(b) == RoundUp(b) - 1 && Numerator(b) % b == b - (RoundUp(b) * b - Numerator(b))
  {
    CeilOvershoot(Numerator(b), b, RoundUp(b));
  }

  lemma NumeratorIsPow2(b: u32)
    requires b > 0
    ensures Numerator(b) == Pow2(ILog2(b) + 64)
  {
    hide Pow2, ILog2;
    Pow2Values();
    Pow2Add(ILog2(b), 64);
  }

  /** Only a power of two divides p * 2^64. */
  lemma NumeratorDivisor(b: u32, c: nat)
    requires b > 0 && c * b == Numerator(b)
    ensures IsPow2(b)
  {
    hide Pow2, ILog2, IsPow2, Numerator;
    NumeratorIsPow2(b);
    assert c > 0;
    DivisorOfPow2(b, c, ILog2(b) + 64);
  }

  /** Unless b is a power of two, the rounded-up reciprocal overshoots, by less than b. */
  lemma RoundUpError(b: u32) returns (e: nat)
    requires b > 0 && !IsPow2(b)
    ensures RoundUp(b) * b == Numerator(b) + e && 0 < e < b
    ensures B64 / 2 <= RoundUp(b) < B64
    ensures RoundDown(b) == RoundUp(b) - 1 && Numerator(b) % b == b - e
  {
    RoundUpOvershoot(b);
    ScaleBounds(b);
    hide Scale, RoundUp, RoundDown, IsPow2;
    e := RoundUp(b) * b - Numerator(b);
    if e == 0 {
      NumeratorDivisor(b, RoundUp(b));
      assert false;
    }
    RoundUpRange(RoundUp(b), b, Scale(b), B64, e);
  }

  /** Correctness of an unbiased over-estimate at n, in terms of its overshoot. */
  lemma ApproxIff(m: nat, p: nat, b: nat, e: nat, n: nat)
    requires p > 0 && b > 0 && m * b == p * B64 + e
    ensures Approx(m, p, false, n) == n / b <==> n * e < (b - n % b) * (p * B64)
  {
    ApproxIsOneDivision(m, p, false, n);
    OverApprox(m, p * B64, b, e, n);
  }

  /** What passing the test means: the overshoot is small at the test point. */
  lemma TestIff(b: u32, e: nat)
    requires b > 0 && RoundUp(b) * b == Numerator(b) + e
    ensures TestPasses(b) <==> TestPoint(b) * e < Numerator(b)
  {
    hide TestPoint, RoundUp, Scale, Approx;
    TestPointQuotient(b);
    ApproxIff(RoundUp(b), Scale(b), b, e, TestPoint(b));
  }

  // --- the three strategies

  /** One test point is decisive: the rounded-up multiplier is right there exactly when it is right everywhere. */
  lemma OnePointDecides(b: u32)
    requires b > 0 && !IsPow2(b)
    ensures TestPasses(b) <==> DividesAll(RoundUp(b), Scale(b), false, b)
  {
    var e := RoundUpError(b);
    TestIff(b, e);
    if TestPasses(b) {
      forall n: u64 ensures Approx(RoundUp(b), Scale(b), false, n) == n / b {
        SmallOvershootDividesAt(b, e, n);
        ApproxIff(RoundUp(b), Scale(b), b, e, n);
      }
    }
  }

  lemma SmallOvershootDividesAt(b: u32, e: nat, n: u64)
    requires b > 0 && !IsPow2(b) && e < b && TestPoint(b) * e < Numerator(b)
    ensures n * e < (b - n % b) * Numerator(b)
  {
    var d, r := Numerator(b), n % b;
    if r == b - 1 {
      TestPointIsWorst(b, n);
      Le(n, TestPoint(b), e);
    } else {
      ScaleBounds(b);
      ProductBelow(n, e, B64, 2 * Scale(b));
      Le(2, b - r, d);
    }
  }

  /**
   The bias is there because it has to be: when the test fails, no 64-bit
   multiplier with any power-of-two scale divides every word without it.
   */
  lemma BiasUnavoidable(b: u32, m: u64, k: nat)
    requires b > 0 && !IsPow2(b) && !TestPasses(b)
    ensures !DividesAll(m, Pow2(k), false, b)
  {
    hide Approx, DividesAll, TestPoint, TestPasses, IsPow2, Pow2;
    if m * b < Pow2(k) * B64 {
      UnderEstimateFails(m, Pow2(k), b);
    } else {
      OvershootAtTestPoint(b, m, k, m * b - Pow2(k) * B64);
      OverEstimateFails(m, Pow2(k), b, m * b - Pow2(k) * B64);
    }
  }

  /** One wrong quotient refutes a multiplier. */
  lemma WrongAt(m: nat, p: nat, b: nat, n: u64)
    requires p > 0 && b > 0 && Approx(m, p, false, n) != n / b
    ensures !DividesAll(m, p, false, b)
  {}

  /** An under-estimate gives 0 for b / b. */
  lemma UnderEstimateFails(m: nat, p: nat, b: u32)
    requires p > 0 && b > 0 && m * b < p * B64
    ensures !DividesAll(m, p, false, b)
  {
    hide Approx, DividesAll;
    ApproxIsOneDivision(m, p, false, b);
    DivModUnique(m * b, p * B64, 0, m * b);
    DivModUnique(b, b, 1, 0);
    WrongAt(m, p, b, b);
  }

  /** An over-estimate that overshoots too much is wrong at the test point. */
  lemma OverEstimateFails(m: nat, p: nat, b: u32, e: nat)
    requires p > 0 && b > 0 && m * b == p * B64 + e && TestPoint(b) * e >= p * B64
    ensures !DividesAll(m, p, false, b)
  {
    hide Approx, DividesAll, TestPoint;
    TestPointQuotient(b);
    ApproxIff(m, p, b, e, TestPoint(b));
    WrongAt(m, p, b, TestPoint(b));
  }

  lemma OvershootAtTestPoint(b: u32, m: u64, k: nat, e: nat)
    requires b > 0 && !IsPow2(b) && !TestPasses(b) && m * b == Pow2(k) * B64 + e
    ensures TestPoint(b) * e >= Pow2(k) * B64
  {
    hide TestPoint, TestPasses, RoundUp, IsPow2, Pow2, ILog2;
    ScaleIsSmall(b, m, k);
    var x, p, j := TestPoint(b), Pow2(k), Pow2(ILog2(b) - k);
    Pow2Add(k, ILog2(b) - k);
    var e' := RoundUpError(b);
    TestIff(b, e');
    assert Numerator(b) == (p * B64) * j by { Swap(p, B64, j); }
    OvershootGrows(m, RoundUp(b), b, p * B64, j, e, e');
    Le(e', e * j, x);
    Swap(x, e, j);
    LtIff(x * e, p * B64, j);
  }

  lemma ScaleIsSmall(b: u32, m: u64, k: nat)
    requires b > 0 && m * b >= Pow2(k) * B64
    ensures k <= ILog2(b)
  {
    if k > ILog2(b) {
      Pow2Mono(ILog2(b) + 1, k);
      Le(b, Pow2(k), B64);
      Lt(m, B64, b);
      assert false;
    }
  }

  /** Refining the scale by a factor j cannot bring the overshoot below that of the rounded-up reciprocal. */
  lemma OvershootGrows(m: nat, m': nat, b: nat, d: nat, j: nat, e: nat, e': nat)
    requires b > 0 && m * b == d + e && m' * b == d * j + e' && e' < b
    ensures e * j >= e'
  {
    assert (m * j) * b == d * j + e * j by { Swap(m, j, b); Dist(d, e, j); }
    assert e * j >= 0;
    if m * j < m' {
      Le(m * j, m' - 1, b);
      Dist(m', 1, b);
      assert false;
    }
    Le(m', m * j, b);
  }

  /** The test decides exactly whether the bias is needed. */
  lemma TestDecidesBias(b: u32)
    requires b > 0 && !IsPow2(b)
    ensures TestPasses(b) <==> exists m: u64, k: nat :: DividesAll(m, Pow2(k), false, b)
  {
    if TestPasses(b) {
      UnbiasedExists(b);
    } else if m: u64, k: nat :| DividesAll(m, Pow2(k), false, b) {
      BiasUnavoidable(b, m, k);
      assert false;
    }
  }

  lemma UnbiasedExists(b: u32)
    requires b > 0 && !IsPow2(b) && TestPasses(b)
    ensures exists m: u64, k: nat :: DividesAll(m, Pow2(k), false, b)
  {
    OnePointDecides(b);
    var m := WordMultiplier(b);
    var k := ILog2(b);
    assert DividesAll(m, Pow2(k), false, b);
  }

  lemma WordMultiplier(b: u32) returns (m: u64)
    requires b > 0 && !IsPow2(b)
    ensures m == RoundUp(b)
  {
    var _ := RoundUpError(b);
    m := RoundUp(b);
  }

  /** After a failed test the rounded-down reciprocal falls short by less than the scale. */
  lemma FailureBoundsShortfall(b: u32)
    requires b > 0 && !IsPow2(b) && !TestPasses(b)
    ensures 0 < Numerator(b) % b < Scale(b)
  {
    var e := RoundUpError(b);
    var p := Scale(b);
    ScaleBounds(b);
    TestIff(b, e);
    if e <= p {
      Le(e, p, TestPoint(b));
      Lt(TestPoint(b), B64, p);
      assert false;
    }
  }

  /** So the biased product is exact for every word. */
  lemma BiasDividesAll(b: u32)
    requires b > 0 && !IsPow2(b) && !TestPasses(b)
    ensures DividesAll(RoundDown(b), Scale(b), true, b)
  {
    FailureBoundsShortfall(b);
    ShortfallOf(b);
    hide RoundDown, Numerator, Scale;
    forall n: u64 ensures Approx(RoundDown(b), Scale(b), true, n) == n / b {
      BiasDividesAt(RoundDown(b), Scale(b), b, Numerator(b) % b, n);
    }
  }

  lemma ShortfallOf(b: u32)
    requires b > 0
    ensures RoundDown(b) * b + Numerator(b) % b == Scale(b) * B64
  {
    hide Scale;
    SplitBy(Numerator(b), b);
  }

  lemma BiasDividesAt(m: nat, p: nat, b: nat, e: nat, n: u64)
    requires b > 0 && m * b + e == p * B64 && 0 < e <= p
    ensures Approx(m, p, true, n) == n / b
  {
    Le(e, p, B64);
    ApproxIsOneDivision(m, p, true, n);
    UnderApprox(m, p * B64, b, e, n, B64);
  }

  /** Cancelling a common factor of multiplier and scale changes nothing. */
  lemma ReductionKeepsMeaning(m: nat, p: nat, c: nat, n: nat)
    requires p > 0 && c > 0
    ensures c * p > 0 && Approx(c * m, c * p, false, n) == Approx(m, p, false, n)
  {
    ApproxIsOneDivision(m, p, false, n);
    Lt(0, c, p);
    ApproxIsOneDivision(c * m, c * p, false, n);
    Swap(c, m, n);
    Swap(c, p, B64);
    CancelFactor(m * n, p * B64, c);
  }

  /** The lowest set bit of the rounded-up reciprocal divides the scale. */
  lemma LowBitDividesScale(b: u32)
    requires b > 0 && !IsPow2(b)
    ensures RoundUp(b) > 0 && LowIndex(RoundUp(b)) <= ILog2(b)
  {
    hide RoundUp, Numerator, IsPow2, Pow2, ILog2, LowIndex, LowBit;
    var e := RoundUpError(b);
    var m := RoundUp(b);
    var k := LowIndex(m);
    if k > ILog2(b) {
      // 2^k divides m * b and p * 2^64, hence also e, which is smaller
      Pow2Values();
      LowIndexBound(m, 64);
      var f := NumeratorFactor(b, k);
      var c := OddPart(m);
      LowBitIs(m);
      Swap(c, Pow2(k), b);
      NoSmallMultiple(c * b, f, Pow2(k), e);
      assert false;
    }
  }

  lemma LowBitIs(m: nat)
    requires m > 0
    ensures LowBit(m) == Pow2(LowIndex(m))
  {}

  lemma NumeratorFactor(b: u32, k: nat) returns (f: nat)
    requires b > 0 && ILog2(b) < k <= 64
    ensures Numerator(b) == f * Pow2(k) && b < Pow2(k)
  {
    hide Pow2, ILog2, Numerator;
    NumeratorIsPow2(b);
    BelowNextPow2(b);
    ScaleBounds(b);
    Pow2Mono(ILog2(b) + 1, k);
    f := Pow2Factor(ILog2(b) + 64, k);
  }

  lemma BelowNextPow2(b: nat)
    requires b > 0
    ensures b < Pow2(ILog2(b) + 1)
  {}

  lemma Pow2Factor(e: nat, k: nat) returns (f: nat)
    requires k <= e
    ensures Pow2(e) == f * Pow2(k)
  {
    Pow2Add(e - k, k);
    f := Pow2(e - k);
  }

  lemma NoSmallMultiple(x: nat, y: nat, d: nat, e: int)
    requires x * d == y * d + e && 0 <= e < d
    ensures e == 0
  {
    if x > y { Le(y + 1, x, d); Dist(y, 1, d); assert false; }
    if x < y { Le(x + 1, y, d); Dist(x, 1, d); assert false; }
  }

  /** The special branch: when m = (2^64 - 1) / c is exact, m * (n + 1) >> 64 divides by c. */
  lemma ExactReciprocal(m: nat, c: nat)
    requires c > 0 && m * c == MAX64
    ensures DividesAll(m, 1, true, c)
  {
    Lt(0, m, c);
    forall n: u64 ensures Approx(m, 1, true, n) == n / c {
      BiasDividesAt(m, 1, c, 1, n);
    }
  }
}
