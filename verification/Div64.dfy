/**
 The 64-by-32 division macros of u-boot/include/div64.h, in wrapping words,
 proved against `/` and `%` on the integers.
 */
module Div64 {
  import opened Arith
  import opened Words
  import opened Reciprocal

  /** (1ULL << 63) | (1ULL << 31): with both bits of m clear, the cross products leave room for a carry. */
  const CARRY_BITS: u64 := 0x8000_0000_8000_0000

  predicate CarryFree(m: u64) { And(m, CARRY_BITS) == 0 }

  // --- __arch_xprod_64

  lemma {:induction false} BitPow2(k: nat, i: nat)
    ensures Bit(Pow2(k), i) <==> i == k
    decreases i
  {
    if k == 0 {
      if i > 0 { BitZero(i - 1); }
    } else {
      if i > 0 { BitPow2(k - 1, i - 1); }
    }
  }

  lemma TopBit(x: nat, k: nat)
    requires x < Pow2(k + 1)
    ensures Bit(x, k) <==> x >= Pow2(k)
  {
    hide Bit, Pow2;
    Pow2Step(k + 1);
    if x < Pow2(k) {
      BitAbove(x, k, k);
    } else {
      BitComplement(x, k + 1, k);
      BitAbove(Pow2(k + 1) - 1 - x, k, k);
    }
  }

  lemma BitCarryBits(i: nat)
    ensures Bit(CARRY_BITS, i) <==> i == 63 || i == 31
  {
    Pow2Values();
    BitShl(0x1_0000_0001, 31, i);
    if i > 31 { BitPow2(31, i - 32); }
  }

  lemma CarryFreeBits(m: u64)
    ensures CarryFree(m) <==> !Bit(m, 63) && !Bit(m, 31)
  {
    forall i: nat ensures Bit(And(m, CARRY_BITS), i) <==> Bit(m, i) && (i == 63 || i == 31) {
      BitAnd(m, CARRY_BITS, i);
      BitCarryBits(i);
    }
    BitZero(63);
    BitZero(31);
    if !Bit(m, 63) && !Bit(m, 31) {
      Pow2Values();
      hide Pow2;
      forall i: nat | i < 64 ensures Bit(And(m, CARRY_BITS), i) <==> Bit(0, i) { BitZero(i); }
      SameBits(And(m, CARRY_BITS), 0, 64);
    }
  }

  lemma CarryFreeHalves(m: u64)
    requires CarryFree(m)
    ensures U32(m) < 0x8000_0000 && m / B32 < 0x8000_0000
  {
    hide Bit, Pow2;
    CarryFreeBits(m);
    Pow2Values();
    BitMod(m, 32, 31);
    TopBit(U32(m), 31);
    TopBit(m, 63);
  }

  /** The product of two halves; the smaller the first factor, the more room is left. */
  lemma HalfProduct(x: u32, y: u32, bound: nat)
    requires x < bound <= B32
    ensures WideMul(x, y) <= (bound - 1) * (B32 - 1)
  {
    Le(x, bound - 1, y);
    Le(y, B32 - 1, bound - 1);
  }

  lemma SplitProduct(m: u64, n: u64)
    ensures m * n == m / B32 * (n / B32) * B64 + (U32(m) * (n / B32) + m / B32 * U32(n)) * B32 + U32(m) * U32(n)
  {
    var a, b, c, d := m / B32, U32(m), n / B32, U32(n);
    assert m == a * B32 + b && n == c * B32 + d;
    Schoolbook(a, b, c, d, B32);
    assert B32 * B32 == B64;
    Swap(a * c, B32, B32);
  }

  lemma Schoolbook(a: nat, b: nat, c: nat, d: nat, w: nat)
    ensures (a * w + b) * (c * w + d) == a * c * w * w + (b * c + a * d) * w + b * d
  {
    Dist(a * w, b, c * w + d);
    Dist(b * c, a * d, w);
    Swap(a, w, c * w + d);
  }

  /** Adding up the four products column by column gives the high word of c + m * n. */
  lemma ColumnSum(c: nat, ll: nat, lh: nat, hl: nat, hh: nat)
    ensures ((c + ll) / B32 + lh + hl) / B32 + hh == (c + hh * B64 + (lh + hl) * B32 + ll) / B64
  {
    var s := (c + ll) / B32 + lh + hl;
    assert (c + ll + (lh + hl) * B32) / B32 == s;
    NestedDiv(c + ll + (lh + hl) * B32, B32, B32);
  }

  /** ((bias ? m : 0) + m * n) >> 64 on integers, the stated semantics of __arch_xprod_64. */
  function HighWord(m: u64, n: u64, bias: bool): (r: u64) {
    HighWordFits(m, n, bias);
    ((if bias then m else 0) + m * n) / B64
  }

  lemma HighWordFits(m: u64, n: u64, bias: bool)
    ensures 0 <= ((if bias then m else 0) + m * n) / B64 < B64
  {
    Le(n + 1, B64, m);
    Dist(n, 1, m);
    assert m * n >= 0;
  }

  /** Comparing a wrapped sum with one operand recovers exactly the lost carry. */
  lemma CarryRecovered(x: u64, y: u64)
    ensures Add64(x, y) / B32 + (if Add64(x, y) < x then B32 else 0) == (x + y) / B32
  {
    if x + y < B64 {
      assert Add64(x, y) == x + y;
    } else {
      assert Add64(x, y) == x + y - B64;
    }
  }

  /** The bound on the product of a half of m with any half word. */
  function HalfBound(m: u64): (r: nat) {
    if CarryFree(m) then 0x7fff_ffff * 0xffff_ffff else 0xffff_ffff * 0xffff_ffff
  }

  /** What the four half products are, and what they add up to. */
  lemma FourProducts(m: u64, n: u64, bias: bool)
    ensures CarryFree(m) ==> m < 0x8000_0000_0000_0000 - 0x8000_0000
    ensures var ll, lh, hl, hh := WideMul(U32(m), U32(n)), WideMul(U32(m), n / B32), WideMul(m / B32, U32(n)), WideMul(m / B32, n / B32);
            && ll <= HalfBound(m) && lh <= HalfBound(m) && hl <= HalfBound(m)
            && (((if bias then m else 0) + ll) / B32 + lh + hl) / B32 + hh == HighWord(m, n, bias)
  {
    if CarryFree(m) { CarryFreeHalves(m); }
    var bound := if CarryFree(m) then 0x8000_0000 else B32;
    HalfProduct(U32(m), U32(n), bound);
    HalfProduct(U32(m), n / B32, bound);
    HalfProduct(m / B32, U32(n), bound);
    HalfProduct(m / B32, n / B32, bound);
    ColumnSum(if bias then m else 0, U32(m) * U32(n), U32(m) * (n / B32), m / B32 * U32(n), m / B32 * (n / B32));
    SplitProduct(m, n);
  }

  lemma AddFits(x: u64, y: u64)
    requires x + y < B64
    ensures Add64(x, y) == x + y
  {}

  /** The column of m_lo * n_lo, with the bias: the first if-chain of the function. */
  method LowColumn(m: u64, ll: u64, bias: bool) returns (res: u64)
    requires ll <= HalfBound(m) && (CarryFree(m) ==> m < 0x8000_0000_0000_0000 - 0x8000_0000)
    ensures res == ((if bias then m else 0) + ll) / B32
  {
    hide And, Add64, U64;
    if !bias {
      res := ll / B32;
    } else if And(m, CARRY_BITS) == 0 {
      AddFits(m, ll);
      res := Add64(m, ll) / B32;
    } else {
      CarryRecovered(m, ll);
      res := Add64(m, ll);
      var tmp: u64 := if res < m then B32 else 0;
      AddFits(res / B32, tmp);
      res := Add64(res / B32, tmp);
    }
  }

  /** The column of the two cross products, when the second addition may lose a carry. */
  method CrossSum(low: u64, lh: u64, hl: u64) returns (res: u64)
    requires low + lh < B64
    ensures res == (low + lh + hl) / B32
  {
    hide Add64, U64;
    AddFits(low, lh);
    res := Add64(low, lh);
    var tmp: u64 := res;
    CarryRecovered(res, hl);
    res := Add64(res, hl);
    tmp := if res < tmp then B32 else 0;
    AddFits(res / B32, tmp);
    res := Add64(res / B32, tmp);
  }

  /** The same column without a carry to lose. */
  method CrossSumFree(low: u64, lh: u64, hl: u64) returns (res: u64)
    requires low + lh + hl < B64
    ensures res == (low + lh + hl) / B32
  {
    hide Add64, U64;
    AddFits(low, lh);
    AddFits(low + lh, hl);
    res := Add64(low, lh);
    res := Add64(res, hl);
    res := res / B32;
  }

  /** The first partial sum of the cross column, which the code adds without looking for a carry. */
  function PartialSum(m: u64, n: u64, bias: bool): (r: nat) {
    ((if bias then m else 0) + WideMul(U32(m), U32(n))) / B32 + WideMul(U32(m), n / B32)
  }

  /** It never exceeds 2^64 - 1, */
  lemma PartialSumFits(m: u64, n: u64, bias: bool)
    ensures PartialSum(m, n, bias) <= MAX64
  {
    HalfProduct(U32(m), U32(n), B32);
    HalfProduct(U32(m), n / B32, B32);
    PartialSumOrder(if bias then m else 0, WideMul(U32(m), U32(n)), WideMul(U32(m), n / B32));
  }

  lemma PartialSumOrder(c: u64, ll: u64, lh: u64)
    requires ll <= 0xffff_ffff * 0xffff_ffff && lh <= 0xffff_ffff * 0xffff_ffff
    ensures (c + ll) / B32 + lh <= MAX64
  {
    assert (c + ll) / B32 <= 0x1_ffff_fffe;
  }

  /** and with the bias the bound is attained. */
  lemma PartialSumAttained()
    ensures PartialSum(MAX64, MAX64, true) == MAX64
  {
    assert U32(MAX64) == 0xffff_ffff && MAX64 / B32 == 0xffff_ffff;
  }

  method ArchXprod64(m: u64, n: u64, bias: bool) returns (res: u64)
    ensures res == HighWord(m, n, bias)
  {
    hide WideMul, And, HighWord, U32, U64, Add64;
    var mLo: u32, mHi: u32, nLo: u32, nHi: u32 := U32(m), m / B32, U32(n), n / B32;
    FourProducts(m, n, bias);
    PartialSumFits(m, n, bias);
    res := LowColumn(m, WideMul(mLo, nLo), bias);
    if And(m, CARRY_BITS) == 0 {
      res := CrossSumFree(res, WideMul(mLo, nHi), WideMul(mHi, nLo));
    } else {
      res := CrossSum(res, WideMul(mLo, nHi), WideMul(mHi, nLo));
    }
    AddFits(res, WideMul(mHi, nHi));
    res := Add64(res, WideMul(mHi, nHi));
  }

  // --- __div64_const32: building the multiplier

  /** 2^64 = q * b + (r + 1), scaled by p: how the two-piece construction avoids a 65-bit numerator. */
  lemma Pieces(q: nat, r: nat, b: u32, p: nat)
    requires MAX64 == q * b + r
    ensures p * B64 == (q * p) * b + (r + 1) * p
  {
    Dist(q * b, r + 1, p);
    Swap(q, b, p);
  }

  /** Neither piece wraps. */
  lemma PiecesFit(q: nat, r: nat, b: u32, p: nat)
    requires MAX64 == q * b + r && r < b && p <= b && p <= 0x8000_0000
    ensures 0 <= q * p <= MAX64 && 0 <= (r + 1) * p < B64 - B32
  {
    Le(p, b, q);
    Le(r + 1, b, p);
    Le(b, B32 - 1, p);
    Le(0, q, p);
    Le(0, r + 1, p);
  }

  /** Dividing the low piece of a number whose high piece is a multiple of b. */
  lemma DivPiece(h: nat, b: nat, x: nat, d: nat)
    requires b > 0 && d == h * b + x
    ensures h + x / b == d / b
  {
    assert x == x / b * b + x % b;
    Dist(h, x / b, b);
    DivModUnique(d, b, h + x / b, x % b);
  }

  /** The high piece h and the low piece x of p * 2^64, as the words the code computes. */
  lemma PieceWords(b: u32, p: u32) returns (h: u64, x: u64)
    requires b > 0 && p <= b && p <= 0x8000_0000
    ensures h == Mul64(Quo(MAX64, b), p) && x == Mul64(Add64(Rem(MAX64, b), 1), p)
    ensures p * B64 == h * b + x && x < B64 - B32
  {
    var q, r := Quo(MAX64, b), Rem(MAX64, b);
    assert MAX64 == q * b + r;
    Pieces(q, r, b, p);
    PiecesFit(q, r, b, p);
    h, x := q * p, (r + 1) * p;
    MulFits(q, p);
    MulFits(r + 1, p);
  }

  lemma MulFits(x: u64, y: u64)
    requires 0 <= x * y < B64
    ensures Mul64(x, y) == x * y
  {}

  /** The quotients of the pieces add up to the rounded reciprocals. */
  lemma PieceQuotients(b: u32, h: u64, x: u64)
    requires b > 0 && Scale(b) * B64 == h * b + x && x < B64 - B32
    ensures RoundUp(b) == h + Quo(x + b - 1, b) && RoundDown(b) == h + Quo(x, b)
  {
    DivPiece(h, b, x + b - 1, Numerator(b) + b - 1);
    DivPiece(h, b, x, Numerator(b));
  }

  lemma WordPieces(b: u32, p: u32) returns (h: u64, x: u64)
    requires b > 0 && p == Scale(b)
    ensures h == Mul64(Quo(MAX64, b), p) && x == Mul64(Add64(Rem(MAX64, b), 1), p) && x < B64 - B32
    ensures RoundUp(b) == h + Quo(x + b - 1, b) && RoundDown(b) == h + Quo(x, b)
  {
    hide Mul64, Quo, Rem, Scale, RoundUp, RoundDown;
    ScaleWord(b);
    h, x := PieceWords(b, p);
    PieceQuotients(b, h, x);
  }

  lemma RoundingFits(x: u64, b: u32)
    requires b > 0 && x < B64 - B32
    ensures Sub64(Add64(x, b), 1) == x + b - 1
  {}

  /** m = ((p << 64) + b - 1) / b in two pieces, modulo 2^64. */
  method RoundedUp(b: u32, p: u32) returns (m: u64)
    requires b > 0 && p == Scale(b)
    ensures m == U64(RoundUp(b))
  {
    hide U64, Mul64, Quo, Rem, Sub64, Scale, RoundUp, RoundDown;
    ghost var h, x := WordPieces(b, p);
    RoundingFits(x, b);
    m := Mul64(Quo(MAX64, b), p);
    m := Add64(m, Quo(Sub64(Add64(Mul64(Add64(Rem(MAX64, b), 1), p), b), 1), b));
  }

  /** m = (p << 64) / b in two pieces, modulo 2^64. */
  method RoundedDown(b: u32, p: u32) returns (m: u64)
    requires b > 0 && p == Scale(b)
    ensures m == U64(RoundDown(b))
  {
    hide U64, Mul64, Quo, Rem, Scale, RoundUp, RoundDown;
    ghost var h, x := WordPieces(b, p);
    m := Mul64(Quo(MAX64, b), p);
    m := Add64(m, Quo(Mul64(Add64(Rem(MAX64, b), 1), p), b));
  }

  lemma RoundUpNotPow2(b: u32)
    requires b > 0 && !IsPow2(b)
    ensures 0 < RoundUp(b) < B64 && RoundDown(b) == RoundUp(b) - 1
    ensures U64(RoundUp(b)) == RoundUp(b) && U64(RoundDown(b)) == RoundDown(b)
  {
    hide RoundUp, RoundDown, IsPow2;
    var _ := RoundUpError(b);
  }

  /** Only for a power of two does the rounded-up multiplier not fit; the code's sum then wraps to 0. */
  lemma RoundUpFits(b: u32)
    requires b > 0
    ensures RoundUp(b) < B64 <==> !IsPow2(b)
    ensures IsPow2(b) ==> U64(RoundUp(b)) == 0
  {
    if IsPow2(b) {
      DivModUnique(b * B64 + (b - 1), b, B64, b - 1);
    } else {
      RoundUpNotPow2(b);
    }
  }

  /** The product at the test point, written out in the macro, is the unbiased high word. */
  method InlineProduct(m: u64, x: u64) returns (res: u64)
    ensures res == HighWord(m, x, false)
  {
    hide WideMul, And, HighWord, U32, U64, Add64;
    FourProducts(m, x, false);
    PartialSumFits(m, x, false);
    WideMulCommutes(U32(x), m / B32);
    AndLow(m);
    AndLow(x);
    res := WideMul(And(m, 0xffff_ffff), And(x, 0xffff_ffff)) / B32;
    res := CrossSum(res, WideMul(And(m, 0xffff_ffff), x / B32), WideMul(And(x, 0xffff_ffff), m / B32));
    AddFits(res, WideMul(m / B32, x / B32));
    res := Add64(res, WideMul(m / B32, x / B32));
  }

  lemma WideMulCommutes(x: u32, y: u32)
    ensures WideMul(x, y) == WideMul(y, x)
  {}

  lemma AndLow(x: u64)
    ensures And(x, 0xffff_ffff) == U32(x)
  {
    hide And, Pow2;
    Pow2Values();
    AndMask(x, 32);
  }

  // --- __div64_const32: the reduction of the unbiased multiplier

  /** The word of candidate shifts, before the complement: -(m & -m) truncated to 32 bits, or-ed with m >> 32. */
  function BlockedShifts(m: u64): (r: u32) {
    U32(Or(U32(Neg64(And(m, Neg64(m)))), m / B32))
  }

  /** Bit i says that shifting m right by i is exact and clears bit 31. */
  function ReductionBits(m: u64): (r: u32) {
    Shl32(Not32(BlockedShifts(m)), 1)
  }

  /** -(m & -m) truncated to 32 bits has exactly the bits from the lowest set bit of m upwards. */
  lemma NegLowBit(m: u64)
    requires 0 < m && LowIndex(m) < 32
    ensures 0 < LowBit(m) < B32 && U32(Neg64(And(m, Neg64(m)))) == B32 - LowBit(m)
  {
    hide And, Neg64, Pow2, LowIndex;
    AndNeg64(m);
    Pow2Values();
    Pow2Mono(LowIndex(m), 31);
    NegWord(LowBit(m));
  }

  lemma NegWord(l: u64)
    requires l > 0
    ensures Neg64(l) == B64 - l && (l < B32 ==> U32(Neg64(l)) == B32 - l)
  {}

  lemma AndNeg64(m: u64)
    requires m > 0
    ensures And(m, Neg64(m)) == LowBit(m)
  {
    hide And, Neg64, Pow2, LowBit;
    Pow2Values();
    NegWord(m);
    AndNeg(m, 64);
  }

  lemma BlockedShiftsMeaning(m: u64, i: nat)
    requires 0 < m && LowIndex(m) < 32 && i < 32
    ensures Bit(BlockedShifts(m), i) <==> i >= LowIndex(m) || Bit(m, 32 + i)
  {
    hide And, Neg64, Or, Bit, LowIndex, LowBit, BlockedShifts, U32;
    NegLowBit(m);
    BlockedShiftsAre(m, U32(Neg64(And(m, Neg64(m)))));
    BitOr(B32 - LowBit(m), m / B32, i);
    BitNegLowBit(m, i);
    BitHighHalf(m, i);
  }

  lemma BlockedShiftsAre(m: u64, low: u32)
    requires low == U32(Neg64(And(m, Neg64(m))))
    ensures BlockedShifts(m) == Or(low, m / B32)
  {
    hide And, Neg64, Or, Pow2;
    Pow2Values();
    OrBound(low, m / B32, 32);
  }

  lemma BitNegLowBit(m: u64, i: nat)
    requires 0 < m && LowIndex(m) < 32 && i < 32
    ensures 0 < LowBit(m) <= B32 && (Bit(B32 - LowBit(m), i) <==> i >= LowIndex(m))
  {
    hide Bit, Pow2, LowIndex;
    Pow2Values();
    BitNegPow2(LowIndex(m), 32, i);
  }

  lemma BitHighHalf(m: u64, i: nat)
    ensures Bit(m / B32, i) <==> Bit(m, 32 + i)
  {
    hide Bit, Pow2, Shr;
    Pow2Values();
    ShrDivides(m, 32);
    BitShr(m, 32, i);
  }

  lemma ReductionBitsMeaning(m: u64, i: nat)
    requires 0 < m && LowIndex(m) < 32 && i < 32
    ensures Bit(ReductionBits(m), i) <==> 1 <= i <= LowIndex(m) && !Bit(m, 31 + i)
  {
    hide BlockedShifts;
    BitShiftedComplement(BlockedShifts(m), i);
    if i > 0 { BlockedShiftsMeaning(m, i - 1); }
  }

  lemma BitShiftedComplement(x: u32, i: nat)
    requires i < 32
    ensures Bit(Shl32(Not32(x), 1), i) <==> i > 0 && !Bit(x, i - 1)
  {
    hide Bit, Shl32, Not32;
    BitShl32(Not32(x), 1, i);
    if i > 0 { BitNot32(x, i - 1); }
  }

  /** -2^k has exactly the bits from k upwards. */
  lemma BitNegPow2(k: nat, w: nat, i: nat)
    requires k < w && i < w
    ensures Pow2(w) >= Pow2(k) && (Bit(Pow2(w) - Pow2(k), i) <==> i >= k)
  {
    hide Bit, Pow2;
    Pow2Mono(k, w);
    BitComplement(Pow2(k) - 1, w, i);
    BitOnes(k, i);
  }

  lemma {:induction false} ShrExact(x: nat, j: nat)
    requires x > 0 && j <= LowIndex(x)
    ensures x == Pow2(j) * Shr(x, j)
    decreases j
  {
    if j == 0 {
    } else {
      ShrExact(x / 2, j - 1);
      Pow2Step(j);
      Swap(2, Pow2(j - 1), Shr(x / 2, j - 1));
    }
  }

  lemma {:induction false} ShrPow2(e: nat, j: nat)
    requires j <= e
    ensures Shr(Pow2(e), j) == Pow2(e - j)
  {
    if j == 0 {
    } else {
      Pow2Step(e);
      ShrPow2(e - 1, j - 1);
      assert Shr(Pow2(e), j) == Shr(Pow2(e) / 2, j - 1);
    }
  }

  /** Any exact common shift of multiplier and scale leaves a multiplier that still divides. */
  lemma ReducedDividesAll(b: u32, j: nat)
    requires b > 0 && !IsPow2(b) && TestPasses(b) && RoundUp(b) > 0 && j <= LowIndex(RoundUp(b))
    ensures j <= ILog2(b) && Shr(Scale(b), j) == Pow2(ILog2(b) - j)
    ensures DividesAll(Shr(RoundUp(b), j), Shr(Scale(b), j), false, b)
  {
    hide RoundUp, IsPow2, TestPasses, Approx, Shr, LowIndex, ILog2, Pow2;
    var m, p, c := Shr(RoundUp(b), j), Shr(Scale(b), j), Pow2(j);
    LowBitDividesScale(b);
    ShrPow2(ILog2(b), j);
    Pow2Add(j, ILog2(b) - j);
    ShrExact(RoundUp(b), j);
    OnePointDecides(b);
    forall n: u64 ensures Approx(m, p, false, n) == n / b {
      ReductionKeepsMeaning(m, p, c, n);
      assert Approx(RoundUp(b), Scale(b), false, n) == n / b;
    }
  }

  /** The highest candidate shift clears bits 31 and 63. */
  lemma ChosenReduction(m: u64)
    requires 0 < m && LowIndex(m) < 32 && ReductionBits(m) != 0
    ensures 1 <= ILog2(ReductionBits(m)) <= LowIndex(m)
    ensures CarryFree(ShrWord(m, ILog2(ReductionBits(m))))
  {
    hide ReductionBits, CarryFree, Bit, Pow2, ILog2, LowIndex, Shr;
    var j := ILog2(ReductionBits(m));
    BitILog2(ReductionBits(m));
    Pow2Values();
    if j >= 32 { Pow2Mono(32, j); assert false; }
    ReductionBitsMeaning(m, j);
    ShiftedBits(m, j);
  }

  /** No exact shift beyond it clears bit 31. */
  lemma NoBetterReduction(m: u64, i: nat)
    requires 0 < m && LowIndex(m) < 32 && !CarryFree(m)
    requires i <= LowIndex(m) && CarryFree(ShrWord(m, i))
    ensures ReductionBits(m) != 0 && i <= ILog2(ReductionBits(m))
  {
    hide ReductionBits, CarryFree, Bit, Pow2, ILog2, LowIndex, Shr;
    var bits := ReductionBits(m);
    ShiftedBits(m, i);
    ReductionBitsMeaning(m, i);
    BitZero(i);
    if i > ILog2(bits) {
      BelowNextPow2(bits);
      Pow2Mono(ILog2(bits) + 1, i);
      BitAbove(bits, i, i);
      assert false;
    }
  }

  function ShrWord(m: u64, j: nat): (r: u64) {
    ShrBound(m, j);
    Shr(m, j)
  }

  lemma ShiftedBits(m: u64, j: nat)
    ensures j == 0 ==> ShrWord(m, j) == m
    ensures j >= 1 ==> (CarryFree(ShrWord(m, j)) <==> !Bit(m, 31 + j))
  {
    hide CarryFree, Bit, Pow2;
    CarryFreeBits(ShrWord(m, j));
    BitShr(m, j, 31);
    BitShr(m, j, 63);
    Pow2Values();
    if j >= 1 { BitAbove(m, 64, 63 + j); }
  }

  /** Without a reduction the multiplier has its top bit set. */
  lemma RoundUpNotCarryFree(b: u32)
    requires b > 0 && !IsPow2(b)
    ensures 0 < RoundUp(b) < B64 && !CarryFree(RoundUp(b)) && LowIndex(RoundUp(b)) < 32
  {
    hide CarryFree, Bit, Pow2, RoundUp, IsPow2, LowIndex, ILog2;
    var _ := RoundUpError(b);
    LowBitDividesScale(b);
    ScaleBounds(b);
    Pow2Values();
    TopBit(RoundUp(b), 63);
    CarryFreeBits(RoundUp(b));
  }

  /**
   The shift the code applies to multiplier and scale. It is exact, and unless no
   exact shift at all makes the multiplier carry-free, it is the largest that does.
   */
  lemma ReductionIsBest(b: u32)
    requires b > 0 && !IsPow2(b)
    ensures 0 < RoundUp(b) < B64
    ensures var m: u64 := RoundUp(b); var bits := ReductionBits(m);
            && (bits == 0 <==> forall i: nat | i <= LowIndex(m) :: !CarryFree(ShrWord(m, i)))
            && (bits != 0 ==>
                  && 1 <= ILog2(bits) <= LowIndex(m)
                  && CarryFree(ShrWord(m, ILog2(bits)))
                  && forall i: nat | ILog2(bits) < i <= LowIndex(m) :: !CarryFree(ShrWord(m, i)))
  {
    RoundUpNotCarryFree(b);
    var m: u64 := RoundUp(b);
    hide ReductionBits, CarryFree;
    forall i: nat | i <= LowIndex(m) && CarryFree(ShrWord(m, i))
      ensures ReductionBits(m) != 0 && i <= ILog2(ReductionBits(m))
    {
      NoBetterReduction(m, i);
    }
    if ReductionBits(m) != 0 { ChosenReduction(m); }
  }

  // --- __div64_const32: the three strategies at work

  /** 1 << ilog2(b) as a 32-bit word. */
  lemma ScaleWord(b: u32)
    requires b > 0
    ensures 0 < Scale(b) <= b && Scale(b) <= 0x8000_0000 && Shl32(1, ILog2(b)) == Scale(b)
  {
    ScaleBounds(b);
  }

  lemma TestPointWord(b: u32)
    requires b > 0
    ensures Sub64(Mul64(Quo(MAX64, b), b), 1) == TestPoint(b)
  {
    hide Quo, TestPoint, Mul64;
    TestPointIs(b, MAX64 / b);
    QuoOfMax(b);
    TestPointProduct(b, MAX64 / b);
  }

  lemma QuoOfMax(b: u32)
    requires b > 0
    ensures Quo(MAX64, b) == MAX64 / b
  {}

  lemma TestPointProduct(b: u32, q: int)
    requires b > 0 && q == MAX64 / b
    ensures 0 <= q < B64 && Sub64(Mul64(q, b), 1) == q * b - 1
  {
    hide Mul64;
    SplitBy(MAX64, b);
    Le(1, b, q);
    TestPointRange(b);
    MulFits(q, b);
  }

  lemma AndNeg32(b: u32)
    requires b > 0
    ensures And(b, Neg32(b)) == LowBit(b) && 0 < LowBit(b) <= b
  {
    hide And, LowBit, Neg32, Pow2;
    Pow2Values();
    NegWord32(b);
    AndNeg(b, 32);
    LowBitRange(b);
  }

  lemma NegWord32(b: u32)
    requires b > 0
    ensures Neg32(b) == B32 - b
  {}

  lemma LowBitRange(b: nat)
    requires b > 0
    ensures 0 < LowBit(b) <= b
  {
    AndPred(b);
  }

  /** b without its trailing zeros. */
  function OddDivisor(b: u32): (c: u64)
    requires b > 0
  {
    LowBitRange(b);
    Quo(b, LowBit(b))
  }

  lemma OddDivisorFactors(b: u32)
    requires b > 0
    ensures b == LowBit(b) * OddDivisor(b) && OddDivisor(b) > 0
  {
    LowBitDivides(b);
  }

  lemma OddDivisorIs(b: u32)
    requires b > 0
    ensures 0 < LowBit(b) <= b && OddDivisor(b) == Quo(b, LowBit(b)) && OddDivisor(b) > 0
  {
    OddDivisorFactors(b);
    LowBitRange(b);
  }

  /** Powers of two never reach the other two branches, where the built multiplier would be the wrapped 0. */
  lemma Pow2IsSpecial(b: u32)
    requires IsPow2(b)
    ensures OddDivisor(b) == 1 && Rem(MAX64, 1) == 0
  {
    LowBitPow2(b);
    DivModUnique(b, b, 1, 0);
  }

  /** First branch: the odd part of b divides 2^64 - 1. */
  lemma SpecialBranch(b: u32, n: u64)
    requires b > 0 && OddDivisor(b) > 0 && Rem(MAX64, OddDivisor(b)) == 0
    ensures 0 < LowBit(b) <= b
    ensures Approx(Quo(MAX64, OddDivisor(b)), 1, true, Quo(n, LowBit(b))) == n / b
  {
    hide OddDivisor, LowBit;
    OddDivisorFactors(b);
    LowBitRange(b);
    SpecialDivides(LowBit(b), OddDivisor(b), n);
  }

  lemma SpecialDivides(l: u64, c: u64, n: u64)
    requires l > 0 && c > 0 && Rem(MAX64, c) == 0
    ensures l * c > 0 && Approx(Quo(MAX64, c), 1, true, Quo(n, l)) == n / (l * c)
  {
    assert MAX64 == Quo(MAX64, c) * c;
    ExactReciprocal(Quo(MAX64, c), c);
    hide Approx;
    NestedDiv(n, l, c);
  }

  /** Second branch: the rounded-down multiplier with the bias. */
  lemma BiasBranch(b: u32, n: u64)
    requires b > 0 && !IsPow2(b) && !TestPasses(b)
    ensures 0 <= RoundDown(b) < B64 && Approx(RoundDown(b), Scale(b), true, n) == n / b
  {
    RoundUpNotPow2(b);
    BiasDividesAll(b);
  }

  /** Third branch, whichever shift is chosen. */
  lemma UnbiasedBranch(b: u32, n: u64, j: nat)
    requires b > 0 && !IsPow2(b) && TestPasses(b) && 0 < RoundUp(b) && j <= LowIndex(RoundUp(b))
    ensures j <= ILog2(b) && Shr(Scale(b), j) == Pow2(ILog2(b) - j) > 0
    ensures Approx(Shr(RoundUp(b), j), Shr(Scale(b), j), false, n) == n / b
  {
    ReducedDividesAll(b, j);
  }

  lemma HighWordIsApprox(m: u64, n: u64, bias: bool, p: u32)
    requires p > 0
    ensures Quo(HighWord(m, n, bias), p) == Approx(m, p, bias, n)
  {}

  /** The test of the macro, on words, is TestPasses. */
  lemma TestWord(b: u32)
    requires b > 0 && !IsPow2(b) && 0 <= RoundUp(b) < B64 && Scale(b) < B32
    ensures Quo(HighWord(RoundUp(b), TestPoint(b), false), Scale(b)) == Quo(TestPoint(b), b) <==> TestPasses(b)
  {
    HighWordIsApprox(RoundUp(b), TestPoint(b), false, Scale(b));
  }

  /** Dividing by the lowest set bit is shifting it out. */
  lemma DivByLowBit(x: u64, m: u64)
    requires m > 0
    ensures And(m, Neg64(m)) == LowBit(m) > 0 && LowBit(m) <= m
    ensures Quo(x, And(m, Neg64(m))) == Shr(x, LowIndex(m))
  {
    AndNeg64(m);
    AndPred(m);
    ShrDivides(x, LowIndex(m));
  }

  /** Shifting x right by j drops no set bit. */
  ghost predicate ExactShift(x: nat, j: nat) {
    x > 0 && j <= LowIndex(x)
  }

  /**
   The largest exact shift of m that makes it carry-free; if there is none, the
   largest exact shift.
   */
  ghost predicate BestShift(m: u64, j: nat) {
    && ExactShift(m, j)
    && (CarryFree(ShrWord(m, j)) || j == LowIndex(m))
    && forall i: nat :: ExactShift(m, i) && CarryFree(ShrWord(m, i)) ==> i <= j && CarryFree(ShrWord(m, j))
  }

  lemma {:induction false} ShrLowIndexOdd(x: nat)
    requires x > 0
    ensures Shr(x, LowIndex(x)) % 2 == 1
  {
    if x % 2 == 1 {
    } else {
      ShrLowIndexOdd(x / 2);
    }
  }

  lemma {:induction false} ShrPositive(x: nat, j: nat)
    requires Pow2(j) <= x
    ensures Shr(x, j) > 0
    decreases j
  {
    if j == 0 {
    } else {
      Pow2Step(j);
      ShrPositive(x / 2, j - 1);
    }
  }

  /** The arm for ___bits == 0: the maximum possible reduction. */
  lemma FullReductionIsBest(m: u64)
    requires 0 < m && LowIndex(m) < 32 && !CarryFree(m) && ReductionBits(m) == 0
    ensures BestShift(m, LowIndex(m)) && Shr(m, LowIndex(m)) % 2 == 1
  {
    hide ReductionBits, CarryFree, LowIndex, Shr;
    ShrLowIndexOdd(m);
    forall i: nat | ExactShift(m, i) && CarryFree(ShrWord(m, i)) ensures false {
      NoBetterReduction(m, i);
    }
  }

  /** The other arm: the reduction that the highest bit of ___bits indicates. */
  lemma IndicatedReductionIsBest(m: u64)
    requires 0 < m && LowIndex(m) < 32 && !CarryFree(m) && ReductionBits(m) != 0
    ensures BestShift(m, ILog2(ReductionBits(m))) && CarryFree(ShrWord(m, ILog2(ReductionBits(m))))
  {
    hide ReductionBits, CarryFree, LowIndex, Shr, ILog2;
    ChosenReduction(m);
    forall i: nat | ExactShift(m, i) && CarryFree(ShrWord(m, i)) ensures i <= ILog2(ReductionBits(m)) {
      NoBetterReduction(m, i);
    }
  }

  lemma ScaleSurvives(m: u64, p: u32, j: nat)
    requires ExactShift(m, j) && LowBit(m) <= p
    ensures Shr(p, j) > 0
  {
    hide LowIndex, Shr, Pow2;
    Pow2Mono(j, LowIndex(m));
    ShrPositive(p, j);
  }

  /** Shift multiplier and scale right together by the best exact count. */
  method Reduce(m0: u64, p0: u32) returns (m: u64, p: u32)
    requires 0 < m0 && LowIndex(m0) < 32 && !CarryFree(m0)
    ensures exists shift: nat :: BestShift(m0, shift) && m == Shr(m0, shift) && p == Shr(p0, shift)
    ensures !CarryFree(m) ==> m % 2 == 1
    ensures LowBit(m0) <= p0 ==> p > 0
  {
    hide And, Or, Quo, Shr, Shl32, Neg64, LowBit, LowIndex, ILog2, CarryFree, BestShift;
    ghost var shift: nat;
    m, p := m0, p0;
    var bits: u32 := U32(Neg64(And(m, Neg64(m))));
    bits := U32(Or(bits, m / B32));
    bits := Shl32(Not32(bits), 1);
    if bits == 0 {
      shift := LowIndex(m);
      FullReductionIsBest(m);
      DivByLowBit(p, m);
      DivByLowBit(m, m);
      p := Quo(p, And(m, Neg64(m)));
      m := Quo(m, And(m, Neg64(m)));
    } else {
      shift := ILog2(bits);
      IndicatedReductionIsBest(m);
      ShrBound(p, ILog2(bits));
      p := Shr(p, ILog2(bits));
      m := ShrWord(m, ILog2(bits));
    }
    BestIsExact(m0, shift);
    if LowBit(m0) <= p0 { ScaleSurvives(m0, p0, shift); }
  }

  lemma BestIsExact(m: u64, j: nat)
    requires BestShift(m, j)
    ensures ExactShift(m, j)
  {}

  method Div64Const32(n0: u64, b: u32) returns (res: u64)
    requires b > 0
    ensures res == n0 / b
  {
    hide Quo, Rem, Mul64, Add64, Sub64, Neg32, Neg64, And, HighWord, Approx, RoundUp, RoundDown, Scale, TestPoint, OddDivisor,
      IsPow2, Shr, Shl32, LowBit, LowIndex, CarryFree, BestShift, ILog2, Pow2, TestPasses,
      U32, U64;
    ScaleWord(b);
    TestPointWord(b);
    AndNeg32(b);
    OddDivisorIs(b);
    if IsPow2(b) { Pow2IsSpecial(b); } else { RoundUpNotPow2(b); TestWord(b); }

    var n: u64 := n0;
    var p: u32 := Shl32(1, ILog2(b));
    var bias: bool;

    var m: u64 := RoundedUp(b, p);
    var x: u64 := Sub64(Mul64(Quo(MAX64, b), b), 1);
    res := InlineProduct(m, x);
    res := Quo(res, p);

    var low: u32 := And(b, Neg32(b));
    if Rem(MAX64, Quo(b, low)) == 0 {
      SpecialBranch(b, n0);
      n := Quo(n, low);
      m := Quo(MAX64, Quo(b, low));
      p := 1;
      bias := true;
    } else if res != Quo(x, b) {
      BiasBranch(b, n0);
      bias := true;
      m := RoundedDown(b, p);
    } else {
      RoundUpNotCarryFree(b);
      ghost var m0, p0 := m, p;
      m, p := Reduce(m, p);
      ghost var shift: nat :| BestShift(m0, shift) && m == Shr(m0, shift) && p == Shr(p0, shift);
      BestIsExact(m0, shift);
      UnbiasedBranch(b, n0, shift);
      bias := false;
    }
    assert p > 0 && Approx(m, p, bias, n) == n0 / b;

    res := ArchXprod64(m, n, bias);
    HighWordIsApprox(m, n, bias, p);
    res := Quo(res, p);
  }

  /** 10 takes the special branch. */
  lemma TenIsSpecial()
    ensures Rem(MAX64, OddDivisor(10)) == 0
  {
    assert LowIndex(10) == 1;
  }

  /** What the code finds for given values of p, m, the overshoot e and the tried dividend x. */
  lemma TryOutcome(b: u32, p: nat, m: nat, e: nat, x: nat)
    requires b > 0 && Scale(b) == p && m * b == p * B64 + e && e < b && x == MAX64 / b * b - 1
    ensures RoundUp(b) == m && (TestPasses(b) <==> x * e < p * B64)
  {
    hide TestPasses, Scale, TestPoint;
    DivModUnique(p * B64 + b - 1, b, m, b - 1 - e);
    TestIff(b, e);
    TestPointIs(b, MAX64 / b);
  }

  lemma SmallScales()
    ensures Scale(7) == 4 && Scale(9) == 8 && Scale(11) == 8
    ensures !IsPow2(7) && !IsPow2(9) && !IsPow2(11)
  {
    assert ILog2(7) == 2 && ILog2(9) == 3 && ILog2(11) == 3;
  }

  lemma SmallOddDivisors()
    ensures OddDivisor(7) == 7 && OddDivisor(9) == 9 && OddDivisor(11) == 11
  {
    assert LowIndex(7) == 0 && LowIndex(9) == 0 && LowIndex(11) == 0;
  }

  /** 7 takes the biased branch. */
  lemma SevenNeedsBias()
    ensures Rem(MAX64, OddDivisor(7)) != 0 && !IsPow2(7) && !TestPasses(7)
  {
    SmallOddDivisors();
    SmallScales();
    hide OddDivisor, Scale, IsPow2, TestPasses, RoundUp;
    TryOutcome(7, 4, 10540996613548315210, 6, 18446744073709551613);
  }

  /** 9 takes the unbiased branch with the maximum reduction, which here is none. */
  lemma NineIsUnbiased()
    ensures Rem(MAX64, OddDivisor(9)) != 0 && !IsPow2(9) && TestPasses(9)
    ensures 0 < RoundUp(9) < B64 && ReductionBits(RoundUp(9)) == 0
  {
    SmallOddDivisors();
    SmallScales();
    hide OddDivisor, Scale, IsPow2, TestPasses, RoundUp, ReductionBits;
    TryOutcome(9, 8, 16397105843297379215, 7, 18446744073709551608);
    OddHasNoReduction(16397105843297379215);
  }

  lemma OddHasNoReduction(m: u64)
    requires m % 2 == 1
    ensures ReductionBits(m) == 0
  {
    var bits := ReductionBits(m);
    hide ReductionBits;
    forall i: nat | i < 32 ensures Bit(bits, i) <==> Bit(0, i) {
      ReductionBitsMeaning(m, i);
      BitZero(i);
    }
    SameBits32(bits, 0);
  }

  /** 11 takes it with the reduction indicated by ___bits. */
  lemma ElevenIsReduced()
    ensures Rem(MAX64, OddDivisor(11)) != 0 && !IsPow2(11) && TestPasses(11)
    ensures 0 < RoundUp(11) < B64 && ReductionBits(RoundUp(11)) != 0
  {
    SmallOddDivisors();
    SmallScales();
    hide OddDivisor, Scale, IsPow2, TestPasses, RoundUp, ReductionBits;
    TryOutcome(11, 8, 13415813871788764812, 4, 18446744073709551610);
    ElevenBits(13415813871788764812);
  }

  lemma ElevenBits(m: u64)
    requires m == 13415813871788764812
    ensures ReductionBits(m) != 0
  {
    hide ReductionBits, Bit, LowIndex;
    LowIndexFour(m, 3353953467947191203);
    EvenBit(m / B32);
    BitHighHalf(m, 0);
    ReductionBitsMeaning(m, 1);
    BitZero(1);
  }

  lemma EvenBit(x: nat)
    requires x % 2 == 0
    ensures !Bit(x, 0)
  {}

  lemma LowIndexFour(x: nat, odd: nat)
    requires x == 4 * odd && odd % 2 == 1
    ensures LowIndex(x) == 2
  {
    assert x / 2 == 2 * odd && x / 2 / 2 == odd;
    assert LowIndex(x) == 1 + LowIndex(x / 2) == 2 + LowIndex(x / 2 / 2);
  }

  // --- do_div and lldiv

  /** The word configuration do_div is compiled for, and what the compiler knows of the base. */
  datatype Build = Long64 | Long32(constantBase: bool, constDivOk: bool)

  /** An lvalue holding a dividend: do_div overwrites it with the quotient. */
  class Dividend {
    var value: u64

    constructor (v: u64)
      ensures value == v
    {
      value := v;
    }
  }

  /** is_power_of_2() of u-boot/include/linux/log2.h */
  predicate IsPowerOf2(n: u32) {
    n != 0 && And(n, n - 1) == 0
  }

  lemma IsPowerOf2Means(n: u32)
    ensures IsPowerOf2(n) <==> IsPow2(n)
  {
    if n > 0 {
      AndPred(n);
      LowBitPow2(n);
    }
  }

  /** Masking and shifting divide by a power of two. */
  lemma Pow2Division(n: u64, base: u32)
    requires IsPowerOf2(base)
    ensures And(n, base - 1) == n % base && Shr(n, ILog2(base)) == n / base
  {
    IsPowerOf2Means(base);
    AndMask(n, ILog2(base));
    ShrDivides(n, ILog2(base));
  }

  /** The remainder survives in the low words: n_lo - res_lo * base, modulo 2^32. */
  lemma RemainderWord(n: u64, base: u32)
    requires base > 0
    ensures Sub32(U32(n), Mul32(U32(n / base), base)) == n % base
  {
    var q, r := n / base, n % base;
    var qh, ql := q / B32, U32(q);
    var t, s := ql * base / B32, U32(ql * base);
    assert n == q * base + r;
    assert q * base == qh * base * B32 + ql * base by { Dist(qh * B32, ql, base); Swap(qh, B32, base); }
    var z := qh * base + t - n / B32;
    assert U32(n) - s == z * B32 + r;
    DivModUnique(U32(n) - s, B32, z, r);
  }

  /** Stands for the external __div64_32(), with the contract do_div() states for itself. */
  method SlowDiv(n: Dividend, divisor: u32) returns (rem: u32)
    requires divisor > 0
    modifies n
    ensures n.value == old(n.value) / divisor && rem == old(n.value) % divisor
  {
    rem := Rem(n.value, divisor);
    n.value := Quo(n.value, divisor);
  }

  method DoDiv(n: Dividend, base: u32, build: Build) returns (rem: u32)
    requires base > 0
    modifies n
    ensures n.value == old(n.value) / base && rem == old(n.value) % base
  {
    hide And, Shr, IsPowerOf2;
    match build
    case Long64 =>
      rem := Rem(n.value, base);
      n.value := Quo(n.value, base);
    case Long32(constantBase, constDivOk) =>
      if constantBase && IsPowerOf2(base) {
        Pow2Division(n.value, base);
        rem := And(n.value, base - 1);
        ShrBound(n.value, ILog2(base));
        n.value := Shr(n.value, ILog2(base));
      } else if constDivOk && constantBase && base != 0 {
        RemainderWord(n.value, base);
        var nLo: u32 := U32(n.value);
        n.value := Div64Const32(n.value, base);
        var resLo: u32 := U32(n.value);
        rem := Sub32(nLo, Mul32(resLo, base));
      } else if n.value / B32 == 0 {
        rem := Rem(U32(n.value), base);
        n.value := Quo(U32(n.value), base);
      } else {
        rem := SlowDiv(n, base);
      }
  }

  method LlDiv(dividend: u64, divisor: u32, build: Build) returns (r: u64)
    requires divisor > 0
    ensures r == dividend / divisor
  {
    var res := new Dividend(dividend);
    var _ := DoDiv(res, divisor, build);
    return res.value;
  }
}
