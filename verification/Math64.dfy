/**
 The 64-bit helpers of u-boot/include/linux/math64.h and kernel.h that are built
 on do_div() and on 32-bit halves.
 */
module Math64 {
  import opened Arith
  import opened Words
  import opened Div64

  /** A word from its two 32-bit halves, as the unions of math64.h lay it out. */
  function Join(high: u32, low: u32): (r: u64)
    ensures r / B32 == high && U32(r) == low
  {
    high * B32 + low
  }

  // --- __iter_div_u64_rem

  /** Division by repeated subtraction: the remainder is exact, the quotient wraps at 2^32. */
  method IterDivU64Rem(dividend0: u64, divisor: u32) returns (ret: u32, remainder: u64)
    requires divisor > 0
    ensures ret == U32(dividend0 / divisor) && remainder == dividend0 % divisor
    ensures ret == dividend0 / divisor <==> dividend0 / B32 < divisor
  {
    var dividend: u64 := dividend0;
    ret := 0;
    ghost var k: nat := 0;
    while dividend >= divisor
      invariant dividend0 == k * divisor + dividend
      invariant ret == U32(k)
      decreases dividend
    {
      IterStep(dividend0, k, divisor, dividend);
      dividend := Sub64(dividend, divisor);
      ret := U32(ret + 1);
      k := k + 1;
    }
    remainder := dividend;
    DivModUnique(dividend0, divisor, k, dividend);
    assert dividend0 / B32 < divisor <==> dividend0 < B32 * divisor;
    QuotientBelow(dividend0, divisor, B32);
  }

  /** 2^32 divided by 1 comes back as 0, and so does 2^63 * 2 / 1 from mul_u64_u32_div(). */
  lemma QuotientsWrap()
    ensures !(B32 / B32 < 1) && U32(B32 / 1) == 0 != B32 / 1
    ensures var n := 0x8000_0000_0000_0000 * 2; !(n < 1 * B64) && U64(n / 1) == 0 != n / 1
  {}

  lemma IterStep(x: u64, k: nat, d: u32, rest: u64)
    requires x == k * d + rest && rest >= d
    ensures x == (k + 1) * d + Sub64(rest, d) && U32(U32(k) + 1) == U32(k + 1)
  {
    hide U32, Sub64;
    Dist(k, 1, d);
    SubFits(rest, d);
    Next32(k);
  }

  lemma SubFits(x: u64, y: u64)
    requires y <= x
    ensures Sub64(x, y) == x - y
  {}

  lemma Next32(k: nat)
    ensures U32(U32(k) + 1) == U32(k + 1)
  {}

  // --- mul_u64_u32_shr and mul_u64_u64_shr without 128-bit arithmetic

  /** x << s on 64 bits. */
  function Shl64(x: u64, s: nat): (r: u64) {
    U64(x * Pow2(s))
  }

  lemma {:induction false} OrDisjoint(x: nat, y: nat, k: nat)
    requires x < Pow2(k)
    ensures Or(x, y * Pow2(k)) == x + y * Pow2(k)
    decreases k
  {
    if k == 0 {
      OrZero(y);
    } else {
      var z := y * Pow2(k - 1);
      assert y * Pow2(k) == 2 * z by { Swap(y, 2, Pow2(k - 1)); }
      OrDisjoint(x / 2, y, k - 1);
    }
  }

  lemma OrZero(y: nat)
    ensures Or(0, y) == y
  {}

  /** Shifting the wide product a * 2^k splits as soon as the shift does not exceed k. */
  lemma ShrSplit(hi: nat, lo: nat, k: nat, s: nat)
    requires s <= k
    ensures Shr(hi * Pow2(k) + lo, s) == hi * Pow2(k - s) + Shr(lo, s)
  {
    ShrDivides(hi * Pow2(k) + lo, s);
    ShrDivides(lo, s);
    Pow2Add(k - s, s);
    Swap(hi, Pow2(k - s), Pow2(s));
    DivPiece(hi * Pow2(k - s), Pow2(s), lo, hi * Pow2(k) + lo);
  }

  lemma {:induction false} ShrSmall(x: nat, s: nat, k: nat)
    requires x < Pow2(k) && s <= k
    ensures Shr(x, s) < Pow2(k - s)
  {
    if s == 0 {
    } else {
      ShrSmall(x / 2, s - 1, k - 1);
    }
  }

  /** The bits that stay when a word is shifted left. */
  lemma ShlKeeps(x: u64, t: nat)
    requires t <= 64
    ensures Shl64(x, t) == x % Pow2(64 - t) * Pow2(t) <= B64 - Pow2(t)
  {
    Pow2Values();
    Pow2Add(64 - t, t);
    ModScale(x, Pow2(64 - t), Pow2(t));
  }

  /** Gluing the two shifted halves of a 128-bit product together. */
  lemma GlueHalves(hi: u64, lo: u64, s: nat)
    requires 0 < s < 64
    ensures Or(Shr(lo, s), Shl64(hi, 64 - s)) == U64(Shr(hi * B64 + lo, s))
  {
    hide Or, Shr, Pow2;
    var t := 64 - s;
    Pow2Values();
    ShlKeeps(hi, t);
    ShrSmall(lo, s, 64);
    OrDisjoint(Shr(lo, s), hi % Pow2(s), t);
    ShrSplit(hi, lo, 64, s);
    GlueWrap(hi * Pow2(t), Shl64(hi, t), Shr(lo, s), Pow2(t));
  }

  lemma GlueWrap(h: nat, y: nat, x: nat, u: nat)
    requires U64(h) == y && y <= B64 - u && x < u
    ensures y + x == U64(h + x)
  {}

  /** The high word of the product needs only the remaining shift. */
  lemma HighHalf(hi: u64, lo: u64, e: nat)
    ensures Shr(hi * B64 + lo, 64 + e) == Shr(hi, e) < B64
  {
    Pow2Values();
    Pow2Zero();
    hide Shr, Pow2;
    ShrTwice(hi * B64 + lo, 64, e);
    ShrSplit(hi, lo, 64, 64);
    ShrSmall(lo, 64, 64);
    ShrBound(hi, e);
  }

  /** The shift a 128-bit product is really subjected to: counts from 128 on alias onto 64..127. */
  function EffectiveShift(shift: nat): (r: nat) {
    if shift < 128 then shift else 64 + shift % 64
  }

  lemma EffectiveShiftIs(shift: nat)
    ensures EffectiveShift(shift) == if shift < 128 then shift else 64 + shift % 64
  {}

  /** The carries between the four 32-bit columns lose nothing. */
  lemma FourColumns(rl: u64, rm: u64, rn: u64, rh: u64, c: nat, d: nat)
    requires rh * B64 + (rm + rn) * B32 + rl < B64 * B64
    requires c == rl / B32 + U32(rm) + U32(rn)
    requires d == c / B32 + rm / B32 + rn / B32 + U32(rh)
    ensures U32(d / B32 + rh / B32) == d / B32 + rh / B32
    ensures Join(U32(d / B32 + rh / B32), U32(d)) * B64 + Join(U32(c), U32(rl)) == rh * B64 + (rm + rn) * B32 + rl
  {
    Halves(rl);
    Halves(rm);
    Halves(rn);
    Halves(rh);
    Halves(c);
    Halves(d);
    hide U32;
    FitsHalf(d / B32 + rh / B32);
  }

  lemma Halves(x: nat)
    ensures x == x / B32 * B32 + U32(x)
  {}

  lemma FitsHalf(x: u32)
    ensures U32(x) == x
  {}

  /** The carry chain over the columns of a 128-bit product. */
  method AddColumns(rl0: u64, rm: u64, rn: u64, rh0: u64) returns (rh: u64, rl: u64)
    requires rh0 * B64 + (rm + rn) * B32 + rl0 < B64 * B64
    ensures rh * B64 + rl == rh0 * B64 + (rm + rn) * B32 + rl0
  {
    hide Join, U32;
    var c: u64 := rl0 / B32 + U32(rm) + U32(rn);
    rl := Join(U32(c), U32(rl0));
    ghost var c0 := c;
    c := c / B32 + rm / B32 + rn / B32 + U32(rh0);
    FourColumns(rl0, rm, rn, rh0, c0, c);
    rh := Join(U32(c / B32 + rh0 / B32), U32(c));
  }

  method MulWide(a: u64, b: u64) returns (rh: u64, rl: u64)
    ensures a * b == rh * B64 + rl
  {
    hide WideMul;
    ProductColumns(a, b);
    rh, rl := AddColumns(WideMul(U32(a), U32(b)), WideMul(U32(a), b / B32), WideMul(a / B32, U32(b)), WideMul(a / B32, b / B32));
  }

  method MulU64U64Shr(a: u64, b: u64, shift: nat) returns (r: u64)
    ensures r == U64(Shr(a * b, if shift < 128 then shift else 64 + shift % 64))
    ensures r == U64(Shr(a * b, shift)) <==> shift < 128 || a * b < Pow2(64 + shift % 64)
  {
    hide Shr, Or, And, Shl64, Pow2, U64, EffectiveShift;
    var rh, rl := MulWide(a, b);
    ProductFits(a, b);
    AliasedShift(a * b, shift);
    EffectiveShiftIs(shift);
    if shift == 0 {
      r := rl;
      NoShift(rh, rl);
    } else if shift < 64 {
      LowShift(rh, rl, shift);
      r := Or(Shr(rl, shift), Shl64(rh, 64 - shift));
    } else {
      HighShift(rh, rl, shift);
      r := Shr(rh, And(shift, 63));
    }
  }

  lemma NoShift(hi: u64, lo: u64)
    ensures U64(Shr(hi * B64 + lo, EffectiveShift(0))) == lo
  {}

  lemma LowShift(hi: u64, lo: u64, shift: nat)
    requires 0 < shift < 64
    ensures Or(Shr(lo, shift), Shl64(hi, 64 - shift)) == U64(Shr(hi * B64 + lo, EffectiveShift(shift))) < B64
  {
    hide Shr, Or, Shl64, U64;
    GlueHalves(hi, lo, shift);
  }

  lemma HighShift(hi: u64, lo: u64, shift: nat)
    requires shift >= 64
    ensures Shr(hi, And(shift, 63)) == U64(Shr(hi * B64 + lo, EffectiveShift(shift))) < B64
  {
    hide Shr, And;
    var e := shift % 64;
    assert EffectiveShift(shift) == 64 + e;
    Low6(shift);
    HighHalf(hi, lo, e);
  }

  lemma ProductFits(a: u64, b: u64)
    ensures 0 <= a * b < B64 * B64
  {
    ProductBelow(a, b, B64, B64);
    assert a * b >= 0;
  }

  /** Shifting by 128 or more should leave 0; the aliased count does so only for products it shifts out. */
  lemma AliasedShift(x: nat, shift: nat)
    requires x < B64 * B64
    ensures U64(Shr(x, EffectiveShift(shift))) == U64(Shr(x, shift)) <==> shift < 128 || x < Pow2(64 + shift % 64)
  {
    hide Shr, Pow2;
    if shift >= 128 {
      var k := 64 + shift % 64;
      ShrPow128(x, shift);
      ShrIsZero(x, k);
      ShrHigh(x, k);
    }
  }

  lemma ShrIsZero(x: nat, s: nat)
    ensures Shr(x, s) == 0 <==> x < Pow2(s)
  {
    ShrDivides(x, s);
    hide Shr, Pow2;
    QuotientBelow(x, Pow2(s), 1);
  }

  /** A product of two words is below every 2^s from s = 128 on. */
  lemma ShrPow128(x: nat, s: nat)
    requires x < B64 * B64 && s >= 128
    ensures Shr(x, s) == 0
  {
    Pow2Values();
    hide Pow2, Shr;
    Pow2Square(64, B64);
    Pow2Mono(128, s);
    ShrIsZero(x, s);
  }

  lemma ShrHigh(x: nat, s: nat)
    requires x < B64 * B64 && s >= 64
    ensures U64(Shr(x, s)) == Shr(x, s)
  {
    Pow2Values();
    hide Pow2, Shr;
    ShrDivides(x, 64);
    QuotientBelow(x, B64, B64);
    ShrTwice(x, 64, s - 64);
    ShrBound(Shr(x, 64), s - 64);
  }

  /** The largest product, shifted by 128, comes back as its high word instead of 0. */
  lemma AliasedShiftExample()
    ensures U64(Shr(MAX64 * MAX64, EffectiveShift(128))) == MAX64 - 1 != U64(Shr(MAX64 * MAX64, 128))
  {
    Pow2Values();
    hide Pow2, Shr;
    ShrPow128(MAX64 * MAX64, 128);
    ShrDivides(MAX64 * MAX64, 64);
    assert MAX64 * MAX64 == (MAX64 - 1) * B64 + 1;
  }

  lemma Low6(shift: nat)
    ensures And(shift, 63) == shift % 64
  {
    AndMask(shift, 6);
  }

  lemma ProductColumns(a: u64, b: u64)
    ensures a * b == WideMul(a / B32, b / B32) * B64 + (WideMul(U32(a), b / B32) + WideMul(a / B32, U32(b))) * B32 + WideMul(U32(a), U32(b))
    ensures 0 <= a * b < B64 * B64
  {
    SplitProduct(a, b);
    ProductFits(a, b);
  }

  /** With a non-zero high half, a count above 32 makes `32 - shift` wrap to a huge unsigned count, which C leaves undefined. */
  method MulU64U32Shr(a: u64, mul: u32, shift: nat) returns (ret: u64)
    requires shift < 64 && (a / B32 != 0 ==> shift <= 32)
    ensures ret == U64(Shr(a * mul, shift))
  {
    hide WideMul, Shl64;
    var al: u32, ah: u32 := U32(a), a / B32;
    SplitByWord(a, mul);
    ret := ShrWord(WideMul(al, mul), shift);
    if ah != 0 {
      AddShifted(WideMul(ah, mul), WideMul(al, mul), shift);
      ret := Add64(ret, Shl64(WideMul(ah, mul), 32 - shift));
    } else {
      ShrFits(WideMul(al, mul), shift);
    }
  }

  lemma ShrFits(x: u64, s: nat)
    ensures U64(Shr(x, s)) == ShrWord(x, s)
  {}

  lemma AddShifted(h: u64, l: u64, s: nat)
    requires s <= 32
    ensures Add64(ShrWord(l, s), Shl64(h, 32 - s)) == U64(Shr(h * B32 + l, s))
  {
    Pow2Values();
    hide Shr, Pow2, Add64, Shl64, U64;
    ShrSplit(h, l, 32, s);
    AddShl(ShrWord(l, s), h, 32 - s);
  }

  lemma AddShl(x: u64, h: u64, t: nat)
    ensures Add64(x, Shl64(h, t)) == U64(x + h * Pow2(t))
  {
    hide Pow2;
    WrapAdd(x, h * Pow2(t));
  }

  lemma WrapAdd(x: nat, y: nat)
    ensures U64(x + U64(y)) == U64(x + y)
  {}

  lemma SplitByWord(a: u64, mul: u32)
    ensures a * mul == WideMul(a / B32, mul) * B32 + WideMul(U32(a), mul)
    ensures a / B32 == 0 ==> WideMul(a / B32, mul) == 0
  {
    var h, l := a / B32, U32(a);
    Dist(h * B32, l, mul);
    Swap(h, B32, mul);
  }

  // --- mul_u64_u32_div: 96-bit by 32-bit long division with two do_div()s

  lemma LongDivision(x: u64, lo: u32, d: u32, n: nat)
    requires d > 0 && n == x * B32 + lo
    ensures n / d == Quo(x, d) * B32 + Quo(Join(Rem(x, d), lo), d)
    ensures Quo(Join(Rem(x, d), lo), d) < B32
  {
    SplitBy(x, d);
    NextDigit(n, x / d, x % d, x / d * d, lo, d, Join(x % d, lo));
  }

  lemma NextDigit(n: nat, q: nat, r: u32, qd: nat, lo: u32, d: u32, y: u64)
    requires r < d && qd == q * d && n == (qd + r) * B32 + lo && y == r * B32 + lo
    ensures n / d == q * B32 + y / d && y / d < B32
  {
    Swap(q, d, B32);
    DivPiece(q * B32, d, y, n);
    QuotientBelow(y, d, B32);
  }

  /** The numerator of mul_u64_u32_div in base 2^32. */
  lemma MulColumns(a: u64, mul: u32)
    ensures var lo, hi := WideMul(U32(a), mul), WideMul(a / B32, mul);
            hi + lo / B32 < B64 && (hi + lo / B32) * B32 + U32(lo) == a * mul
  {
    SplitByWord(a, mul);
    HalfProduct(a / B32, mul, B32);
  }

  /** The two quotient digits, joined, are the quotient modulo 2^64. */
  lemma TwoDigits(a: u64, mul: u32, d: u32, x: u64, lo: u32)
    requires d > 0 && a * mul == x * B32 + lo
    ensures Join(U32(Quo(x, d)), U32(Quo(Join(Rem(x, d), lo), d))) == U64(a * mul / d)
  {
    hide Quo, Rem;
    LongDivision(x, lo, d, a * mul);
    JoinWraps(Quo(x, d), Quo(Join(Rem(x, d), lo), d));
  }

  lemma JoinWraps(q: nat, l: nat)
    requires l < B32
    ensures Join(U32(q), U32(l)) == U64(q * B32 + l)
  {
    var k := q / B32;
    var r := q - k * B32;
    assert 0 <= r < B32;
    DivModUnique(q, B32, k, r);
    DivModUnique(q * B32 + l, B64, k, r * B32 + l);
    DivModUnique(l, B32, 0, l);
  }

  method MulU64U32Div(a: u64, mul: u32, divisor: u32, build: Build) returns (r: u64)
    requires divisor > 0
    ensures r == U64(a * mul / divisor)
    ensures r == a * mul / divisor <==> a * mul < divisor * B64
  {
    ProductFits(a, mul);
    WideQuotient(a * mul, divisor);
    MulColumns(a, mul);
    hide WideMul, Quo, Rem, U64;
    var rl := new Dividend(WideMul(U32(a), mul));
    AddFits(WideMul(a / B32, mul), rl.value / B32);
    var rh := new Dividend(Add64(WideMul(a / B32, mul), rl.value / B32));
    TwoDigits(a, mul, divisor, rh.value, U32(rl.value));

    var rem := DivideInPlace(rh, divisor, build);
    rl.value := Join(rem, U32(rl.value));
    var _ := DivideInPlace(rl, divisor, build);
    rl.value := Join(U32(rh.value), U32(rl.value));
    r := rl.value;
  }

  lemma WideQuotient(n: nat, d: u32)
    requires d > 0
    ensures U64(n / d) == n / d <==> n < d * B64
  {
    QuotientBelow(n, d, B64);
  }

  /** do_div() with its result in terms of the word operators. */
  method DivideInPlace(n: Dividend, base: u32, build: Build) returns (rem: u32)
    requires base > 0
    modifies n
    ensures n.value == Quo(old(n.value), base) && rem == Rem(old(n.value), base)
  {
    rem := DoDiv(n, base, build);
  }

  // --- the rounding divisions of kernel.h

  method DivRoundDownUll(ll: u64, d: u32, build: Build) returns (r: u64)
    requires d > 0
    ensures r == ll / d
  {
    var tmp := new Dividend(ll);
    var _ := DoDiv(tmp, d, build);
    r := tmp.value;
  }

  /** The least q with q * d >= x. */
  ghost predicate IsCeiling(q: int, x: int, d: int) {
    q * d >= x && (q > 0 ==> (q - 1) * d < x)
  }

  /** A multiple of d at least as close to x as any other. */
  ghost predicate IsNearest(q: int, x: int, d: int) {
    -d <= 2 * (q * d - x) <= d
  }

  /** The unsigned type the macro adds in: the common type of its operands, whatever the result is widened to. */
  datatype Width = W32 | W64

  function Modulus(w: Width): (r: nat)
    ensures r == if w == W32 then 0x1_0000_0000 else 0x1_0000_0000_0000_0000
  {
    match w
    case W32 => B32
    case W64 => B64
  }

  /** ll + d - 1, each operation in the operands' own type. */
  function RoundingSum(ll: u64, d: u32, w: Width): (r: u64) {
    match w
    case W32 => Sub32(U32(ll + d), 1)
    case W64 => Sub64(Add64(ll, d), 1)
  }

  method DivRoundUpUll(ll: u64, d: u32, w: Width, build: Build) returns (r: u64)
    requires d > 0 && ll < (if w == W32 then 0x1_0000_0000 else 0x1_0000_0000_0000_0000)
    ensures r == (if w == W32 then (ll + d - 1) % 0x1_0000_0000 else (ll + d - 1) % 0x1_0000_0000_0000_0000) / d
    ensures IsCeiling(r, ll, d) <==> ll + d - 1 < (if w == W32 then 0x1_0000_0000 else 0x1_0000_0000_0000_0000)
  {
    RoundUpIsCeiling(ll, d, w);
    r := DivRoundDownUll(RoundingSum(ll, d, w), d, build);
  }

  /** The rounding addend is what can wrap, and when it does the result is 0. */
  lemma RoundUpIsCeiling(x: u64, d: u32, w: Width)
    requires d > 0 && x < Modulus(w)
    ensures var y := RoundingSum(x, d, w); y == (x + d - 1) % Modulus(w) && (IsCeiling(y / d, x, d) <==> x + d - 1 < Modulus(w))
  {
    hide RoundingSum, Modulus, IsCeiling;
    var y := RoundingSum(x, d, w);
    SumWraps(x, d, w);
    SplitBy(y, d);
    if x + d - 1 < Modulus(w) {
      CeilingStep(y / d, y / d * d, y % d, x, d);
    } else {
      DivModUnique(y, d, 0, y);
      NoCeiling(x, d);
    }
  }

  lemma SumWraps(x: u64, d: u32, w: Width)
    requires d > 0 && x < Modulus(w)
    ensures RoundingSum(x, d, w) == (x + d - 1) % Modulus(w) == if x + d - 1 < Modulus(w) then x + d - 1 else x + d - 1 - Modulus(w)
  {
    PredWraps(x + d, Modulus(w));
  }

  lemma PredWraps(z: nat, m: nat)
    requires 0 < z < 2 * m
    ensures (z % m - 1) % m == (z - 1) % m == if z - 1 < m then z - 1 else z - 1 - m
  {
    if z < m {
      DivModUnique(z, m, 0, z);
      DivModUnique(z - 1, m, 0, z - 1);
    } else if z == m {
      DivModUnique(m, m, 1, 0);
      DivModUnique(-1, m, -1, m - 1);
      DivModUnique(m - 1, m, 0, m - 1);
    } else {
      DivModUnique(z, m, 1, z - m);
      DivModUnique(z - 1, m, 1, z - 1 - m);
      DivModUnique(z - m - 1, m, 0, z - m - 1);
    }
  }

  method DivRoundClosestUll(x: u64, divisor: u32, build: Build) returns (r: u64)
    requires divisor > 0
    ensures r == U64(x + divisor / 2) / divisor
    ensures IsNearest(r, x, divisor) <==> x + divisor / 2 < B64
  {
    RoundClosestIsNearest(x, divisor, Add64(x, divisor / 2));
    var tmp := new Dividend(Add64(x, divisor / 2));
    var _ := DoDiv(tmp, divisor, build);
    r := tmp.value;
  }

  lemma RoundClosestIsNearest(x: u64, d: u32, y: u64)
    requires d > 0 && y == U64(x + d / 2)
    ensures IsNearest(y / d, x, d) <==> x + d / 2 < B64
  {
    hide IsNearest;
    SplitBy(y, d);
    if x + d / 2 < B64 {
      NearestStep(y / d, y / d * d, y % d, x, d);
    } else {
      DivModUnique(y, d, 0, y);
      NotNearest(x, d);
    }
  }

  lemma NotNearest(x: nat, d: nat)
    ensures IsNearest(0, x, d) <==> 2 * x <= d
  {}

  lemma CeilingStep(q: int, qd: int, r: int, x: int, d: nat)
    requires qd == q * d && x + d - 1 == qd + r && 0 <= r < d
    ensures IsCeiling(q, x, d)
  {
    Dist(q, 1, d);
  }

  lemma NoCeiling(x: nat, d: nat)
    ensures IsCeiling(0, x, d) <==> x == 0
  {}

  lemma NearestStep(q: int, qd: int, r: int, x: int, d: nat)
    requires qd == q * d && x + d / 2 == qd + r && 0 <= r < d
    ensures IsNearest(q, x, d)
  {
    assert 2 * (qd - x) == 2 * (d / 2) - 2 * r;
  }

  /** The largest dividend of each type shows both wraps. */
  lemma RoundingWraps()
    ensures !IsCeiling(RoundingSum(B32 - 1, 2, W32) / 2, B32 - 1, 2)
    ensures !IsCeiling(RoundingSum(MAX64, 2, W64) / 2, MAX64, 2)
    ensures !IsNearest(U64(MAX64 + 2 / 2) / 2, MAX64, 2)
  {
    RoundUpIsCeiling(B32 - 1, 2, W32);
    RoundUpIsCeiling(MAX64, 2, W64);
    RoundClosestIsNearest(MAX64, 2, 0);
  }
}
