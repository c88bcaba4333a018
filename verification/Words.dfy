/**
 Fixed-width unsigned words and the C operators on them.

 A word is an integer inside its range. The arithmetic operators reduce their
 result modulo 2^32 or 2^64, as C does for unsigned operands; the bitwise ones
 are defined bit by bit, and every law about them is proved through `Bit`.
 */
module Words {
  import opened Arith

  const B32: int := 0x1_0000_0000
  const B64: int := 0x1_0000_0000_0000_0000
  const MAX64: int := 0xffff_ffff_ffff_ffff

  type byte = x: int | 0 <= x < 0x100
  type u16 = x: int | 0 <= x < 0x1_0000
  type u32 = x: int | 0 <= x < B32
  type u64 = x: int | 0 <= x < B64

  /** Truncation to a word, the C conversion to an unsigned type. */
  function U32(x: int): (r: u32) { x % B32 }
  function U64(x: int): (r: u64) { x % B64 }

  function Neg32(x: u32): (r: u32) { U32(0 - x) }
  function Not32(x: u32): (r: u32) { B32 - 1 - x }
  function Shl32(x: u32, s: nat): (r: u32) { U32(x * Pow2(s)) }
  function Sub32(x: u32, y: u32): (r: u32) { U32(x - y) }
  function Mul32(x: u32, y: u32): (r: u32) { U32(x * y) }

  function Neg64(x: u64): (r: u64) { U64(0 - x) }
  function Add64(x: u64, y: u64): (r: u64) { U64(x + y) }
  function Sub64(x: u64, y: u64): (r: u64) { U64(x - y) }
  function Mul64(x: u64, y: u64): (r: u64) { U64(x * y) }

  /** Unsigned `/` and `%`. */
  function Quo(x: u64, y: u64): (r: u64)
    requires y > 0
    ensures r <= x
  {
    QuoFits(x, y);
    x / y
  }

  function Rem(x: u64, y: u64): (r: u64)
    requires y > 0
    ensures r < y
  {
    x % y
  }

  lemma QuoFits(x: u64, y: u64)
    requires y > 0
    ensures 0 <= x / y <= x
  {
    assert x == x / y * y + x % y;
    if x / y < 0 { Le(x / y, -1, y); assert false; }
    Le(1, y, x / y);
  }

  /** (u64)x * y for 32-bit x and y: the product of two half words always fits. */
  function WideMul(x: u32, y: u32): (r: u64) {
    WideMulFits(x, y);
    x * y
  }

  lemma WideMulFits(x: u32, y: u32)
    ensures 0 <= x * y <= (B32 - 1) * (B32 - 1) < B64
  {
    Le(x, B32 - 1, y);
    Le(y, B32 - 1, B32 - 1);
    assert x * y >= 0;
  }

  function Pow2(e: nat): (r: nat)
    ensures r > 0
  {
    if e == 0 then 1 else 2 * Pow2(e - 1)
  }

  /** Bit i of x. */
  predicate Bit(x: nat, i: nat) {
    if i == 0 then x % 2 == 1 else Bit(x / 2, i - 1)
  }

  /** x >> s. */
  function Shr(x: nat, s: nat): (r: nat) {
    if s == 0 then x else Shr(x / 2, s - 1)
  }

  function And(x: nat, y: nat): (r: nat)
    ensures r <= x && r <= y
    decreases x
  {
    if x == 0 then 0 else (if x % 2 == 1 && y % 2 == 1 then 1 else 0) + 2 * And(x / 2, y / 2)
  }

  function Or(x: nat, y: nat): (r: nat)
    ensures r >= x && r >= y
    decreases x + y
  {
    if x == 0 && y == 0 then 0
    else (if x % 2 == 1 || y % 2 == 1 then 1 else 0) + 2 * Or(x / 2, y / 2)
  }

  /** Position of the highest set bit. */
  function ILog2(x: nat): (r: nat)
    requires x > 0
    ensures Pow2(r) <= x < 2 * Pow2(r)
  {
    if x == 1 then 0 else 1 + ILog2(x / 2)
  }

  /** Position of the lowest set bit. */
  function LowIndex(x: nat): (r: nat)
    requires x > 0
    ensures Bit(x, r)
  {
    if x % 2 == 1 then 0 else 1 + LowIndex(x / 2)
  }

  /** The lowest set bit as a word: what `x & -x` computes. */
  function LowBit(x: nat): (r: nat)
    requires x > 0
  {
    Pow2(LowIndex(x))
  }

  /** 0 for a zero word, else one more than the position of its lowest set bit. */
  function Ffs(x: nat): (r: nat) {
    if x == 0 then 0 else LowIndex(x) + 1
  }

  predicate IsPow2(x: nat) {
    x > 0 && x == Pow2(ILog2(x))
  }

  // --- powers of two

  lemma Pow2Zero()
    ensures Pow2(0) == 1
  {}

  lemma ShrNothing(x: nat)
    ensures Shr(x, 0) == x
  {}

  lemma Pow2Step(e: nat)
    requires e > 0
    ensures Pow2(e) == 2 * Pow2(e - 1) && Pow2(e) / 2 == Pow2(e - 1) && Pow2(e) % 2 == 0
  {}

  lemma {:induction false} Pow2Add(a: nat, b: nat)
    ensures Pow2(a + b) == Pow2(a) * Pow2(b)
  {
    if a == 0 {
    } else {
      Pow2Step(a);
      Pow2Step(a + b);
      Pow2Add(a - 1, b);
      hide Pow2;
      Swap(2, Pow2(a - 1), Pow2(b));
    }
  }

  lemma {:induction false} Pow2Mono(a: nat, b: nat)
    requires a <= b
    ensures Pow2(a) <= Pow2(b)
  {
    if a == b {
    } else {
      Pow2Mono(a, b - 1);
    }
  }

  lemma Pow2Square(a: nat, v: nat)
    requires Pow2(a) == v
    ensures Pow2(2 * a) == v * v
  {
    Pow2Add(a, a);
  }

  lemma Pow2Values()
    ensures Pow2(31) == 0x8000_0000 && Pow2(32) == B32 && Pow2(63) == 0x8000_0000_0000_0000 && Pow2(64) == B64
  {
    Pow2Step(32);
    Pow2Step(64);
    assert Pow2(4) == 16;
    hide Pow2;
    Pow2Square(4, 0x10);
    Pow2Square(8, 0x100);
    Pow2Square(16, 0x1_0000);
    Pow2Square(32, B32);
  }

  lemma {:induction false} ILog2Pow2(e: nat)
    ensures ILog2(Pow2(e)) == e
  {
    if e == 0 {
    } else {
      ILog2Pow2(e - 1);
    }
  }

  lemma DoubleIsPow2(b: nat)
    requires b % 2 == 0 && IsPow2(b / 2)
    ensures IsPow2(b)
  {}

  /** A divisor of a power of two is a power of two. */
  lemma {:induction false} DivisorOfPow2(b: nat, c: nat, e: nat)
    requires b > 0 && c > 0 && b * c == Pow2(e)
    ensures IsPow2(b)
    decreases e
  {
    if b == 1 {
    } else {
      ProductAtLeast(b, c);
      if e == 0 { assert false; }
      Pow2Step(e);
      hide Pow2, IsPow2;
      if b % 2 == 0 {
        HalveProduct(b, c, Pow2(e));
        DivisorOfPow2(b / 2, c, e - 1);
        DoubleIsPow2(b);
      } else {
        EvenCofactor(b, c, Pow2(e));
        HalveProduct(c, b, Pow2(e));
        DivisorOfPow2(b, c / 2, e - 1);
      }
    }
  }

  lemma ProductAtLeast(b: nat, c: nat)
    requires b > 0 && c > 0
    ensures b * c >= b && b * c >= c
  {
    Le(1, b, c);
    Le(1, c, b);
  }

  /** Halving one even factor halves the product n. */
  lemma HalveProduct(b: nat, c: nat, n: nat)
    requires b % 2 == 0 && b * c == n
    ensures b / 2 * c == n / 2 == c * (b / 2) && (n > 0 ==> b / 2 > 0)
  {
    assert b == 2 * (b / 2);
    Swap(2, b / 2, c);
  }

  /** If the product n is even and one factor is odd, the other is even. */
  lemma EvenCofactor(b: nat, c: nat, n: nat)
    requires b % 2 == 1 && b * c == n && n % 2 == 0
    ensures c % 2 == 0
  {
    var z := b / 2 * c;
    OddTimes(b / 2, c);
    SameParity(n, z, c);
  }

  lemma OddTimes(x: nat, c: nat)
    ensures (2 * x + 1) * c == 2 * (x * c) + c
  {
    Dist(2 * x, 1, c);
    Swap(2, x, c);
  }

  lemma SameParity(n: nat, z: nat, c: nat)
    requires n == 2 * z + c
    ensures n % 2 == c % 2
  {}

  // --- bits of the results of the operators

  lemma {:induction false} BitAnd(x: nat, y: nat, i: nat)
    ensures Bit(And(x, y), i) <==> Bit(x, i) && Bit(y, i)
    decreases i
  {
    hide And, Bit;
    var both := if x % 2 == 1 && y % 2 == 1 then 1 else 0;
    AndStep(x, y, x / 2, x % 2, y / 2, y % 2);
    BitStep(x, x / 2, x % 2, i);
    BitStep(y, y / 2, y % 2, i);
    BitStep(And(x, y), And(x / 2, y / 2), both, i);
    if i == 0 {
    } else {
      BitAnd(x / 2, y / 2, i - 1);
    }
  }

  lemma {:induction false} BitOr(x: nat, y: nat, i: nat)
    ensures Bit(Or(x, y), i) <==> Bit(x, i) || Bit(y, i)
    decreases i
  {
    hide Or, Bit;
    var either := if x % 2 == 1 || y % 2 == 1 then 1 else 0;
    OrStep(x, y);
    BitStep(x, x / 2, x % 2, i);
    BitStep(y, y / 2, y % 2, i);
    BitStep(Or(x, y), Or(x / 2, y / 2), either, i);
    if i == 0 {
    } else {
      BitOr(x / 2, y / 2, i - 1);
    }
  }

  lemma {:induction false} BitZero(i: nat)
    ensures !Bit(0, i)
  {
    if i == 0 {
    } else {
      BitZero(i - 1);
    }
  }

  lemma {:induction false} BitAbove(x: nat, k: nat, i: nat)
    requires x < Pow2(k) && i >= k
    ensures !Bit(x, i)
    decreases k
  {
    if k == 0 { BitZero(i); } else { BitAbove(x / 2, k - 1, i - 1); }
  }

  lemma {:induction false} BitComplement(x: nat, k: nat, i: nat)
    requires x < Pow2(k) && i < k
    ensures Bit(Pow2(k) - 1 - x, i) <==> !Bit(x, i)
    decreases k
  {
    hide Pow2, Bit;
    Pow2Step(k);
    BitStep(x, x / 2, x % 2, i);
    BitStep(Pow2(k) - 1 - x, Pow2(k - 1) - 1 - x / 2, 1 - x % 2, i);
    if i == 0 {
    } else {
      BitComplement(x / 2, k - 1, i - 1);
    }
  }

  lemma {:induction false} BitShr(x: nat, s: nat, i: nat)
    ensures Bit(Shr(x, s), i) <==> Bit(x, s + i)
    decreases s
  {
    if s == 0 {
    } else {
      BitShr(x / 2, s - 1, i);
    }
  }

  lemma {:induction false} ShrTwice(x: nat, s: nat, t: nat)
    ensures Shr(x, s + t) == Shr(Shr(x, s), t)
    decreases s
  {
    if s == 0 {
    } else {
      ShrTwice(x / 2, s - 1, t);
    }
  }

  lemma {:induction false} ShrDivides(x: nat, s: nat)
    ensures Shr(x, s) == x / Pow2(s)
    decreases s
  {
    if s == 0 {
    } else {
      ShrDivides(x / 2, s - 1);
      HalfDiv(x, s);
    }
  }

  lemma {:induction false} BitShl(x: nat, s: nat, i: nat)
    ensures Bit(x * Pow2(s), i) <==> i >= s && Bit(x, i - s)
    decreases s
  {
    if s == 0 {
    } else {
      var y := x * Pow2(s - 1);
      assert x * Pow2(s) == 2 * y;
      if i > 0 { BitShl(x, s - 1, i - 1); }
    }
  }

  lemma BitStep(x: nat, half: nat, low: nat, i: nat)
    requires x == 2 * half + low && low < 2
    ensures Bit(x, i) <==> if i == 0 then low == 1 else Bit(half, i - 1)
  {}

  lemma {:induction false} BitMod(x: nat, k: nat, i: nat)
    ensures Bit(x % Pow2(k), i) <==> i < k && Bit(x, i)
    decreases k
  {
    if k == 0 {
      BitZero(i);
    } else {
      HalfMod(x, k);
      BitStep(x % Pow2(k), x / 2 % Pow2(k - 1), x % 2, i);
      if i > 0 { BitMod(x / 2, k - 1, i - 1); }
    }
  }

  /** Two words with the same bits are the same word. */
  lemma {:induction false} SameBits(x: nat, y: nat, k: nat)
    requires x < Pow2(k) && y < Pow2(k)
    requires forall i: nat :: i < k ==> (Bit(x, i) <==> Bit(y, i))
    ensures x == y
    decreases k
  {
    if k == 0 {
    } else {
      assert Bit(x, 0) <==> Bit(y, 0);
      forall i: nat | i < k - 1 ensures Bit(x / 2, i) <==> Bit(y / 2, i) {
        assert Bit(x, i + 1) <==> Bit(y, i + 1);
      }
      SameBits(x / 2, y / 2, k - 1);
    }
  }

  lemma {:induction false} OrBound(x: nat, y: nat, k: nat)
    requires x < Pow2(k) && y < Pow2(k)
    ensures Or(x, y) < Pow2(k)
    decreases k
  {
    hide Or, Pow2;
    OrStep(x, y);
    if k == 0 {
      Pow2Zero();
      OrStep(0, 0);
    } else {
      Pow2Step(k);
      OrBound(x / 2, y / 2, k - 1);
    }
  }

  lemma HalfDiv(x: nat, s: nat)
    requires s > 0
    ensures x / Pow2(s) == (x / 2) / Pow2(s - 1)
  {
    var d := Pow2(s - 1);
    var q, r := x / 2 / d, x / 2 % d;
    assert x / 2 == q * d + r;
    assert x == q * (2 * d) + (2 * r + x % 2);
    DivModUnique(x, 2 * d, q, 2 * r + x % 2);
  }

  lemma HalfMod(x: nat, k: nat)
    requires k > 0
    ensures x % Pow2(k) == 2 * (x / 2 % Pow2(k - 1)) + x % 2
  {
    var d := Pow2(k - 1);
    var q, r := x / 2 / d, x / 2 % d;
    assert x / 2 == q * d + r;
    assert x == q * (2 * d) + (2 * r + x % 2);
    DivModUnique(x, 2 * d, q, 2 * r + x % 2);
  }

  /** Bitwise operators on 32-bit words. */
  function And32(x: u32, y: u32): (r: u32) { And(x, y) }

  function Or32(x: u32, y: u32): (r: u32) {
    Pow2Values();
    OrBound(x, y, 32);
    Or(x, y)
  }

  function Shr32(x: u32, s: nat): (r: u32) {
    ShrBound(x, s);
    Shr(x, s)
  }

  lemma {:induction false} ShrBound(x: nat, j: nat)
    ensures Shr(x, j) <= x
    decreases j
  {
    if j == 0 {
    } else {
      ShrBound(x / 2, j - 1);
    }
  }

  lemma BitNot32(x: u32, i: nat)
    requires i < 32
    ensures Bit(Not32(x), i) <==> !Bit(x, i)
  {
    Pow2Values();
    hide Pow2, Bit;
    BitComplement(x, 32, i);
  }

  lemma BitShl32(x: u32, s: nat, i: nat)
    ensures Bit(Shl32(x, s), i) <==> s <= i < 32 && Bit(x, i - s)
  {
    Pow2Values();
    hide Pow2, Bit;
    BitMod(x * Pow2(s), 32, i);
    BitShl(x, s, i);
  }

  lemma SameBits32(x: u32, y: u32)
    requires forall i: nat :: i < 32 ==> (Bit(x, i) <==> Bit(y, i))
    ensures x == y
  {
    Pow2Values();
    hide Pow2, Bit;
    SameBits(x, y, 32);
  }

  lemma {:induction false} BitOnes(k: nat, i: nat)
    ensures Bit(Pow2(k) - 1, i) <==> i < k
  {
    hide Pow2, Bit;
    if k == 0 {
      Pow2Zero();
      BitZero(i);
    } else {
      Pow2Step(k);
      BitStep(Pow2(k) - 1, Pow2(k - 1) - 1, 1, i);
      if i > 0 { BitOnes(k - 1, i - 1); }
    }
  }

  // --- the idioms div64.h is written in

  /** One bit of `x & y` at a time. */
  lemma AndStep(x: nat, y: nat, halfX: nat, bitX: nat, halfY: nat, bitY: nat)
    requires x == 2 * halfX + bitX && y == 2 * halfY + bitY && bitX < 2 && bitY < 2
    ensures And(x, y) == (if bitX == 1 && bitY == 1 then 1 else 0) + 2 * And(halfX, halfY)
  {
    assert x / 2 == halfX && x % 2 == bitX && y / 2 == halfY && y % 2 == bitY;
  }

  lemma OrStep(x: nat, y: nat)
    ensures Or(x, y) == (if x % 2 == 1 || y % 2 == 1 then 1 else 0) + 2 * Or(x / 2, y / 2)
  {}

  lemma AndZero(x: nat)
    ensures And(0, x) == 0 && And(x, 0) == 0
  {}

  /** `x & (2^k - 1)` is the remainder modulo 2^k. */
  lemma AndMask(x: nat, k: nat)
    ensures And(x, Pow2(k) - 1) == x % Pow2(k)
  {
    AndMaskLow(x, k);
  }

  /** The k lowest bits of x. */
  function Low(x: nat, k: nat): (r: nat) {
    x % Pow2(k)
  }

  lemma LowStep(x: nat, k: nat)
    ensures Low(x, k) == if k == 0 then 0 else 2 * Low(x / 2, k - 1) + x % 2
  {
    if k > 0 { HalfMod(x, k); }
  }

  lemma {:induction false} AndMaskLow(x: nat, k: nat)
    ensures And(x, Pow2(k) - 1) == Low(x, k)
    decreases k
  {
    hide And, Pow2, Low;
    LowStep(x, k);
    if k == 0 {
      Pow2Zero();
      AndZero(x);
    } else {
      Pow2Step(k);
      AndMaskLow(x / 2, k - 1);
      AndStep(x, Pow2(k) - 1, x / 2, x % 2, Pow2(k - 1) - 1, 1);
    }
  }

  lemma {:induction false} AndDisjoint(x: nat, k: nat)
    requires x < Pow2(k)
    ensures And(x, Pow2(k) - 1 - x) == 0
    decreases k
  {
    hide And, Pow2;
    if k == 0 {
      Pow2Zero();
      AndZero(0);
    } else {
      Pow2Step(k);
      AndDisjoint(x / 2, k - 1);
      AndStep(x, Pow2(k) - 1 - x, x / 2, x % 2, Pow2(k - 1) - 1 - x / 2, 1 - x % 2);
    }
  }

  /** `x & -x` isolates the lowest set bit. */
  lemma {:induction false} AndNeg(x: nat, k: nat)
    requires 0 < x < Pow2(k)
    ensures And(x, Pow2(k) - x) == LowBit(x)
    decreases k
  {
    hide And, Pow2, LowBit;
    if k == 0 {
      Pow2Zero();
      assert false;
    } else {
      Pow2Step(k);
      LowBitStep(x);
      if x % 2 == 1 {
        AndDisjoint(x / 2, k - 1);
        AndStep(x, Pow2(k) - x, x / 2, 1, Pow2(k - 1) - 1 - x / 2, 1);
      } else {
        AndNeg(x / 2, k - 1);
        AndStep(x, Pow2(k) - x, x / 2, 0, Pow2(k - 1) - x / 2, 0);
      }
    }
  }

  lemma LowBitStep(x: nat)
    requires x > 0
    ensures if x % 2 == 1 then LowBit(x) == 1 else LowBit(x) == 2 * LowBit(x / 2)
  {}

  /** `x & (x - 1)` clears the lowest set bit. */
  lemma {:induction false} AndPred(x: nat)
    requires x > 0
    ensures LowBit(x) <= x && And(x, x - 1) == x - LowBit(x)
  {
    if x % 2 == 1 {
      assert (x - 1) / 2 == x / 2;
      AndSelf(x / 2);
    } else {
      AndPred(x / 2);
      assert (x - 1) / 2 == x / 2 - 1;
    }
  }

  lemma AndSelf(x: nat)
    ensures And(x, x) == x
  {}

  lemma {:induction false} LowBitDivides(x: nat)
    requires x > 0
    ensures x % LowBit(x) == 0 && x == LowBit(x) * (x / LowBit(x)) && (x / LowBit(x)) % 2 == 1
  {
    var c := OddPart(x);
    ExactDivision(x, LowBit(x), c);
  }

  lemma {:induction false} OddPart(x: nat) returns (c: nat)
    requires x > 0
    ensures x == c * LowBit(x) && c % 2 == 1
  {
    LowBitStep(x);
    if x % 2 == 1 {
      c := x;
    } else {
      c := OddPart(x / 2);
      hide LowBit;
      Swap(c, 2, LowBit(x / 2));
    }
  }

  lemma LowIndexBound(x: nat, k: nat)
    requires 0 < x < Pow2(k)
    ensures LowIndex(x) < k
  {
    if LowIndex(x) >= k { BitAbove(x, k, LowIndex(x)); assert false; }
  }

  /** Every bit below the lowest set bit is clear. */
  lemma {:induction false} BelowLowIndex(x: nat, i: nat)
    requires x > 0 && i < LowIndex(x)
    ensures !Bit(x, i)
  {
    if i == 0 {
    } else {
      BelowLowIndex(x / 2, i - 1);
    }
  }

  lemma {:induction false} BitILog2(x: nat)
    requires x > 0
    ensures Bit(x, ILog2(x))
  {
    if x == 1 {
    } else {
      BitILog2(x / 2);
    }
  }

  lemma LowBitPow2(x: nat)
    requires x > 0
    ensures LowBit(x) == x <==> IsPow2(x)
  {
    if LowBit(x) == x { ILog2Pow2(LowIndex(x)); }
    if IsPow2(x) {
      var e := ILog2(x);
      LowIndexPow2(e);
    }
  }

  lemma {:induction false} LowIndexPow2(e: nat)
    ensures LowIndex(Pow2(e)) == e
  {
    hide Pow2, LowIndex;
    if e == 0 {
      Pow2Zero();
      LowIndexStep(1);
    } else {
      Pow2Step(e);
      LowIndexPow2(e - 1);
      LowIndexStep(Pow2(e));
    }
  }

  lemma LowIndexStep(x: nat)
    requires x > 0
    ensures LowIndex(x) == if x % 2 == 1 then 0 else 1 + LowIndex(x / 2)
  {}
}
