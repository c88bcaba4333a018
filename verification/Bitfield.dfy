/**
 The bitfield helpers of u-boot/include/bitfield.h. Every law is proved from the
 bit-level meaning of the operation, for every field whose shift and width C can
 shift by; a field that sticks out of the word is cut off at bit 31.
 */
module Bitfield {
  import opened Arith
  import opened Words

  /** The shift counts the C expressions are defined for. */
  predicate Shiftable(shift: nat, width: nat) { shift < 32 && width < 32 }

  /** Bit i belongs to the field. */
  predicate InField(shift: nat, width: nat, i: nat) { shift <= i < shift + width && i < 32 }

  /** How many bits of the field lie inside the word. */
  function FieldWidth(shift: nat, width: nat): (r: nat)
    requires Shiftable(shift, width)
  {
    if shift + width <= 32 then width else 32 - shift
  }

  function Mask(shift: nat, width: nat): (r: u32)
    requires Shiftable(shift, width)
  {
    Shl32(Sub32(Shl32(1, width), 1), shift)
  }

  function Extract(reg: u32, shift: nat, width: nat): (r: u32)
    requires Shiftable(shift, width)
  {
    Shr32(And32(reg, Mask(shift, width)), shift)
  }

  function Replace(reg: u32, shift: nat, width: nat, val: u32): (r: u32)
    requires Shiftable(shift, width)
  {
    var mask := Mask(shift, width);
    Or32(And32(reg, Not32(mask)), And32(Shl32(val, shift), mask))
  }

  function ShiftOf(mask: u32): (r: nat) {
    if mask != 0 then Ffs(mask) - 1 else 0
  }

  function ExtractByMask(reg: u32, mask: u32): (r: u32) {
    Shr32(And32(reg, mask), ShiftOf(mask))
  }

  function ReplaceByMask(reg: u32, mask: u32, val: u32): (r: u32) {
    Or32(And32(reg, Not32(mask)), And32(Shl32(val, ShiftOf(mask)), mask))
  }

  /** The shift of a mask is the position of its lowest set bit, contiguous or not. */
  lemma ShiftIsLowest(mask: u32)
    ensures mask == 0 ==> ShiftOf(mask) == 0
    ensures mask != 0 ==> Bit(mask, ShiftOf(mask)) && forall i: nat :: i < ShiftOf(mask) ==> !Bit(mask, i)
  {
    hide Bit;
    forall i: nat | mask != 0 && i < ShiftOf(mask) ensures !Bit(mask, i) { BelowLowIndex(mask, i); }
  }

  // --- what the operations do to each bit

  lemma MaskBits(shift: nat, width: nat, i: nat)
    requires Shiftable(shift, width)
    ensures Bit(Mask(shift, width), i) <==> shift <= i < shift + width && i < 32
  {
    hide Pow2, Bit, Shl32, Sub32;
    Ones(width);
    BitShl32(Pow2(width) - 1, shift, i);
    if i >= shift { BitOnes(width, i - shift); }
  }

  lemma Ones(width: nat)
    requires width < 32
    ensures Sub32(Shl32(1, width), 1) == Pow2(width) - 1
  {
    Pow2Values();
    hide Pow2;
    Pow2Mono(width, 31);
  }

  /** As a number, the mask of a field that lies inside the word. */
  lemma MaskValue(shift: nat, width: nat)
    requires Shiftable(shift, width) && shift + width <= 32
    ensures Mask(shift, width) == (Pow2(width) - 1) * Pow2(shift)
  {
    Pow2Values();
    hide Pow2, Sub32;
    Ones(width);
    Pow2Add(width, shift);
    Pow2Mono(width + shift, 32);
    Dist(Pow2(width), 1, Pow2(shift));
    Le(0, Pow2(width) - 1, Pow2(shift));
    ShlFits(Pow2(width) - 1, shift, (Pow2(width) - 1) * Pow2(shift));
  }

  lemma ShlFits(x: u32, s: nat, y: u32)
    requires y == x * Pow2(s)
    ensures Shl32(x, s) == y
  {}

  lemma ExtractBits(reg: u32, shift: nat, width: nat, i: nat)
    requires Shiftable(shift, width)
    ensures Bit(Extract(reg, shift, width), i) <==> i < FieldWidth(shift, width) && Bit(reg, shift + i)
  {
    BitShr(And32(reg, Mask(shift, width)), shift, i);
    BitAnd(reg, Mask(shift, width), shift + i);
    MaskBits(shift, width, shift + i);
  }

  lemma ReplaceBits(reg: u32, shift: nat, width: nat, val: u32, i: nat)
    requires Shiftable(shift, width) && i < 32
    ensures Bit(Replace(reg, shift, width, val), i) <==>
            if shift <= i < shift + width then Bit(val, i - shift) else Bit(reg, i)
  {
    hide Mask, Shl32, And, Or, Not32;
    var mask := Mask(shift, width);
    BitOr(And32(reg, Not32(mask)), And32(Shl32(val, shift), mask), i);
    BitAnd(reg, Not32(mask), i);
    BitAnd(Shl32(val, shift), mask, i);
    BitNot32(mask, i);
    BitShl32(val, shift, i);
    MaskBits(shift, width, i);
  }

  // --- get and put

  /** Extracting is dividing out the bits below the field and dropping those above it. */
  lemma ExtractValue(reg: u32, shift: nat, width: nat)
    requires Shiftable(shift, width)
    ensures Extract(reg, shift, width) == reg / Pow2(shift) % Pow2(FieldWidth(shift, width))
    ensures shift + width <= 32 ==> Extract(reg, shift, width) == reg / Pow2(shift) % Pow2(width)
    ensures shift + width >= 32 ==> Extract(reg, shift, width) == reg / Pow2(shift)
  {
    hide Extract, Bit, Pow2;
    if shift + width >= 32 { UpperField(reg, shift); }
    var w := FieldWidth(shift, width);
    ShrDivides(reg, shift);
    var v: u32 := LowBits(Shr32(reg, shift), w);
    forall i: nat | i < 32 ensures Bit(Extract(reg, shift, width), i) <==> Bit(v, i) {
      ExtractBits(reg, shift, width, i);
      BitMod(Shr(reg, shift), w, i);
      BitShr(reg, shift, i);
    }
    SameBits32(Extract(reg, shift, width), v);
  }

  lemma UpperField(reg: u32, shift: nat)
    requires shift < 32
    ensures 0 <= reg / Pow2(shift) && reg / Pow2(shift) % Pow2(32 - shift) == reg / Pow2(shift)
  {
    Pow2Values();
    hide Pow2;
    Pow2Add(32 - shift, shift);
    QuotientBelow(reg, Pow2(shift), Pow2(32 - shift));
    DivModUnique(reg / Pow2(shift), Pow2(32 - shift), 0, reg / Pow2(shift));
  }

  /** x modulo 2^w. */
  function LowBits(x: u32, w: nat): (r: u32) {
    AndMask(x, w);
    x % Pow2(w)
  }

  /** What was put into a field is what is read back, cut to the field's width. */
  lemma ExtractAfterReplace(reg: u32, shift: nat, width: nat, val: u32)
    requires Shiftable(shift, width)
    ensures Extract(Replace(reg, shift, width, val), shift, width) == val % Pow2(FieldWidth(shift, width))
    ensures shift + width <= 32 ==> Extract(Replace(reg, shift, width, val), shift, width) == val % Pow2(width)
  {
    hide Extract, Replace;
    var w := FieldWidth(shift, width);
    var put := Replace(reg, shift, width, val);
    forall i: nat | i < 32 ensures Bit(Extract(put, shift, width), i) <==> Bit(LowBits(val, w), i) {
      ExtractBits(put, shift, width, i);
      BitMod(val, w, i);
      if i < w { ReplaceBits(reg, shift, width, val, shift + i); }
    }
    SameBits32(Extract(put, shift, width), LowBits(val, w));
  }

  /** Putting back what was read changes nothing. */
  lemma ReplaceWithExtracted(reg: u32, shift: nat, width: nat)
    requires Shiftable(shift, width)
    ensures Replace(reg, shift, width, Extract(reg, shift, width)) == reg
  {
    hide Extract, Replace;
    var val := Extract(reg, shift, width);
    forall i: nat | i < 32 ensures Bit(Replace(reg, shift, width, val), i) <==> Bit(reg, i) {
      ReplaceBits(reg, shift, width, val, i);
      if i >= shift { ExtractBits(reg, shift, width, i - shift); }
    }
    SameBits32(Replace(reg, shift, width, val), reg);
  }

  /** The last put wins. */
  lemma ReplaceTwice(reg: u32, shift: nat, width: nat, val: u32, val': u32)
    requires Shiftable(shift, width)
    ensures Replace(Replace(reg, shift, width, val), shift, width, val') == Replace(reg, shift, width, val')
  {
    hide Replace;
    var first := Replace(reg, shift, width, val);
    forall i: nat | i < 32
      ensures Bit(Replace(first, shift, width, val'), i) <==> Bit(Replace(reg, shift, width, val'), i)
    {
      ReplaceBits(first, shift, width, val', i);
      ReplaceBits(reg, shift, width, val', i);
      ReplaceBits(reg, shift, width, val, i);
    }
    SameBits32(Replace(first, shift, width, val'), Replace(reg, shift, width, val'));
  }

  // --- tables of fields

  datatype Field = Field(shift: nat, width: nat, val: u32)

  /** The fields share a bit of the word. */
  ghost predicate Overlap(f: Field, g: Field) {
    exists i: nat :: InField(f.shift, f.width, i) && InField(g.shift, g.width, i)
  }

  ghost predicate TableOk(fs: seq<Field>) {
    && (forall f :: f in fs ==> Shiftable(f.shift, f.width))
    && (forall f, g :: f in fs && g in fs && f != g ==> !Overlap(f, g))
  }

  /** Reprogramming a register from a table, entry by entry. */
  function ApplyAll(reg: u32, fs: seq<Field>): (r: u32)
    requires forall f :: f in fs ==> Shiftable(f.shift, f.width)
  {
    if fs == [] then reg
    else
      var f := fs[|fs| - 1];
      Replace(ApplyAll(reg, fs[..|fs| - 1]), f.shift, f.width, f.val)
  }

  /** A bit no entry covers is unchanged. */
  lemma {:induction false} UncoveredBit(reg: u32, fs: seq<Field>, i: nat)
    requires TableOk(fs) && i < 32 && forall f :: f in fs ==> !InField(f.shift, f.width, i)
    ensures Bit(ApplyAll(reg, fs), i) <==> Bit(reg, i)
  {
    if fs == [] {
    } else {
      hide Replace, Bit;
      var rest, f := fs[..|fs| - 1], fs[|fs| - 1];
      UncoveredBit(reg, rest, i);
      ReplaceBits(ApplyAll(reg, rest), f.shift, f.width, f.val, i);
    }
  }

  /** A covered bit comes from the entry that covers it. */
  lemma {:induction false} CoveredBit(reg: u32, fs: seq<Field>, g: Field, i: nat)
    requires TableOk(fs) && i < 32 && g in fs && InField(g.shift, g.width, i)
    ensures Bit(ApplyAll(reg, fs), i) <==> Bit(g.val, i - g.shift)
  {
    hide Replace, Bit;
    var rest, f := fs[..|fs| - 1], fs[|fs| - 1];
    assert fs == rest + [f];
    ReplaceBits(ApplyAll(reg, rest), f.shift, f.width, f.val, i);
    if g == f {
    } else {
      CoveredBit(reg, rest, g, i);
    }
  }

  /** Tables with the same pairwise disjoint entries program the same register, in whatever order. */
  lemma OrderDoesNotMatter(reg: u32, fs: seq<Field>, gs: seq<Field>)
    requires TableOk(fs) && (forall f :: f in fs <==> f in gs)
    ensures ApplyAll(reg, fs) == ApplyAll(reg, gs)
  {
    forall i: nat | i < 32 ensures Bit(ApplyAll(reg, fs), i) <==> Bit(ApplyAll(reg, gs), i) {
      hide ApplyAll, Bit;
      if f :| f in fs && InField(f.shift, f.width, i) {
        CoveredBit(reg, fs, f, i);
        CoveredBit(reg, gs, f, i);
      } else {
        UncoveredBit(reg, fs, i);
        UncoveredBit(reg, gs, i);
      }
    }
    SameBits32(ApplyAll(reg, fs), ApplyAll(reg, gs));
  }

  // --- the by-mask forms

  /** bitfield_shift recovers the shift from the mask, unless the field is empty. */
  lemma ShiftOfMask(shift: nat, width: nat)
    requires Shiftable(shift, width)
    ensures width == 0 <==> Mask(shift, width) == 0
    ensures ShiftOf(Mask(shift, width)) == if width == 0 then 0 else shift
  {
    var mask := Mask(shift, width);
    forall i: nat ensures Bit(mask, i) <==> InField(shift, width, i) { MaskBits(shift, width, i); }
    hide Mask;
    BitZero(shift);
    if width == 0 {
      forall i: nat | i < 32 ensures Bit(mask, i) <==> Bit(0, i) { BitZero(i); }
      SameBits32(mask, 0);
    } else {
      assert Bit(mask, shift);
      if LowIndex(mask) > shift { BelowLowIndex(mask, shift); assert false; }
      assert Bit(mask, LowIndex(mask));
    }
  }

  /** The by-mask forms agree with the shift and width forms for every mask bitfield_mask makes. */
  lemma ByMaskAgrees(reg: u32, shift: nat, width: nat, val: u32)
    requires Shiftable(shift, width)
    ensures ExtractByMask(reg, Mask(shift, width)) == Extract(reg, shift, width)
    ensures ReplaceByMask(reg, Mask(shift, width), val) == Replace(reg, shift, width, val)
  {
    ShiftOfMask(shift, width);
    if width == 0 {
      AndWithZero(reg);
      ShrZero(shift);
      AndWithZero(Shl32(val, shift));
      AndWithZero(Shl32(val, 0));
    }
  }

  lemma AndWithZero(x: nat)
    ensures And(x, 0) == 0
  {}

  lemma {:induction false} ShrZero(s: nat)
    ensures Shr(0, s) == 0
  {
    if s == 0 {
    } else {
      ShrZero(s - 1);
    }
  }

  /** Putting back what was read changes nothing, for every mask at all. */
  lemma ReplaceByMaskWithExtracted(reg: u32, mask: u32)
    ensures ReplaceByMask(reg, mask, ExtractByMask(reg, mask)) == reg
  {
    var s, val := ShiftOf(mask), ExtractByMask(reg, mask);
    forall i: nat | i < 32 ensures Bit(ReplaceByMask(reg, mask, val), i) <==> Bit(reg, i) {
      hide Shl32, And, Or, Not32, Bit;
      BitOr(And32(reg, Not32(mask)), And32(Shl32(val, s), mask), i);
      BitAnd(reg, Not32(mask), i);
      BitAnd(Shl32(val, s), mask, i);
      BitNot32(mask, i);
      BitShl32(val, s, i);
      if i < s { BelowLowIndex(mask, i); } else {
        BitShr(And32(reg, mask), s, i - s);
        BitAnd(reg, mask, i);
      }
    }
    SameBits32(ReplaceByMask(reg, mask, val), reg);
  }

  /** What is read back is the value put, cut to the bits under the mask: contiguous or not, no bit of it moves. */
  lemma ExtractByMaskAfterReplace(reg: u32, mask: u32, val: u32)
    ensures ExtractByMask(ReplaceByMask(reg, mask, val), mask) == And32(val, Shr32(mask, ShiftOf(mask)))
  {
    hide Shl32, And, Or, Not32, Bit, ShiftOf, ReplaceByMask;
    var s, put := ShiftOf(mask), ReplaceByMask(reg, mask, val);
    forall i: nat | i < 32
      ensures Bit(ExtractByMask(put, mask), i) <==> Bit(And32(val, Shr32(mask, s)), i)
    {
      BitShr(And32(put, mask), s, i);
      BitAnd(put, mask, s + i);
      BitAnd(val, Shr32(mask, s), i);
      BitShr(mask, s, i);
      if Bit(mask, s + i) { PutByMask(reg, mask, val, s + i); }
    }
    SameBits32(ExtractByMask(put, mask), And32(val, Shr32(mask, s)));
  }

  /** A bit under the mask comes from the value. */
  lemma PutByMask(reg: u32, mask: u32, val: u32, i: nat)
    requires Bit(mask, i)
    ensures ShiftOf(mask) <= i < 32
    ensures Bit(ReplaceByMask(reg, mask, val), i) <==> Bit(val, i - ShiftOf(mask))
  {
    hide Shl32, And, Or, Not32, Bit;
    var s := ShiftOf(mask);
    WordBit(mask, i);
    if i < s { BelowLowIndex(mask, i); }
    BitOr(And32(reg, Not32(mask)), And32(Shl32(val, s), mask), i);
    BitAnd(reg, Not32(mask), i);
    BitAnd(Shl32(val, s), mask, i);
    BitNot32(mask, i);
    BitShl32(val, s, i);
  }

  lemma WordBit(x: u32, i: nat)
    requires Bit(x, i)
    ensures i < 32
  {
    Pow2Values();
    hide Pow2, Bit;
    if i >= 32 { BitAbove(x, 32, i); assert false; }
  }
}
