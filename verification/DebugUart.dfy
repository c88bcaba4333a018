/**
 The number and string printers of u-boot/include/debug_uart.h, with the parsers
 that undo them. _debug_uart_putc() appends to the output.
 */
module DebugUart {
  import opened Arith
  import opened Words

  // --- numerals

  /** The value of a character as a digit, lower case only; -1 for anything else. */
  function DigitValue(c: char): (r: int) {
    if '0' <= c <= '9' then c as int - '0' as int
    else if 'a' <= c <= 'f' then c as int - 'a' as int + 10
    else -1
  }

  /** The characters with a digit value, and no others. */
  lemma DigitValueMeans(c: char)
    ensures 0 <= DigitValue(c) < 16 ==> "0123456789abcdef"[DigitValue(c)] == c
    ensures forall d: nat :: d < 16 && "0123456789abcdef"[d] == c ==> DigitValue(c) == d
  {}

  /** Every character is a digit below base. */
  predicate IsNumeral(s: string, base: nat) {
    forall i :: 0 <= i < |s| ==> 0 <= DigitValue(s[i]) < base
  }

  /** Positional value, most significant digit first. */
  function Parse(s: string, base: nat): (r: nat)
    requires IsNumeral(s, base)
  {
    if s == [] then 0
    else
      ParseStep(Parse(s[..|s| - 1], base), base, DigitValue(s[|s| - 1]));
      Parse(s[..|s| - 1], base) * base + DigitValue(s[|s| - 1])
  }

  lemma ParseStep(v: nat, base: nat, d: nat)
    ensures v * base + d >= 0
  {}

  function Pow(base: nat, e: nat): (r: nat) {
    if e == 0 then 1 else Pow(base, e - 1) * base
  }

  /** The decimal numerals without needless leading zeros. */
  predicate IsCanonical(s: string) {
    s != "" && IsNumeral(s, 10) && (|s| > 1 ==> s[0] != '0')
  }

  lemma DigitsDiffer(c: char, d: char)
    requires DigitValue(c) == DigitValue(d) >= 0
    ensures c == d
  {}

  /** Numerals of the same length and value are the same. */
  lemma {:induction false} SameLengthUnique(s: string, t: string, base: nat)
    requires |s| == |t| && IsNumeral(s, base) && IsNumeral(t, base) && Parse(s, base) == Parse(t, base)
    ensures s == t
    decreases |s|
  {
    if s == [] {
    } else {
      var s', t' := s[..|s| - 1], t[..|t| - 1];
      var d, e := DigitValue(s[|s| - 1]), DigitValue(t[|t| - 1]);
      DivModUnique(Parse(s, base), base, Parse(s', base), d);
      DivModUnique(Parse(t, base), base, Parse(t', base), e);
      SameLengthUnique(s', t', base);
      DigitsDiffer(s[|s| - 1], t[|t| - 1]);
      assert s == s' + [s[|s| - 1]] && t == t' + [t[|t| - 1]];
    }
  }

  /** A canonical numeral of length n + 1 > 1 is at least 10^n, and any numeral of length n is below it. */
  lemma {:induction false} NumeralRange(s: string)
    requires IsNumeral(s, 10)
    ensures Parse(s, 10) < Pow(10, |s|)
    ensures s != "" && s[0] != '0' ==> Parse(s, 10) >= Pow(10, |s| - 1)
    decreases |s|
  {
    if s == "" {
    } else {
      NumeralRange(s[..|s| - 1]);
    }
  }

  lemma {:induction false} PowMono(a: nat, b: nat)
    requires a <= b
    ensures Pow(10, a) <= Pow(10, b)
  {
    if a == b {
    } else {
      PowMono(a, b - 1);
    }
  }

  lemma LongerIsLarger(s: string, t: string)
    requires IsCanonical(s) && IsCanonical(t) && |s| < |t|
    ensures Parse(s, 10) < Parse(t, 10)
  {
    NumeralRange(s);
    NumeralRange(t);
    PowMono(|s|, |t| - 1);
  }

  /** Every value has just one canonical decimal numeral. */
  lemma CanonicalUnique(s: string, t: string)
    requires IsCanonical(s) && IsCanonical(t) && Parse(s, 10) == Parse(t, 10)
    ensures s == t
  {
    if |s| < |t| { LongerIsLarger(s, t); assert false; }
    if |t| < |s| { LongerIsLarger(t, s); assert false; }
    SameLengthUnique(s, t, 10);
  }

  lemma ParseAppend(s: string, c: char, base: nat)
    requires IsNumeral(s, base) && 0 <= DigitValue(c) < base
    ensures IsNumeral(s + [c], base) && Parse(s + [c], base) == Parse(s, base) * base + DigitValue(c)
  {
    assert (s + [c])[..|s|] == s;
  }

  // --- carriage returns

  /** What _printch() emits for each character of s. */
  function WithCr(s: string): (r: string) {
    if s == "" then ""
    else (if s[0] == '\n' then "\r\n" else [s[0]]) + WithCr(s[1..])
  }

  /** Remove one carriage return before each line feed. */
  function WithoutCr(t: string): (r: string) {
    if |t| >= 2 && t[0] == '\r' && t[1] == '\n' then "\n" + WithoutCr(t[2..])
    else if t == "" then ""
    else [t[0]] + WithoutCr(t[1..])
  }

  /** The added carriage returns can be undone on every string, even one that has carriage returns of its own. */
  lemma {:induction false} WithoutWithCr(s: string)
    ensures WithoutCr(WithCr(s)) == s
    decreases |s|
  {
    if s == "" {
    } else {
      var t := WithCr(s);
      WithoutWithCr(s[1..]);
      if s[0] == '\n' {
        assert t[2..] == WithCr(s[1..]);
      } else {
        assert t[1..] == WithCr(s[1..]);
        assert s[1..] == "" || WithCr(s[1..])[0] != '\n';
      }
    }
  }

  lemma {:induction false} WithCrAppend(s: string, c: char)
    ensures WithCr(s + [c]) == WithCr(s) + WithCr([c])
    decreases |s|
  {
    if s == "" {
      assert s + [c] == [c];
    } else {
      assert (s + [c])[1..] == s[1..] + [c];
      WithCrAppend(s[1..], c);
    }
  }

  // --- the printers

  class Uart {
    var out: string

    constructor ()
      ensures out == ""
    {
      out := "";
    }

    method Putc(ch: char)
      modifies this
      ensures out == old(out) + [ch]
    {
      out := out + [ch];
    }

    method Printch(ch: char)
      modifies this
      ensures out == old(out) + WithCr([ch])
      ensures out == old(out) + (if ch == '\n' then "\r\n" else [ch])
    {
      if ch == '\n' {
        Putc('\r');
      }
      Putc(ch);
    }

    /** str is a C string: everything before the first NUL is printed. */
    method Printascii(str: string, ghost len: nat)
      requires len < |str| && str[len] == '\0' && '\0' !in str[..len]
      modifies this
      ensures out == old(out) + WithCr(str[..len])
      ensures WithoutCr(out[|old(out)|..]) == str[..len]
    {
      var i := 0;
      while str[i] != '\0'
        invariant 0 <= i <= len
        invariant out == old(out) + WithCr(str[..i])
        decreases len - i
      {
        assert i != len;
        assert str[..i + 1] == str[..i] + [str[i]];
        WithCrAppend(str[..i], str[i]);
        Printch(str[i]);
        i := i + 1;
      }
      WithoutWithCr(str[..len]);
    }

    method Printhex1(digit0: u32)
      modifies this
      ensures |out| == |old(out)| + 1 && out[..|old(out)|] == old(out)
      ensures DigitValue(out[|old(out)|]) == digit0 % 16
      ensures out[|old(out)|] == "0123456789abcdef"[digit0 % 16]
    {
      hide And, DigitValue, Pow2;
      LowNibbleMask(digit0);
      var digit: u32 := And(digit0, 0xf);
      DigitChars(digit);
      Putc(if digit > 9 then (digit - 10 + 'a' as int) as char else (digit + '0' as int) as char);
    }

    /** Exactly `digits` lower-case hexadecimal digits, whose value is value modulo 16^digits. */
    method Printhex(value: u32, digits0: int)
      requires digits0 <= 8
      modifies this
      ensures old(out) <= out
      ensures var s := out[|old(out)|..]; var d := if digits0 < 0 then 0 else digits0;
        |s| == d && IsNumeral(s, 16) && Parse(s, 16) == value % Pow2(4 * d)
      ensures var s := out[|old(out)|..]; forall k: nat :: k < |s| ==> s[k] == HexDigit(value, |s| - 1 - k)
    {
      hide Shr, Parse, IsNumeral, HexDigit, Pow2, Printed;
      var digits := digits0;
      ghost var d := if digits0 < 0 then 0 else digits0;
      ghost var s := "";
      PrintedNothing(value, d);
      while digits > 0
        invariant digits <= d && (digits < 0 ==> d == 0)
        invariant out == old(out) + s
        invariant Printed(s, value, if digits < 0 then 0 else digits, d)
        decreases digits
      {
        digits := digits - 1;
        ghost var was := out;
        Printhex1(Shr32(value, 4 * digits));
        ghost var c := out[|was|];
        assert out == was + [c];
        PrintedStep(s, c, value, digits, d);
        s := s + [c];
      }
      assert out[|old(out)|..] == s;
      PrintedAll(s, value, d);
    }

    method Printhex2(value: u32)
      modifies this
      ensures old(out) <= out && |out| == |old(out)| + 2
      ensures IsNumeral(out[|old(out)|..], 16) && Parse(out[|old(out)|..], 16) == value % 0x100
      ensures var s := out[|old(out)|..]; forall k: nat :: k < 2 ==> s[k] == HexDigit(value, 1 - k)
    {
      HexPowers();
      hide Pow2, Parse, IsNumeral, HexDigit;
      Printhex(value, 2);
    }

    method Printhex4(value: u32)
      modifies this
      ensures old(out) <= out && |out| == |old(out)| + 4
      ensures IsNumeral(out[|old(out)|..], 16) && Parse(out[|old(out)|..], 16) == value % 0x1_0000
      ensures var s := out[|old(out)|..]; forall k: nat :: k < 4 ==> s[k] == HexDigit(value, 3 - k)
    {
      HexPowers();
      hide Pow2, Parse, IsNumeral, HexDigit;
      Printhex(value, 4);
    }

    /** The eight digits read back as the whole value. */
    method Printhex8(value: u32)
      modifies this
      ensures old(out) <= out && |out| == |old(out)| + 8
      ensures IsNumeral(out[|old(out)|..], 16) && Parse(out[|old(out)|..], 16) == value
      ensures var s := out[|old(out)|..]; forall k: nat :: k < 8 ==> s[k] == HexDigit(value, 7 - k)
    {
      HexPowers();
      hide Pow2, Parse, IsNumeral, HexDigit;
      Printhex(value, 8);
    }

    /** The canonical decimal numeral, through the separate case for 10. */
    method Printdec(value0: u32)
      modifies this
      ensures old(out) <= out
      ensures IsCanonical(out[|old(out)|..]) && Parse(out[|old(out)|..], 10) == value0
      decreases value0
    {
      var value := value0;
      ghost var s := "";
      if value > 10 {
        Printdec(value / 10);
        s := out[|old(out)|..];
        value := value % 10;
      } else if value == 10 {
        Putc('1');
        s := "1";
        value := 0;
      }
      assert out == old(out) + s;
      var c := ('0' as int + value) as char;
      Putc(c);
      ParseAppend(s, c, 10);
      assert out[|old(out)|..] == s + [c];
    }
  }

  lemma LowNibbleMask(x: u32)
    ensures And(x, 0xf) == x % 16
  {
    AndMask(x, 4);
  }

  /** The two ranges of characters that hexadecimal digits are taken from. */
  lemma DigitChars(d: nat)
    requires d < 16
    ensures DigitValue("0123456789abcdef"[d]) == d
    ensures "0123456789abcdef"[d] == if d > 9 then (d - 10 + 'a' as int) as char else (d + '0' as int) as char
  {}

  /** The hexadecimal digit number j of a value, counted from the right. */
  function HexDigit(value: u32, j: nat): (c: char) {
    "0123456789abcdef"[Shr(value, 4 * j) % 16]
  }

  lemma HexDigitMeans(value: u32, j: nat)
    ensures value / Pow2(4 * j) >= 0 && HexDigit(value, j) == "0123456789abcdef"[value / Pow2(4 * j) % 16]
  {
    ShrDivides(value, 4 * j);
  }

  /** s consists of the hexadecimal digits number d - 1 down to `low` of the value. */
  ghost predicate Printed(s: string, value: u32, low: nat, d: nat) {
    && |s| + low == d
    && IsNumeral(s, 16) && Parse(s, 16) == HexPart(value, low, d)
    && forall k: nat :: k < |s| ==> s[k] == HexDigit(value, d - 1 - k)
  }

  lemma PrintedNothing(value: u32, d: nat)
    ensures Printed("", value, d, d)
  {}

  lemma PrintedStep(s: string, c: char, value: u32, low: nat, d: nat)
    requires Printed(s, value, low + 1, d)
    requires c == "0123456789abcdef"[Shr(value, 4 * low) % 16] && DigitValue(c) == Shr(value, 4 * low) % 16
    ensures Printed(s + [c], value, low, d)
  {
    hide Parse, IsNumeral, HexPart, Pow2, DigitValue, Shr;
    ParseAppend(s, c, 16);
    HexStep(value, low, d);
  }

  lemma PrintedAll(s: string, value: u32, d: nat)
    requires Printed(s, value, 0, d)
    ensures |s| == d && IsNumeral(s, 16) && Parse(s, 16) == value % Pow2(4 * d)
    ensures forall k: nat :: k < |s| ==> s[k] == HexDigit(value, |s| - 1 - k)
  {
    ShrNothing(value);
  }

  lemma HexPowers()
    ensures Pow2(8) == 0x100 && Pow2(16) == 0x1_0000 && Pow2(32) == B32
  {
    Pow2Values();
    assert Pow2(4) == 0x10;
    hide Pow2;
    Pow2Square(4, 0x10);
    Pow2Square(8, 0x100);
  }

  /** The part of the value behind its hexadecimal digits number `digits` to d - 1, counted from the right. */
  function HexPart(value: u32, digits: nat, d: nat): (r: nat)
    requires digits <= d
  {
    Shr(value, 4 * digits) % Pow2(4 * (d - digits))
  }

  /** Shifting one digit less brings one more hexadecimal digit into view. */
  lemma HexStep(value: u32, digits: nat, d: nat)
    requires digits < d
    ensures HexPart(value, digits, d) == HexPart(value, digits + 1, d) * 16 + Shr(value, 4 * digits) % 16
  {
    ShrTwice(value, 4 * digits, 4);
    LowNibble(Shr(value, 4 * digits), 4 * (d - digits - 1));
  }

  lemma LowNibble(x: nat, k: nat)
    ensures x % Pow2(k + 4) == Shr(x, 4) % Pow2(k) * 16 + x % 16
  {
    ShrDivides(x, 4);
    Pow2Add(k, 4);
    assert Pow2(4) == 16;
    hide Pow2, Shr;
    SplitRemainder(x, Pow2(k));
  }

  lemma SplitRemainder(x: nat, p: nat)
    requires p > 0
    ensures x % (p * 16) == x / 16 % p * 16 + x % 16
  {
    var q := x / 16;
    var a, b := q / p, q % p;
    assert q == a * p + b;
    Swap(a, p, 16);
    DivModUnique(x, p * 16, a, b * 16 + x % 16);
  }
}
