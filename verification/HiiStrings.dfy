/**
 Walking the string blocks of an HII string package (String Package, section
 33.3.6 of UEFI 2.8) with efi_hii_sibt_string_ucs2_block_next() of
 u-boot/include/efi_api.h. Memory is a sequence of bytes and an address an index
 into it; words are little-endian, as on every platform UEFI supports.
 */
module HiiStrings {
  import opened Words

  const SIBT_END: byte := 0x00
  const SIBT_STRING_UCS2: byte := 0x14

  datatype Option<T> = None | Some(value: T)

  /** The bytes s lie at address a. */
  predicate At(mem: seq<byte>, a: nat, s: seq<byte>) {
    a + |s| <= |mem| && mem[a..a + |s|] == s
  }

  lemma AtConcat(mem: seq<byte>, a: nat, s: seq<byte>, t: seq<byte>)
    ensures At(mem, a, s + t) <==> At(mem, a, s) && At(mem, a + |s|, t)
  {
    if a + |s| + |t| <= |mem| {
      var both := mem[a..a + |s| + |t|];
      assert both == mem[a..a + |s|] + mem[a + |s|..a + |s| + |t|];
      assert both[..|s|] == mem[a..a + |s|] && both[|s|..] == mem[a + |s|..a + |s| + |t|];
      assert (s + t)[..|s|] == s && (s + t)[|s|..] == t;
    }
  }

  function WordAt(mem: seq<byte>, a: nat): (r: u16)
    requires a + 2 <= |mem|
    ensures r % 0x100 == mem[a] && r / 0x100 == mem[a + 1]
  {
    var low: int, high: int := mem[a], mem[a + 1];
    low + 0x100 * high
  }

  function WordBytes(w: u16): (s: seq<byte>)
    ensures |s| == 2
  {
    [w % 0x100, w / 0x100]
  }

  lemma WordAtBytes(mem: seq<byte>, a: nat, w: u16)
    ensures At(mem, a, WordBytes(w)) <==> a + 2 <= |mem| && WordAt(mem, a) == w
  {
    if a + 2 <= |mem| { assert mem[a..a + 2] == [mem[a], mem[a + 1]]; }
  }

  // --- the layout of a string package

  function Utf16Bytes(text: seq<u16>): (r: seq<byte>) {
    if text == [] then WordBytes(0) else WordBytes(text[0]) + Utf16Bytes(text[1..])
  }

  function BlockBytes(text: seq<u16>): (r: seq<byte>) {
    [SIBT_STRING_UCS2] + Utf16Bytes(text)
  }

  /** One SIBT_STRING_UCS2 block per string, then SIBT_END. */
  function Layout(texts: seq<seq<u16>>): (s: seq<byte>)
    ensures |s| > 0
  {
    if texts == [] then [SIBT_END] else BlockBytes(texts[0]) + Layout(texts[1..])
  }

  /** A string that can be laid out: the terminator does not occur in it. */
  predicate NoZero(text: seq<u16>) { 0 !in text }

  /** Addresses of the blocks of a layout that starts at a. */
  function BlockStarts(texts: seq<seq<u16>>, a: nat): (r: seq<nat>) {
    if texts == [] then [] else [a] + BlockStarts(texts[1..], a + |BlockBytes(texts[0])|)
  }

  // --- u16_strlen and the step to the next block

  /** Number of non-zero words from a on; None if memory ends before a zero word. */
  function U16Strlen(mem: seq<byte>, a: nat): (r: Option<nat>)
    ensures r.Some? ==> a + 2 * r.value + 2 <= |mem|
    decreases |mem| - a
  {
    if a + 2 > |mem| then None
    else if WordAt(mem, a) == 0 then Some(0)
    else match U16Strlen(mem, a + 2) case None => None case Some(n) => Some(n + 1)
  }

  function WordsAt(mem: seq<byte>, a: nat, n: nat): (r: seq<u16>)
    requires a + 2 * n <= |mem|
    ensures |r| == n
    decreases n
  {
    if n == 0 then [] else [WordAt(mem, a)] + WordsAt(mem, a + 2, n - 1)
  }

  /** efi_hii_sibt_string_ucs2_block_next(): past the one-byte header, the text and its terminator. */
  function BlockNext(mem: seq<byte>, blk: nat): (r: Option<nat>)
    ensures r.Some? ==> blk + 3 <= r.value <= |mem|
  {
    match U16Strlen(mem, blk + 1)
    case None => None
    case Some(n) => Some(blk + 1 + (n + 1) * 2)
  }

  // --- repeated stepping

  datatype Walked = Walked(texts: seq<seq<u16>>, starts: seq<nat>, end: nat)

  /** Collect strings block by block up to SIBT_END; None at any other block type or past the memory. */
  function Walk(mem: seq<byte>, a: nat): (r: Option<Walked>)
    decreases |mem| - a
  {
    if a >= |mem| then None
    else if mem[a] == SIBT_END then Some(Walked([], [], a))
    else if mem[a] != SIBT_STRING_UCS2 then None
    else match BlockNext(mem, a)
      case None => None
      case Some(next) =>
        match Walk(mem, next)
        case None => None
        case Some(w) =>
          Some(Walked([WordsAt(mem, a + 1, U16Strlen(mem, a + 1).value)] + w.texts, [a] + w.starts, w.end))
  }

  /** Where a terminated text lies, its length and words are what u16_strlen finds, and conversely. */
  lemma {:induction false} TextAt(mem: seq<byte>, a: nat, text: seq<u16>)
    ensures |Utf16Bytes(text)| == 2 * |text| + 2
    ensures NoZero(text) && At(mem, a, Utf16Bytes(text)) <==>
            U16Strlen(mem, a) == Some(|text|) && WordsAt(mem, a, |text|) == text
    decreases |text|
  {
    hide At, WordAt, WordBytes, U16Strlen, WordsAt;
    StrlenStep(mem, a);
    WordAtBytes(mem, a, if text == [] then 0 else text[0]);
    if text == [] {
      if a + 2 <= |mem| { NoWords(mem, a); }
    } else {
      TextAt(mem, a + 2, text[1..]);
      AtConcat(mem, a, WordBytes(text[0]), Utf16Bytes(text[1..]));
      assert text == [text[0]] + text[1..];
      if a + 2 * |text| <= |mem| { WordsStep(mem, a, |text|); }
    }
  }

  lemma StrlenStep(mem: seq<byte>, a: nat)
    ensures U16Strlen(mem, a) ==
      if a + 2 > |mem| then None
      else if WordAt(mem, a) == 0 then Some(0)
      else if U16Strlen(mem, a + 2).None? then None
      else Some(U16Strlen(mem, a + 2).value + 1)
  {}

  lemma NoWords(mem: seq<byte>, a: nat)
    requires a <= |mem|
    ensures WordsAt(mem, a, 0) == []
  {}

  lemma WordsStep(mem: seq<byte>, a: nat, n: nat)
    requires n > 0 && a + 2 * n <= |mem|
    ensures WordsAt(mem, a, n) == [WordAt(mem, a)] + WordsAt(mem, a + 2, n - 1)
  {}

  /** A block lies at a exactly when its type, length and words are found there; the next one starts right behind it. */
  lemma BlockAt(mem: seq<byte>, a: nat, text: seq<u16>)
    ensures NoZero(text) && At(mem, a, BlockBytes(text)) <==>
            a < |mem| && mem[a] == SIBT_STRING_UCS2 && U16Strlen(mem, a + 1) == Some(|text|) && WordsAt(mem, a + 1, |text|) == text
    ensures NoZero(text) && At(mem, a, BlockBytes(text)) ==> BlockNext(mem, a) == Some(a + |BlockBytes(text)|)
  {
    hide At, Utf16Bytes, U16Strlen, WordsAt, NoZero;
    TextAt(mem, a + 1, text);
    AtConcat(mem, a, [SIBT_STRING_UCS2], Utf16Bytes(text));
    ByteAt(mem, a, SIBT_STRING_UCS2);
  }

  lemma ByteAt(mem: seq<byte>, a: nat, b: byte)
    ensures At(mem, a, [b]) <==> a < |mem| && mem[a] == b
  {
    if a < |mem| { assert mem[a..a + 1] == [mem[a]]; }
  }

  /** A laid-out list is walked block by block, up to its END block. */
  lemma {:induction false} LayoutIsWalked(mem: seq<byte>, a: nat, texts: seq<seq<u16>>)
    requires (forall t :: t in texts ==> NoZero(t)) && At(mem, a, Layout(texts))
    ensures Walk(mem, a) == Some(Walked(texts, BlockStarts(texts, a), a + |Layout(texts)| - 1))
    decreases |texts|
  {
    hide At, NoZero, U16Strlen, WordsAt, BlockBytes, BlockNext, Walk;
    if texts == [] {
      ByteAt(mem, a, SIBT_END);
      WalkEnd(mem, a);
    } else {
      var first, rest := texts[0], texts[1..];
      AtConcat(mem, a, BlockBytes(first), Layout(rest));
      BlockAt(mem, a, first);
      LayoutIsWalked(mem, a + |BlockBytes(first)|, rest);
      assert texts == [first] + rest;
      WalkBlock(mem, a, a + |BlockBytes(first)|, first);
    }
  }

  lemma WalkBlock(mem: seq<byte>, a: nat, next: nat, text: seq<u16>)
    requires a < |mem| && mem[a] == SIBT_STRING_UCS2 && BlockNext(mem, a) == Some(next)
    requires U16Strlen(mem, a + 1) == Some(|text|) && WordsAt(mem, a + 1, |text|) == text
    ensures Walk(mem, a) ==
      if Walk(mem, next).None? then None
      else Some(Walked([text] + Walk(mem, next).value.texts, [a] + Walk(mem, next).value.starts, Walk(mem, next).value.end))
  {}

  lemma WalkEnd(mem: seq<byte>, a: nat)
    requires a < |mem| && mem[a] == SIBT_END
    ensures Walk(mem, a) == Some(Walked([], [], a))
  {}

  /** Whatever is walked was laid out. */
  lemma {:induction false} WalkedIsLayout(mem: seq<byte>, a: nat, texts: seq<seq<u16>>)
    requires Walk(mem, a).Some? && Walk(mem, a).value.texts == texts
    ensures (forall t :: t in texts ==> NoZero(t)) && At(mem, a, Layout(texts))
    decreases |texts|
  {
    hide At, NoZero, U16Strlen, WordsAt, BlockBytes, BlockNext;
    if texts == [] {
      ByteAt(mem, a, SIBT_END);
    } else {
      var first, rest := texts[0], texts[1..];
      assert texts == [first] + rest;
      FirstBlock(mem, a, first, rest);
      WalkedIsLayout(mem, a + |BlockBytes(first)|, rest);
      AtConcat(mem, a, BlockBytes(first), Layout(rest));
    }
  }

  /**
   Stepping from a succeeds with exactly the strings whose layout lies at a: the
   walk recovers every laid-out list, and finds nothing that was not laid out.
   */
  lemma WalkInvertsLayout(mem: seq<byte>, a: nat, texts: seq<seq<u16>>)
    ensures (forall t :: t in texts ==> NoZero(t)) && At(mem, a, Layout(texts)) <==>
            Walk(mem, a).Some? && Walk(mem, a).value.texts == texts
  {
    hide At, NoZero, Walk, Layout;
    if (forall t :: t in texts ==> NoZero(t)) && At(mem, a, Layout(texts)) { LayoutIsWalked(mem, a, texts); }
    if Walk(mem, a).Some? && Walk(mem, a).value.texts == texts { WalkedIsLayout(mem, a, texts); }
  }

  lemma FirstBlock(mem: seq<byte>, a: nat, first: seq<u16>, rest: seq<seq<u16>>)
    requires Walk(mem, a).Some? && Walk(mem, a).value.texts == [first] + rest
    ensures NoZero(first) && At(mem, a, BlockBytes(first))
    ensures var next := a + |BlockBytes(first)|;
      Walk(mem, next).Some? && Walk(mem, next).value.texts == rest
      && Walk(mem, a).value == Walked([first] + rest, [a] + Walk(mem, next).value.starts, Walk(mem, next).value.end)
  {
    var n := U16Strlen(mem, a + 1).value;
    var w := Walk(mem, BlockNext(mem, a).value).value;
    var t := WordsAt(mem, a + 1, n);
    assert ([t] + w.texts)[0] == t && ([t] + w.texts)[1..] == w.texts;
    assert ([first] + rest)[0] == first && ([first] + rest)[1..] == rest;
    BlockAt(mem, a, first);
  }

  /** In particular a package placed anywhere in memory is read back whole. */
  lemma WalkRecovers(before: seq<byte>, texts: seq<seq<u16>>, after: seq<byte>)
    requires forall t :: t in texts ==> NoZero(t)
    ensures Walk(before + Layout(texts) + after, |before|) ==
            Some(Walked(texts, BlockStarts(texts, |before|), |before| + |Layout(texts)| - 1))
  {
    var mem := before + Layout(texts) + after;
    assert mem[|before|..|before| + |Layout(texts)|] == Layout(texts);
    LayoutIsWalked(mem, |before|, texts);
  }

  /** Every step strictly advances, so each block is visited once and in order. */
  lemma {:induction false} StartsAscend(texts: seq<seq<u16>>, a: nat)
    ensures |BlockStarts(texts, a)| == |texts|
    ensures forall i :: 0 <= i < |texts| ==> a <= BlockStarts(texts, a)[i]
    ensures forall i, j :: 0 <= i < j < |texts| ==> BlockStarts(texts, a)[i] < BlockStarts(texts, a)[j]
    decreases |texts|
  {
    if texts == [] {
    } else {
      StartsAscend(texts[1..], a + |BlockBytes(texts[0])|);
    }
  }

  /** Two blocks and the END block as the bytes a package holds: type 0x14, little-endian words, type 0x00. */
  lemma WalkExample()
    ensures Walk([0x14, 0x41, 0, 0x42, 0x30, 0, 0, 0x14, 0x43, 0, 0, 0, 0], 0) ==
            Some(Walked([[0x41, 0x3042], [0x43]], [0, 7], 12))
  {
    hide U16Strlen, WordsAt, Walk;
    var mem: seq<byte> := [0x14, 0x41, 0, 0x42, 0x30, 0, 0, 0x14, 0x43, 0, 0, 0, 0];
    ExampleWord(mem, 1, 0x41);
    ExampleWord(mem, 3, 0x3042);
    ExampleWord(mem, 5, 0);
    ExampleWord(mem, 8, 0x43);
    ExampleWord(mem, 10, 0);
    StrlenStep(mem, 1);
    StrlenStep(mem, 3);
    StrlenStep(mem, 5);
    StrlenStep(mem, 8);
    StrlenStep(mem, 10);
    WordsStep(mem, 1, 2);
    WordsStep(mem, 3, 1);
    NoWords(mem, 5);
    WordsStep(mem, 8, 1);
    NoWords(mem, 10);
    WalkEnd(mem, 12);
    WalkBlock(mem, 7, 12, [0x43]);
    assert Walk(mem, 7).value.texts == [[0x43]] && Walk(mem, 7).value.starts == [7];
    WalkBlock(mem, 0, 7, [0x41, 0x3042]);
    assert Walk(mem, 0).value.texts == [[0x41, 0x3042], [0x43]];
    assert Walk(mem, 0).value.starts == [0, 7];
  }

  lemma ExampleWord(mem: seq<byte>, a: nat, w: u16)
    requires a + 2 <= |mem| && mem[a] == w % 0x100 && mem[a + 1] == w / 0x100
    ensures WordAt(mem, a) == w
  {}
}
