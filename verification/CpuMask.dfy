/**
 Iterating over a CPU mask: cpumask_next() and for_each_cpu() of
 u-boot/include/common.h.
 */
module CpuMask {
  import opened Words

  /** Positions of the set bits of mask from position `from` upwards, in ascending order. */
  function SetBits(mask: u32, from: nat): (r: seq<nat>)
    requires from <= 32
    decreases 32 - from
  {
    if from == 32 then []
    else (if Bit(mask, from) then [from] else []) + SetBits(mask, from + 1)
  }

  lemma SetBitsStep(mask: u32, from: nat)
    requires from < 32
    ensures SetBits(mask, from) == (if Bit(mask, from) then [from] else []) + SetBits(mask, from + 1)
  {}

  lemma SetBitsEnd(mask: u32)
    ensures SetBits(mask, 32) == []
  {}

  lemma {:induction false} SetBitsMembers(mask: u32, from: nat, i: nat)
    requires from <= 32
    ensures i in SetBits(mask, from) <==> from <= i < 32 && Bit(mask, i)
    decreases 32 - from
  {
    hide SetBits, Bit;
    if from == 32 {
      SetBitsEnd(mask);
    } else {
      SetBitsStep(mask, from);
      SetBitsMembers(mask, from + 1, i);
    }
  }

  /** Ascending, hence each position once. */
  lemma {:induction false} SetBitsAscend(mask: u32, from: nat)
    requires from <= 32
    ensures forall i, j :: 0 <= i < j < |SetBits(mask, from)| ==> SetBits(mask, from)[i] < SetBits(mask, from)[j]
    decreases 32 - from
  {
    hide SetBits, Bit;
    if from == 32 {
      SetBitsEnd(mask);
    } else {
      SetBitsStep(mask, from);
      var rest := SetBits(mask, from + 1);
      SetBitsAscend(mask, from + 1);
      forall k | 0 <= k < |rest| ensures from < rest[k] {
        assert rest[k] in rest;
        SetBitsMembers(mask, from + 1, rest[k]);
      }
    }
  }

  /** Skipping positions without a set bit. */
  lemma {:induction false} SkipClear(mask: u32, from: nat, end: nat)
    requires from <= end <= 32 && forall i: nat :: from <= i < end ==> !Bit(mask, i)
    ensures SetBits(mask, from) == SetBits(mask, end)
    decreases end - from
  {
    hide SetBits, Bit;
    if from == end {
    } else {
      SetBitsStep(mask, from);
      SkipClear(mask, from + 1, end);
    }
  }

  /** Result of cpumask_next(): once every position of the word is passed, C shifts by 32 and the behaviour is undefined. */
  datatype Next = Cpu(cpu: nat) | Undefined

  lemma TestOneBit(cpu: nat, mask: u32)
    requires cpu < 32
    ensures And(Shl32(1, cpu), mask) != 0 <==> Bit(mask, cpu)
  {
    var one := Shl32(1, cpu);
    hide Shl32, And, Bit;
    forall i: nat ensures Bit(And(one, mask), i) <==> i == cpu && Bit(mask, i) {
      BitAnd(one, mask, i);
      BitShl32(1, cpu, i);
      BitOfOne(i - cpu);
    }
    if Bit(mask, cpu) {
      BitZero(cpu);
    } else {
      forall i: nat | i < 32 ensures Bit(And(one, mask), i) <==> Bit(0, i) { BitZero(i); }
      SameBits32(And32(one, mask), 0);
    }
  }

  lemma BitOfOne(i: int)
    ensures i >= 0 ==> (Bit(1, i) <==> i == 0)
  {
    if i > 0 { BitZero(i - 1); }
  }

  method CpumaskNext(cpu: int, mask: u32) returns (r: Next)
    requires -1 <= cpu < 32
    ensures r.Cpu? <==> exists i: nat :: cpu < i < 32 && Bit(mask, i)
    ensures r.Cpu? ==> cpu < r.cpu < 32 && Bit(mask, r.cpu) && forall i: nat :: cpu < i < r.cpu ==> !Bit(mask, i)
  {
    hide Bit, And, Shl32;
    var c := cpu + 1;
    while c < 32 && And(Shl32(1, c), mask) == 0
      invariant cpu < c <= 32
      invariant forall i: nat :: cpu < i < c ==> !Bit(mask, i)
    {
      TestOneBit(c, mask);
      c := c + 1;
    }
    if c < 32 { TestOneBit(c, mask); }
    r := if c < 32 then Cpu(c) else Undefined;
  }

  /** What the loop sees next is the head of the remaining set bits. */
  lemma NextIsHead(cpu: int, mask: u32, r: Next)
    requires -1 <= cpu < 32
    requires r.Cpu? <==> exists i: nat :: cpu < i < 32 && Bit(mask, i)
    requires r.Cpu? ==> cpu < r.cpu < 32 && Bit(mask, r.cpu) && forall i: nat :: cpu < i < r.cpu ==> !Bit(mask, i)
    ensures SetBits(mask, cpu + 1) == if r.Cpu? then [r.cpu] + SetBits(mask, r.cpu + 1) else []
  {
    hide SetBits, Bit;
    SkipClear(mask, cpu + 1, if r.Cpu? then r.cpu else 32);
    if r.Cpu? { SetBitsStep(mask, r.cpu); } else { SetBitsEnd(mask); }
  }

  /**
   for_each_cpu(): the cpus its bodies see, and whether every cpumask_next() it
   evaluates is defined. It advances once more after the last body, so the whole
   loop is defined only while a further set bit remains.
   */
  method ForEachCpu(numCpus: int, mask: u32) returns (bodies: seq<nat>, defined: bool)
    ensures defined <==> numCpus < |SetBits(mask, 0)| && SetBits(mask, 0) != []
    ensures |bodies| == if numCpus < 0 then 0 else if numCpus < |SetBits(mask, 0)| then numCpus else |SetBits(mask, 0)|
    ensures bodies <= SetBits(mask, 0)
  {
    hide Bit, SetBits;
    bodies := [];
    var iter := 0;
    var cpu := CpumaskNext(-1, mask);
    NextIsHead(-1, mask, cpu);
    while iter < numCpus && cpu.Cpu?
      invariant iter == |bodies| && (iter <= numCpus || iter == 0)
      invariant cpu.Cpu? ==> cpu.cpu < 32 && SetBits(mask, 0) == bodies + [cpu.cpu] + SetBits(mask, cpu.cpu + 1)
      invariant cpu.Undefined? ==> SetBits(mask, 0) == bodies
    {
      bodies := bodies + [cpu.cpu];
      iter := iter + 1;
      var last := cpu.cpu;
      cpu := CpumaskNext(last, mask);
      NextIsHead(last, mask, cpu);
    }
    defined := cpu.Cpu?;
  }

  /** With one cpu in the mask and num_cpus equal to 1, the one body is right but the advance behind it is undefined. */
  lemma LastAdvance()
    ensures SetBits(1, 0) == [0] && !(1 < |SetBits(1, 0)|)
  {
    hide Bit, SetBits;
    forall i: nat | 1 <= i < 32 ensures !Bit(1, i) { BitOfOne(i); }
    SkipClear(1, 1, 32);
    SetBitsStep(1, 0);
    BitOfOne(0);
    SetBitsEnd(1);
  }
}
