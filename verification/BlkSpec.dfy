/**
 Block devices behind a block cache, as values: what the drivers and the cache of
 u-boot/include/blk.h are expected to do, the steps of blk_dread(), blk_dwrite()
 and blk_derase() over any such cache, and what holds over every run of them.
 */
module BlkSpec {
  import opened Arith
  import opened Words

  /** What the cache knows a device by. */
  datatype Key = Key(ifType: int, dev: int)

  datatype Disk = Disk(blksz: nat, bytes: seq<byte>)

  /** A cached run of cnt blocks. */
  datatype Entry = Entry(key: Key, start: nat, cnt: nat, blksz: nat, data: seq<byte>)

  // --- blocks of a disk

  predicate OnDisk(d: Disk, start: nat, cnt: nat) {
    (start + cnt) * d.blksz <= |d.bytes|
  }

  lemma RangeOrder(start: nat, cnt: nat, blksz: nat)
    ensures 0 <= start * blksz <= (start + cnt) * blksz == start * blksz + cnt * blksz
  {
    Le(0, start, blksz);
    Le(start, start + cnt, blksz);
    Dist(start, cnt, blksz);
  }

  function Blocks(d: Disk, start: nat, cnt: nat): (s: seq<byte>)
    requires OnDisk(d, start, cnt)
    ensures |s| == cnt * d.blksz
  {
    RangeOrder(start, cnt, d.blksz);
    d.bytes[start * d.blksz..(start + cnt) * d.blksz]
  }

  /** data is the current contents of blocks start .. start + cnt of d. */
  predicate Holds(d: Disk, start: nat, cnt: nat, data: seq<byte>) {
    (cnt == 0 && data == []) || (OnDisk(d, start, cnt) && data == Blocks(d, start, cnt))
  }

  // --- block drivers

  /** A driver's answer to a read: its return value, and the buffer it leaves behind. */
  datatype ReadOutcome = ReadOutcome(ret: nat, got: seq<byte>)

  /** A driver's answer to a write or erase: its return value, and the device contents it leaves behind. */
  datatype ChangeOutcome = ChangeOutcome(ret: nat, after: seq<byte>)

  /** A read that returns blkcnt has delivered the contents; a short or failed one may leave anything in the buffer. */
  predicate DriverReads(d: Disk, start: nat, cnt: nat, o: ReadOutcome) {
    |o.got| == cnt * d.blksz && (o.ret == cnt ==> Holds(d, start, cnt, o.got))
  }

  /** Whatever a write or erase returns, it changes only bytes of the blocks in its range. */
  ghost predicate DriverChanges(d: Disk, start: nat, cnt: nat, o: ChangeOutcome) {
    && |o.after| == |d.bytes|
    && forall i :: 0 <= i < |d.bytes| && !(start * d.blksz <= i < (start + cnt) * d.blksz) ==> o.after[i] == d.bytes[i]
  }

  /** A write that returns blkcnt has stored the data. */
  ghost predicate DriverWrites(d: Disk, start: nat, cnt: nat, data: seq<byte>, o: ChangeOutcome) {
    && DriverChanges(d, start, cnt, o)
    && (o.ret == cnt ==> Holds(d.(bytes := o.after), start, cnt, data))
  }

  // --- the cache, as its comments describe it

  /** The entry contains all the requested blocks. */
  predicate Serves(e: Entry, key: Key, start: nat, cnt: nat, blksz: nat) {
    && e.key == key && e.blksz == blksz
    && e.start <= start && start + cnt <= e.start + e.cnt
    && |e.data| == e.cnt * e.blksz
  }

  /** The requested part of an entry's data. */
  function Part(e: Entry, start: nat, cnt: nat): (s: seq<byte>)
    requires Serves(e, e.key, start, cnt, e.blksz)
    ensures |s| == cnt * e.blksz
  {
    RangeOrder(start - e.start, cnt, e.blksz);
    Le(start - e.start + cnt, e.cnt, e.blksz);
    e.data[(start - e.start) * e.blksz..(start - e.start + cnt) * e.blksz]
  }

  /** A cache may drop or reorder entries at any time, but it never invents one. */
  ghost predicate Retained(c: seq<Entry>, c': seq<Entry>) {
    forall e :: e in c' ==> e in c
  }

  ghost predicate Filled(c: seq<Entry>, c': seq<Entry>, added: Entry) {
    forall e :: e in c' ==> e in c || e == added
  }

  ghost predicate Invalidated(c: seq<Entry>, c': seq<Entry>, key: Key) {
    forall e :: e in c' ==> e in c && e.key != key
  }

  // --- coherence

  ghost predicate Coherent(c: seq<Entry>, key: Key, d: Disk) {
    forall e :: e in c && e.key == key ==> e.blksz == d.blksz && Holds(d, e.start, e.cnt, e.data)
  }

  /** Part of what an entry holds is what the disk holds there. */
  lemma PartHolds(d: Disk, e: Entry, start: nat, cnt: nat)
    requires e.blksz == d.blksz && Serves(e, e.key, start, cnt, e.blksz) && Holds(d, e.start, e.cnt, e.data)
    ensures Holds(d, start, cnt, Part(e, start, cnt))
  {
    var k, z := start - e.start, d.blksz;
    if e.cnt > 0 {
      RangeOrder(e.start, k, z);
      RangeOrder(start, cnt, z);
      RangeOrder(k, cnt, z);
      RangeOrder(e.start, e.cnt, z);
      Le(start + cnt, e.start + e.cnt, z);
      SubSlice(d.bytes, e.start * z, (e.start + e.cnt) * z, k * z, (k + cnt) * z);
    }
  }

  lemma SubSlice(s: seq<byte>, lo: nat, hi: nat, x: nat, y: nat)
    requires lo <= hi <= |s| && x <= y <= hi - lo
    ensures s[lo..hi][x..y] == s[lo + x..lo + y]
  {
    assert forall i :: 0 <= i < y - x ==> s[lo..hi][x..y][i] == s[lo + x..lo + y][i];
  }

  // --- the steps of the three operations over any such cache

  /** blk_dread(): a hit serves the buffer from an entry; a miss is the driver's answer, inserted only if complete. */
  ghost predicate ReadStep(c: seq<Entry>, c': seq<Entry>, key: Key, d: Disk, start: nat, cnt: nat,
                           o: ReadOutcome, ret: nat, buf: seq<byte>)
  {
    || (ret == cnt && Retained(c, c') && exists e :: e in c && Serves(e, key, start, cnt, d.blksz) && buf == Part(e, start, cnt))
    || (ret == o.ret && buf == o.got &&
        if ret == cnt then Filled(c, c', Entry(key, start, cnt, d.blksz, buf)) else Retained(c, c'))
  }

  /** A read that returns blkcnt leaves the device's contents in the buffer, and the cache coherent with every device. */
  lemma ReadStepCorrect(c: seq<Entry>, c': seq<Entry>, key: Key, d: Disk, start: nat, cnt: nat,
                        o: ReadOutcome, ret: nat, buf: seq<byte>)
    requires Coherent(c, key, d) && DriverReads(d, start, cnt, o) && ReadStep(c, c', key, d, start, cnt, o, ret, buf)
    ensures |buf| == cnt * d.blksz && (ret == cnt ==> Holds(d, start, cnt, buf))
    ensures Coherent(c', key, d)
    ensures forall k, other :: k != key && Coherent(c, k, other) ==> Coherent(c', k, other)
  {
    if e :| e in c && Serves(e, key, start, cnt, d.blksz) && buf == Part(e, start, cnt) {
      PartHolds(d, e, start, cnt);
    }
  }

  /** Byte by byte, what it is to hold the contents of a range of blocks. */
  lemma HoldsMeans(d: Disk, start: nat, cnt: nat, data: seq<byte>)
    requires OnDisk(d, start, cnt)
    ensures Holds(d, start, cnt, data) <==>
              |data| == cnt * d.blksz && forall i: nat :: i < |data| ==> start * d.blksz + i < |d.bytes| && data[i] == d.bytes[start * d.blksz + i]
  {
    RangeOrder(start, cnt, d.blksz);
    assert |Blocks(d, start, cnt)| == cnt * d.blksz;
  }

  /** Two blocks read in one state never differ, wherever they come from. */
  lemma HoldsUnique(d: Disk, start: nat, cnt: nat, a: seq<byte>, b: seq<byte>)
    requires Holds(d, start, cnt, a) && Holds(d, start, cnt, b)
    ensures a == b
  {
    if cnt == 0 && OnDisk(d, start, cnt) { assert |Blocks(d, start, cnt)| == 0; }
  }

  // --- runs

  datatype Op =
    | Read(key: Key, start: nat, cnt: nat, seen: ReadOutcome)
    | Write(key: Key, start: nat, cnt: nat, data: seq<byte>, done: ChangeOutcome)
    | Erase(key: Key, start: nat, cnt: nat, done: ChangeOutcome)
    | Configure(blocks: nat, entries: nat)

  /** What the caller sees: the return value, and for a read the buffer. */
  datatype Result = Result(ret: nat, buf: seq<byte>)

  datatype State = State(disks: map<Key, Disk>, entries: seq<Entry>)

  /** The driver of the addressed device behaves. */
  ghost predicate DriverOk(disks: map<Key, Disk>, op: Op) {
    match op
    case Read(key, start, cnt, o) => key in disks && DriverReads(disks[key], start, cnt, o)
    case Write(key, start, cnt, data, o) => key in disks && DriverWrites(disks[key], start, cnt, data, o)
    case Erase(key, start, cnt, o) => key in disks && DriverChanges(disks[key], start, cnt, o)
    case Configure(_, _) => true
  }

  predicate Changes(op: Op) { op.Write? || op.Erase? }

  /** The devices after an operation, cache or no cache. */
  function DisksAfter(disks: map<Key, Disk>, op: Op): (r: map<Key, Disk>)
    ensures r.Keys == disks.Keys
    ensures Changes(op) && op.key in disks ==> r[op.key].bytes == op.done.after && r[op.key].blksz == disks[op.key].blksz
    ensures forall key :: key in disks && !(Changes(op) && key == op.key) ==> r[key] == disks[key]
  {
    match op
    case Write(key, _, _, _, o) => if key in disks then disks[key := disks[key].(bytes := o.after)] else disks
    case Erase(key, _, _, o) => if key in disks then disks[key := disks[key].(bytes := o.after)] else disks
    case _ => disks
  }

  /** These properties determine the devices. */
  lemma DisksAfterUnique(disks: map<Key, Disk>, op: Op, disks': map<Key, Disk>)
    requires disks'.Keys == disks.Keys
    requires Changes(op) && op.key in disks ==> disks'[op.key] == Disk(disks[op.key].blksz, op.done.after)
    requires forall key :: key in disks && !(Changes(op) && key == op.key) ==> disks'[key] == disks[key]
    ensures disks' == DisksAfter(disks, op)
  {}

  /** What the build with the always-miss stubs returns: the driver's answer. */
  function StubResult(op: Op): (r: Result)
    ensures Changes(op) ==> r.ret == op.done.ret
    ensures op.Read? ==> r.ret == op.seen.ret && r.buf == op.seen.got
  {
    match op
    case Read(_, _, _, o) => Result(o.ret, o.got)
    case Write(_, _, _, _, o) => Result(o.ret, [])
    case Erase(_, _, _, o) => Result(o.ret, [])
    case Configure(_, _) => Result(0, [])
  }

  /** One operation of the build with a cache. */
  ghost predicate Step(s: State, op: Op, s': State, r: Result) {
    && DriverOk(s.disks, op)
    && s'.disks == DisksAfter(s.disks, op)
    && match op
       case Read(key, start, cnt, o) => ReadStep(s.entries, s'.entries, key, s.disks[key], start, cnt, o, r.ret, r.buf)
       case Write(key, _, _, _, _) => Invalidated(s.entries, s'.entries, key) && r == StubResult(op)
       case Erase(key, _, _, _) => Invalidated(s.entries, s'.entries, key) && r == StubResult(op)
       case Configure(_, _) => Retained(s.entries, s'.entries) && r == StubResult(op)
  }

  ghost predicate AllCoherent(s: State) {
    forall key :: key in s.disks ==> Coherent(s.entries, key, s.disks[key])
  }

  /** A result the caller cannot tell from that of the stub build, except that a hit may succeed where the driver fails. */
  ghost predicate Agrees(op: Op, r: Result) {
    || r == StubResult(op)
    || (op.Read? && r.ret == op.cnt != op.seen.ret)
  }

  lemma AgreesMeans(op: Op, r: Result)
    requires Agrees(op, r)
    ensures op.Read? ==> r == Result(op.seen.ret, op.seen.got) || r.ret == op.cnt != op.seen.ret
    ensures op.Write? || op.Erase? ==> r.ret == op.done.ret
  {}

  /** A read that returns blkcnt has put the device's current contents into the buffer. */
  ghost predicate Current(disks: map<Key, Disk>, op: Op, r: Result) {
    op.Read? && r.ret == op.cnt ==> op.key in disks && Holds(disks[op.key], op.start, op.cnt, r.buf)
  }

  lemma StepCorrect(s: State, op: Op, s': State, r: Result)
    requires AllCoherent(s) && Step(s, op, s', r)
    ensures AllCoherent(s') && Agrees(op, r) && Current(s.disks, op, r)
  {
    match op
    case Read(key, start, cnt, o) =>
      ReadStepCorrect(s.entries, s'.entries, key, s.disks[key], start, cnt, o, r.ret, r.buf);
      if r.ret == cnt && o.ret == cnt { HoldsUnique(s.disks[key], start, cnt, r.buf, o.got); }
    case _ =>
  }

  /** states[i] --ops[i]--> states[i + 1], with results[i] */
  ghost predicate IsRun(states: seq<State>, ops: seq<Op>, results: seq<Result>) {
    && |states| == |ops| + 1 && |results| == |ops|
    && forall i :: 0 <= i < |ops| ==> Step(states[i], ops[i], states[i + 1], results[i])
  }

  lemma ExtendRun(states: seq<State>, ops: seq<Op>, results: seq<Result>, op: Op, s': State, r: Result)
    requires IsRun(states, ops, results) && Step(states[|ops|], op, s', r)
    ensures IsRun(states + [s'], ops + [op], results + [r])
  {}

  /** The devices a build without a cache would have after the same operations. */
  function StubDisks(disks: map<Key, Disk>, ops: seq<Op>): (r: map<Key, Disk>) {
    if ops == [] then disks else DisksAfter(StubDisks(disks, ops[..|ops| - 1]), ops[|ops| - 1])
  }

  lemma {:induction false} RunPrefix(states: seq<State>, ops: seq<Op>, results: seq<Result>, i: nat)
    requires IsRun(states, ops, results) && AllCoherent(states[0]) && i <= |ops|
    ensures AllCoherent(states[i]) && states[i].disks == StubDisks(states[0].disks, ops[..i])
  {
    hide AllCoherent, Step;
    if i == 0 {
    } else {
      RunPrefix(states, ops, results, i - 1);
      StepDisks(states[i - 1], ops[i - 1], states[i], results[i - 1]);
      StepCorrect(states[i - 1], ops[i - 1], states[i], results[i - 1]);
      assert ops[..i][..i - 1] == ops[..i - 1];
    }
  }

  lemma StepDisks(s: State, op: Op, s': State, r: Result)
    requires Step(s, op, s', r)
    ensures s'.disks == DisksAfter(s.disks, op)
  {}

  /**
   Over every run, from any coherent start, whatever the drivers answer and
   whatever the cache drops: the cache stays coherent with every device, a read
   that returns blkcnt delivers the device's current contents, and the stub
   build goes through the same device contents and returns the same data.
   */
  lemma EveryRun(states: seq<State>, ops: seq<Op>, results: seq<Result>)
    requires IsRun(states, ops, results) && AllCoherent(states[0])
    ensures forall i :: 0 <= i <= |ops| ==> AllCoherent(states[i]) && states[i].disks == StubDisks(states[0].disks, ops[..i])
    ensures forall i :: 0 <= i < |ops| ==> Agrees(ops[i], results[i]) && Current(states[i].disks, ops[i], results[i])
  {
    hide AllCoherent, Step, Agrees, Current, StubDisks;
    forall i | 0 <= i <= |ops|
      ensures AllCoherent(states[i]) && states[i].disks == StubDisks(states[0].disks, ops[..i])
    {
      RunPrefix(states, ops, results, i);
    }
    forall i | 0 <= i < |ops| ensures Agrees(ops[i], results[i]) && Current(states[i].disks, ops[i], results[i]) {
      StepCorrect(states[i], ops[i], states[i + 1], results[i]);
    }
  }

  // --- read your writes

  /** op changes no block of the range. */
  predicate Spares(op: Op, key: Key, start: nat, cnt: nat) {
    Changes(op) && op.key == key ==> op.start + op.cnt <= start || start + cnt <= op.start
  }

  lemma StepSpares(s: State, op: Op, s': State, r: Result, key: Key, start: nat, cnt: nat, data: seq<byte>)
    requires Step(s, op, s', r) && Spares(op, key, start, cnt)
    requires key in s.disks && Holds(s.disks[key], start, cnt, data)
    ensures key in s'.disks && s'.disks[key].blksz == s.disks[key].blksz && Holds(s'.disks[key], start, cnt, data)
  {
    hide Holds, ReadStep, Invalidated, Retained;
    if Changes(op) && op.key == key { ChangeSpares(s.disks[key], op.start, op.cnt, op.done, start, cnt, data); }
  }

  /** A write or erase leaves disjoint blocks as they are. */
  lemma ChangeSpares(d: Disk, from: nat, n: nat, o: ChangeOutcome, start: nat, cnt: nat, data: seq<byte>)
    requires DriverChanges(d, from, n, o) && Holds(d, start, cnt, data)
    requires from + n <= start || start + cnt <= from
    ensures Holds(d.(bytes := o.after), start, cnt, data)
  {
    var z := d.blksz;
    if cnt > 0 {
      RangeOrder(start, cnt, z);
      if from + n <= start { Le(from + n, start, z); } else { Le(start + cnt, from, z); }
      assert Blocks(d.(bytes := o.after), start, cnt) == Blocks(d, start, cnt);
    }
  }

  /** What a range holds, it holds until some operation touches it. */
  lemma {:induction false} StillHolds(states: seq<State>, ops: seq<Op>, results: seq<Result>, i: nat, j: nat,
                                      key: Key, start: nat, cnt: nat, data: seq<byte>)
    requires IsRun(states, ops, results) && i <= j <= |ops|
    requires key in states[i].disks && Holds(states[i].disks[key], start, cnt, data)
    requires forall k :: i <= k < j ==> Spares(ops[k], key, start, cnt)
    ensures key in states[j].disks && states[j].disks[key].blksz == states[i].disks[key].blksz
    ensures Holds(states[j].disks[key], start, cnt, data)
    decreases j
  {
    hide Step, Holds, Spares;
    if i == j {
    } else {
      StillHolds(states, ops, results, i, j - 1, key, start, cnt, data);
      StepSpares(states[j - 1], ops[j - 1], states[j], results[j - 1], key, start, cnt, data);
    }
  }

  /** A write and a later read of some of its blocks, both complete, with no change to the blocks read in between. */
  predicate WrittenThenRead(ops: seq<Op>, results: seq<Result>, i: nat, j: nat) {
    && i < j < |ops| == |results|
    && ops[i].Write? && results[i].ret == ops[i].cnt
    && ops[j].Read? && results[j].ret == ops[j].cnt && ops[j].key == ops[i].key
    && ops[i].start <= ops[j].start && ops[j].start + ops[j].cnt <= ops[i].start + ops[i].cnt
    && forall k :: i < k < j ==> Spares(ops[k], ops[j].key, ops[j].start, ops[j].cnt)
  }

  /** buf is what w wrote to the blocks that r reads. */
  predicate IsWritten(w: Op, r: Op, blksz: nat, buf: seq<byte>)
    requires w.Write? && r.Read?
  {
    && |buf| == r.cnt * blksz && |w.data| == w.cnt * blksz
    && var from := (r.start - w.start) * blksz; 0 <= from <= from + |buf| <= |w.data| && buf == w.data[from..from + |buf|]
  }

  /** What was written is what is read, from the device or from the cache. */
  lemma ReadYourWrites(states: seq<State>, ops: seq<Op>, results: seq<Result>, i: nat, j: nat)
    requires IsRun(states, ops, results) && AllCoherent(states[0]) && WrittenThenRead(ops, results, i, j)
    ensures ops[j].key in states[0].disks && IsWritten(ops[i], ops[j], states[0].disks[ops[j].key].blksz, results[j].buf)
  {
    hide Step, AllCoherent, Holds;
    var w, r := ops[i], ops[j];
    WriteHolds(states[i], w, states[i + 1], results[i]);
    WrittenPart(states[i + 1].disks[w.key], w, r);
    var part := Part(Entry(w.key, w.start, w.cnt, states[i + 1].disks[w.key].blksz, w.data), r.start, r.cnt);
    StillHolds(states, ops, results, i + 1, j, r.key, r.start, r.cnt, part);
    SameBlockSize(states, ops, results, j, r.key);
    RunPrefix(states, ops, results, j);
    StepCorrect(states[j], r, states[j + 1], results[j]);
    HoldsUnique(states[j].disks[r.key], r.start, r.cnt, results[j].buf, part);
  }

  /** In particular, reading back the range of a complete write, with no other change to the device, returns the data. */
  lemma ReadBack(states: seq<State>, ops: seq<Op>, results: seq<Result>, i: nat, j: nat)
    requires IsRun(states, ops, results) && AllCoherent(states[0])
    requires i < j < |ops| && ops[i].Write? && ops[j].Read? && results[i].ret == ops[i].cnt && results[j].ret == ops[j].cnt
    requires ops[j].key == ops[i].key && ops[j].start == ops[i].start && ops[j].cnt == ops[i].cnt
    requires forall k :: i < k < j ==> !((ops[k].Write? || ops[k].Erase?) && ops[k].key == ops[i].key)
    ensures results[j].buf == ops[i].data
  {
    hide Step, AllCoherent;
    assert WrittenThenRead(ops, results, i, j);
    ReadYourWrites(states, ops, results, i, j);
  }

  lemma WriteHolds(s: State, op: Op, s': State, r: Result)
    requires Step(s, op, s', r) && op.Write? && r.ret == op.cnt
    ensures op.key in s'.disks && Holds(s'.disks[op.key], op.start, op.cnt, op.data)
  {}

  lemma WrittenPart(d: Disk, w: Op, r: Op)
    requires w.Write? && r.Read? && Holds(d, w.start, w.cnt, w.data)
    requires w.start <= r.start && r.start + r.cnt <= w.start + w.cnt
    ensures var e := Entry(w.key, w.start, w.cnt, d.blksz, w.data);
            Serves(e, w.key, r.start, r.cnt, d.blksz)
            && Holds(d, r.start, r.cnt, Part(e, r.start, r.cnt)) && IsWritten(w, r, d.blksz, Part(e, r.start, r.cnt))
  {
    var e := Entry(w.key, w.start, w.cnt, d.blksz, w.data);
    RangeOrder(r.start - w.start, r.cnt, d.blksz);
    Le(r.start - w.start + r.cnt, w.cnt, d.blksz);
    PartHolds(d, e, r.start, r.cnt);
  }

  lemma {:induction false} SameBlockSize(states: seq<State>, ops: seq<Op>, results: seq<Result>, i: nat, key: Key)
    requires IsRun(states, ops, results) && i <= |ops| && key in states[i].disks
    ensures key in states[0].disks && states[i].disks[key].blksz == states[0].disks[key].blksz
  {
    hide Step;
    if i == 0 {
    } else {
      StepDisks(states[i - 1], ops[i - 1], states[i], results[i - 1]);
      SameBlockSize(states, ops, results, i - 1, key);
    }
  }
}
