/**
 The block operations of u-boot/include/blk.h without driver model: blk_dread(),
 blk_dwrite() and blk_derase() on a descriptor, in front of a bounded cache that
 evicts the least recently used entry, or of the always-miss stubs.
 */
module Blk {
  import opened Words
  import opened BlkSpec

  /** memcpy() into the front of a caller's buffer. */
  method CopyOut(buffer: array<byte>, data: seq<byte>)
    requires |data| <= buffer.Length
    modifies buffer
    ensures buffer[..|data|] == data
    ensures buffer[|data|..] == old(buffer[|data|..])
  {
    for i := 0 to |data|
      invariant buffer[..i] == data[..i]
      invariant forall j :: |data| <= j < buffer.Length ==> buffer[j] == old(buffer[j])
    {
      buffer[i] := data[i];
    }
  }

  class BlockCache {
    /** CONFIG_IS_ENABLED(BLOCK_CACHE); without it the three functions are the stubs. */
    const enabled: bool

    /** Most recently used first. */
    var entries: seq<Entry>
    var maxBlocks: nat
    var maxEntries: nat

    /** The bounds blkcache_configure() promises, and each entry holds all its blocks. */
    ghost predicate Valid()
      reads this
    {
      && |entries| <= maxEntries
      && (forall e :: e in entries ==> e.cnt <= maxBlocks && |e.data| == e.cnt * e.blksz)
      && (!enabled ==> entries == [])
    }

    constructor (enabled: bool, blocks: nat, entries: nat)
      ensures Valid() && this.enabled == enabled && this.entries == [] && maxBlocks == blocks && maxEntries == entries
    {
      this.enabled := enabled;
      this.entries := [];
      maxBlocks, maxEntries := blocks, entries;
    }

    method Read(key: Key, start: nat, blkcnt: nat, blksz: nat, buffer: array<byte>) returns (hit: bool)
      requires Valid() && blkcnt * blksz <= buffer.Length
      modifies this`entries, buffer
      ensures Valid() && multiset(entries) == multiset(old(entries)) && Retained(old(entries), entries)
      ensures !enabled ==> !hit
      ensures hit <==> exists e :: e in old(entries) && e.key == key && e.blksz == blksz
                                   && e.start <= start && start + blkcnt <= e.start + e.cnt
      ensures hit ==> |entries| > 0 && entries[0] in old(entries) && Serves(entries[0], key, start, blkcnt, blksz)
                      && buffer[..blkcnt * blksz] == Part(entries[0], start, blkcnt)
      ensures buffer[blkcnt * blksz..] == old(buffer[blkcnt * blksz..])
      ensures !hit ==> buffer[..] == old(buffer[..]) && entries == old(entries)
    {
      var i := 0;
      while i < |entries| && !Serves(entries[i], key, start, blkcnt, blksz)
        invariant 0 <= i <= |entries|
        invariant forall j :: 0 <= j < i ==> !Serves(entries[j], key, start, blkcnt, blksz)
      {
        i := i + 1;
      }
      if i == |entries| {
        return false;
      }
      var e := entries[i];
      assert e in old(entries);
      assert entries == entries[..i] + [e] + entries[i + 1..];
      CopyOut(buffer, Part(e, start, blkcnt));
      entries := [e] + entries[..i] + entries[i + 1..];
      return true;
    }

    method Fill(key: Key, start: nat, blkcnt: nat, blksz: nat, data: seq<byte>)
      requires Valid() && |data| == blkcnt * blksz
      modifies this`entries
      ensures Valid() && Filled(old(entries), entries, Entry(key, start, blkcnt, blksz, data))
      ensures if enabled && blkcnt <= maxBlocks && maxEntries > 0
              then |entries| > 0 && entries[0] == Entry(key, start, blkcnt, blksz, data) && entries[1..] <= old(entries)
                   && |entries| == if |old(entries)| < maxEntries then |old(entries)| + 1 else maxEntries
              else entries == old(entries)
    {
      if !enabled || blkcnt > maxBlocks || maxEntries == 0 {
        return;
      }
      var kept := if |entries| < maxEntries then entries else entries[..maxEntries - 1];
      entries := [Entry(key, start, blkcnt, blksz, data)] + kept;
    }

    method Invalidate(key: Key)
      requires Valid()
      modifies this`entries
      ensures Valid() && Invalidated(old(entries), entries, key)
      ensures forall e :: e in entries <==> e in old(entries) && e.key != key
    {
      var kept: seq<Entry> := [];
      for i := 0 to |entries|
        invariant |kept| <= i
        invariant entries == old(entries)
        invariant forall e :: e in kept <==> e in entries[..i] && e.key != key
      {
        if entries[i].key != key {
          kept := kept + [entries[i]];
        }
      }
      entries := kept;
    }

    method Configure(blocks: nat, entries: nat)
      requires Valid()
      modifies this
      ensures Valid() && maxBlocks == blocks && maxEntries == entries && this.entries == []
      ensures Retained(old(this.entries), this.entries)
    {
      this.entries := [];
      maxBlocks, maxEntries := blocks, entries;
    }
  }

  /** A block device: its descriptor and the device behind the driver's functions. */
  class BlkDesc {
    const key: Key
    const blksz: nat
    var bytes: seq<byte>

    constructor (key: Key, blksz: nat, bytes: seq<byte>)
      ensures this.key == key && this.blksz == blksz && this.bytes == bytes
    {
      this.key, this.blksz, this.bytes := key, blksz, bytes;
    }

    function Contents(): (r: Disk)
      reads this
      ensures r.blksz == blksz && r.bytes == bytes
    {
      Disk(blksz, bytes)
    }

    /** Some entry of this device contains all the blocks. */
    ghost predicate CanServe(entries: seq<Entry>, start: nat, blkcnt: nat)
    {
      exists e :: e in entries && e.key == key && e.blksz == blksz && e.start <= start && start + blkcnt <= e.start + e.cnt
    }

    /** The driver's read function, answering as the outcome says. */
    method BlockRead(start: nat, blkcnt: nat, buffer: array<byte>, outcome: ReadOutcome) returns (ret: nat)
      requires DriverReads(Contents(), start, blkcnt, outcome) && blkcnt * blksz <= buffer.Length
      modifies buffer
      ensures ret == outcome.ret && buffer[..blkcnt * blksz] == outcome.got
      ensures buffer[blkcnt * blksz..] == old(buffer[blkcnt * blksz..])
    {
      CopyOut(buffer, outcome.got);
      return outcome.ret;
    }

    /** The driver's write or erase function, answering as the outcome says. */
    method BlockChange(start: nat, blkcnt: nat, outcome: ChangeOutcome) returns (ret: nat)
      requires DriverChanges(Contents(), start, blkcnt, outcome)
      modifies this`bytes
      ensures ret == outcome.ret && bytes == outcome.after
    {
      bytes := outcome.after;
      return outcome.ret;
    }

    method DRead(cache: BlockCache, start: nat, blkcnt: nat, buffer: array<byte>, outcome: ReadOutcome) returns (ret: nat)
      requires cache.Valid() && Coherent(cache.entries, key, Contents())
      requires DriverReads(Contents(), start, blkcnt, outcome) && blkcnt * blksz <= buffer.Length
      modifies cache`entries, buffer
      ensures cache.Valid()
      ensures ReadStep(old(cache.entries), cache.entries, key, Contents(), start, blkcnt, outcome, ret, buffer[..blkcnt * blksz])
      ensures ret == blkcnt ==> Holds(Contents(), start, blkcnt, buffer[..blkcnt * blksz])
      ensures Coherent(cache.entries, key, Contents())
      ensures forall k, other :: k != key && Coherent(old(cache.entries), k, other) ==> Coherent(cache.entries, k, other)
      ensures buffer[blkcnt * blksz..] == old(buffer[blkcnt * blksz..])
      ensures CanServe(old(cache.entries), start, blkcnt) ==> ret == blkcnt && multiset(cache.entries) == multiset(old(cache.entries))
      ensures !CanServe(old(cache.entries), start, blkcnt) ==>
                && ret == outcome.ret && buffer[..blkcnt * blksz] == outcome.got
                && if ret == blkcnt && cache.enabled && blkcnt <= cache.maxBlocks && cache.maxEntries > 0
                   then |cache.entries| > 0 && cache.entries[0] == Entry(key, start, blkcnt, blksz, outcome.got)
                        && cache.entries[1..] <= old(cache.entries)
                        && |cache.entries| == if |old(cache.entries)| < cache.maxEntries then |old(cache.entries)| + 1 else cache.maxEntries
                   else cache.entries == old(cache.entries)
      ensures ret == blkcnt && cache.enabled && blkcnt <= cache.maxBlocks && cache.maxEntries > 0 ==> CanServe(cache.entries, start, blkcnt)
      ensures !cache.enabled ==> ret == outcome.ret && buffer[..blkcnt * blksz] == outcome.got
    {
      var hit := cache.Read(key, start, blkcnt, blksz, buffer);
      if hit {
        ReadStepCorrect(old(cache.entries), cache.entries, key, Contents(), start, blkcnt, outcome, blkcnt, buffer[..blkcnt * blksz]);
        return blkcnt;
      }
      ret := BlockRead(start, blkcnt, buffer, outcome);
      if ret == blkcnt {
        cache.Fill(key, start, blkcnt, blksz, buffer[..blkcnt * blksz]);
      }
      ReadStepCorrect(old(cache.entries), cache.entries, key, Contents(), start, blkcnt, outcome, ret, buffer[..blkcnt * blksz]);
    }

    method DWrite(cache: BlockCache, start: nat, blkcnt: nat, data: seq<byte>, outcome: ChangeOutcome) returns (ret: nat)
      requires cache.Valid() && DriverWrites(Contents(), start, blkcnt, data, outcome)
      modifies cache`entries, this`bytes
      ensures cache.Valid() && Invalidated(old(cache.entries), cache.entries, key)
      ensures forall e :: e in cache.entries <==> e in old(cache.entries) && e.key != key
      ensures ret == outcome.ret && bytes == outcome.after
      ensures ret == blkcnt ==> Holds(Contents(), start, blkcnt, data)
      ensures Coherent(cache.entries, key, Contents())
      ensures forall k, other :: k != key && Coherent(old(cache.entries), k, other) ==> Coherent(cache.entries, k, other)
    {
      cache.Invalidate(key);
      ret := BlockChange(start, blkcnt, outcome);
    }

    method DErase(cache: BlockCache, start: nat, blkcnt: nat, outcome: ChangeOutcome) returns (ret: nat)
      requires cache.Valid() && DriverChanges(Contents(), start, blkcnt, outcome)
      modifies cache`entries, this`bytes
      ensures cache.Valid() && Invalidated(old(cache.entries), cache.entries, key)
      ensures forall e :: e in cache.entries <==> e in old(cache.entries) && e.key != key
      ensures ret == outcome.ret && bytes == outcome.after
      ensures Coherent(cache.entries, key, Contents())
      ensures forall k, other :: k != key && Coherent(old(cache.entries), k, other) ==> Coherent(cache.entries, k, other)
    {
      cache.Invalidate(key);
      ret := BlockChange(start, blkcnt, outcome);
    }
  }

  // --- any operation, and any sequence of them, on the devices of a system

  /** The devices behind one cache, one descriptor for each key the cache can tell apart. */
  ghost predicate Keyed(devs: map<Key, BlkDesc>) {
    forall key :: key in devs ==> devs[key].key == key
  }

  ghost function StateOf(devs: map<Key, BlkDesc>, cache: BlockCache): (s: State)
    reads devs.Values, cache
    ensures s.disks.Keys == devs.Keys
  {
    State(map key | key in devs :: devs[key].Contents(), cache.entries)
  }

  /** A read takes a step of the specification; if complete and small enough for the cache, it can be served again. */
  method PerformRead(devs: map<Key, BlkDesc>, cache: BlockCache, op: Op) returns (r: Result)
    requires op.Read?
    requires Keyed(devs) && cache.Valid() && AllCoherent(StateOf(devs, cache)) && DriverOk(StateOf(devs, cache).disks, op)
    modifies cache`entries
    ensures cache.Valid() && Step(old(StateOf(devs, cache)), op, StateOf(devs, cache), r)
    ensures !cache.enabled ==> r == StubResult(op)
    ensures if devs[op.key].CanServe(old(cache.entries), op.start, op.cnt) then r.ret == op.cnt else r == Result(op.seen.ret, op.seen.got)
    ensures r.ret == op.cnt && cache.enabled && op.cnt <= cache.maxBlocks && cache.maxEntries > 0 ==>
              devs[op.key].CanServe(cache.entries, op.start, op.cnt)
  {
    hide Coherent, Holds, ReadStep, DriverWrites, DriverChanges, DisksAfter, BlockCache.Valid, BlkDesc.CanServe;
    ghost var s := StateOf(devs, cache);
    var dev, buffer := devs[op.key], new byte[|op.seen.got|];
    var ret := dev.DRead(cache, op.start, op.cnt, buffer, op.seen);
    assert buffer[..] == buffer[..op.cnt * dev.blksz];
    r := Result(ret, buffer[..]);
    DisksAfterUnique(s.disks, op, StateOf(devs, cache).disks);
  }

  /** A write or erase takes a step of the specification, reaches its device, and no other. */
  method PerformChange(devs: map<Key, BlkDesc>, cache: BlockCache, op: Op) returns (r: Result)
    requires op.Write? || op.Erase?
    requires Keyed(devs) && cache.Valid() && AllCoherent(StateOf(devs, cache)) && DriverOk(StateOf(devs, cache).disks, op)
    modifies devs.Values`bytes, cache`entries
    ensures cache.Valid() && Step(old(StateOf(devs, cache)), op, StateOf(devs, cache), r)
    ensures r == StubResult(op) && r.ret == op.done.ret && devs[op.key].bytes == op.done.after
    ensures forall key :: key in devs && key != op.key ==> devs[key].bytes == old(devs[key].bytes)
  {
    hide Coherent, Holds, ReadStep, Invalidated, DriverWrites, DriverChanges, DisksAfter, BlockCache.Valid, BlkDesc.CanServe;
    ghost var s := StateOf(devs, cache);
    var dev, ret := devs[op.key], 0;
    if op.Write? {
      ret := dev.DWrite(cache, op.start, op.cnt, op.data, op.done);
    } else {
      ret := dev.DErase(cache, op.start, op.cnt, op.done);
    }
    r := Result(ret, []);
    DisksAfterUnique(s.disks, op, StateOf(devs, cache).disks);
  }

  /** One operation, whatever it is. */
  method Perform(devs: map<Key, BlkDesc>, cache: BlockCache, op: Op) returns (r: Result)
    requires Keyed(devs) && cache.Valid() && AllCoherent(StateOf(devs, cache)) && DriverOk(StateOf(devs, cache).disks, op)
    modifies devs.Values, cache
    ensures cache.Valid() && Step(old(StateOf(devs, cache)), op, StateOf(devs, cache), r)
    ensures !cache.enabled ==> r == StubResult(op)
    ensures op.Write? || op.Erase? ==> r.ret == op.done.ret && devs[op.key].bytes == op.done.after
    ensures forall key :: key in devs && !((op.Write? || op.Erase?) && key == op.key) ==> devs[key].bytes == old(devs[key].bytes)
    ensures op.Read? ==>
              && (if devs[op.key].CanServe(old(cache.entries), op.start, op.cnt) then r.ret == op.cnt else r == Result(op.seen.ret, op.seen.got))
              && (r.ret == op.cnt && cache.enabled && op.cnt <= cache.maxBlocks && cache.maxEntries > 0 ==>
                    devs[op.key].CanServe(cache.entries, op.start, op.cnt))
    ensures if op.Configure? then cache.maxBlocks == op.blocks && cache.maxEntries == op.entries
            else cache.maxBlocks == old(cache.maxBlocks) && cache.maxEntries == old(cache.maxEntries)
  {
    hide AllCoherent, ReadStep, Invalidated, DriverReads, DriverWrites, DriverChanges, BlockCache.Valid, BlkDesc.CanServe;
    if op.Read? {
      r := PerformRead(devs, cache, op);
    } else if op.Write? || op.Erase? {
      r := PerformChange(devs, cache, op);
    } else {
      cache.Configure(op.blocks, op.entries);
      r := Result(0, []);
    }
  }

  /**
   A sequence of operations, each driver behaving at its turn: the cache ends up
   coherent, the devices are those of the build without a cache, and each caller
   saw what that build returns, or a hit with the device's contents of the moment.
   */
  method PerformAll(devs: map<Key, BlkDesc>, cache: BlockCache, ops: seq<Op>) returns (results: seq<Result>)
    requires Keyed(devs) && cache.Valid() && AllCoherent(StateOf(devs, cache))
    requires forall i :: 0 <= i < |ops| ==> DriverOk(StubDisks(StateOf(devs, cache).disks, ops[..i]), ops[i])
    modifies devs.Values, cache
    ensures cache.Valid() && AllCoherent(StateOf(devs, cache))
    ensures StateOf(devs, cache).disks == StubDisks(old(StateOf(devs, cache).disks), ops)
    ensures |results| == |ops|
    ensures forall i :: 0 <= i < |ops| ==>
              && Agrees(ops[i], results[i])
              && Current(StubDisks(old(StateOf(devs, cache).disks), ops[..i]), ops[i], results[i])
    ensures !cache.enabled ==> forall i :: 0 <= i < |ops| ==> results[i] == StubResult(ops[i])
    ensures forall i :: 0 <= i < |ops| && (ops[i].Write? || ops[i].Erase?) ==> results[i].ret == ops[i].done.ret
    ensures forall i :: 0 <= i < |ops| && ops[i].Read? ==>
              results[i] == Result(ops[i].seen.ret, ops[i].seen.got) || results[i].ret == ops[i].cnt != ops[i].seen.ret
    ensures forall i: nat, j: nat :: WrittenThenRead(ops, results, i, j) ==>
              ops[j].key in devs && IsWritten(ops[i], ops[j], devs[ops[j].key].blksz, results[j].buf)
    ensures forall i: nat, j: nat | i < j < |ops| && ops[i].Write? && ops[j].Read? ::
              && results[i].ret == ops[i].cnt && results[j].ret == ops[j].cnt
              && ops[j].key == ops[i].key && ops[j].start == ops[i].start && ops[j].cnt == ops[i].cnt
              && (forall k :: i < k < j ==> !((ops[k].Write? || ops[k].Erase?) && ops[k].key == ops[i].key))
              ==> results[j].buf == ops[i].data
  {
    hide AllCoherent, DriverOk, Step, StubDisks, Agrees, Current, StubResult, IsWritten;
    ghost var disks := StateOf(devs, cache).disks;
    ghost var states := [StateOf(devs, cache)];
    results := [];
    for i := 0 to |ops|
      invariant cache.Valid() && |results| == i
      invariant IsRun(states, ops[..i], results) && AllCoherent(states[0]) && states[0].disks == disks
      invariant states[i] == StateOf(devs, cache)
      invariant !cache.enabled ==> forall j :: 0 <= j < i ==> results[j] == StubResult(ops[j])
      invariant forall j :: 0 <= j < i && (ops[j].Write? || ops[j].Erase?) ==> results[j].ret == ops[j].done.ret
    {
      RunPrefix(states, ops[..i], results, i);
      assert ops[..i][..i] == ops[..i] && ops[..i + 1] == ops[..i] + [ops[i]];
      var r := Perform(devs, cache, ops[i]);
      ExtendRun(states, ops[..i], results, ops[i], StateOf(devs, cache), r);
      states, results := states + [StateOf(devs, cache)], results + [r];
    }
    assert ops[..|ops|] == ops;
    EveryRun(states, ops, results);
    forall i | 0 <= i < |ops| && ops[i].Read?
      ensures results[i] == Result(ops[i].seen.ret, ops[i].seen.got) || results[i].ret == ops[i].cnt != ops[i].seen.ret
    {
      AgreesMeans(ops[i], results[i]);
    }
    forall i: nat, j: nat | WrittenThenRead(ops, results, i, j)
      ensures ops[j].key in devs && IsWritten(ops[i], ops[j], devs[ops[j].key].blksz, results[j].buf)
    {
      ReadYourWrites(states, ops, results, i, j);
    }
    forall i: nat, j: nat | i < j < |ops| && ops[i].Write? && ops[j].Read?
      && results[i].ret == ops[i].cnt && results[j].ret == ops[j].cnt
      && ops[j].key == ops[i].key && ops[j].start == ops[i].start && ops[j].cnt == ops[i].cnt
      && (forall k :: i < k < j ==> !((ops[k].Write? || ops[k].Erase?) && ops[k].key == ops[i].key))
      ensures results[j].buf == ops[i].data
    {
      ReadBack(states, ops, results, i, j);
    }
  }
}
