/** The boot-loader installer's device layer (limine/limine.c): byte-addressed reads and writes over a
    one-block write-back cache, and the log of old contents that undoes an installation. */
module UndoLog {
  import opened Bytes
  import opened Options

  const NO_BLOCK: nat := 0xFFFF_FFFF_FFFF_FFFF
  const U64_LIMIT: nat := 0x1_0000_0000_0000_0000
  const UNINSTALL_DATA_MAX: nat := 256

  datatype UndoEntry = UndoEntry(data: seq<byte>, loc: nat)

  ghost predicate Fits(es: seq<UndoEntry>, size: nat) {
    forall k :: 0 <= k < |es| ==> es[k].data == [] || es[k].loc + |es[k].data| <= size
  }

  /** `s` after a completed write of `d` at `at`; an empty write may name any address. */
  function Put(s: seq<byte>, at: nat, d: seq<byte>): (r: seq<byte>)
    requires d == [] || at + |d| <= |s|
    ensures |r| == |s|
    ensures forall i :: 0 <= i < |s| ==> r[i] == if at <= i < at + |d| then d[i - at] else s[i]
  {
    if d == [] then s else Splice(s, at, d)
  }

  /** The device contents after writing the entries' data back, first entry first. */
  ghost function Replay(d: seq<byte>, es: seq<UndoEntry>): (r: seq<byte>)
    requires Fits(es, |d|)
    ensures |r| == |d|
    decreases |es|
  {
    if es == [] then d else Replay(Put(d, es[0].loc, es[0].data), es[1..])
  }

  /** What of an entry lies on a device of `size` bytes. */
  function Clip(e: UndoEntry, size: nat): (r: UndoEntry)
    ensures r.data == [] || r.loc + |r.data| <= size
    ensures r.loc == e.loc && r.data <= e.data && (e.data == [] || e.loc + |e.data| <= size ==> r == e)
    ensures |r.data| < |e.data| ==> r.loc + |r.data| >= size
  {
    if e.loc >= size then UndoEntry([], e.loc)
    else if e.loc + |e.data| <= size then e else UndoEntry(e.data[..size - e.loc], e.loc)
  }

  ghost function Clipped(es: seq<UndoEntry>, size: nat): (r: seq<UndoEntry>)
    ensures |r| == |es| && forall k :: 0 <= k < |es| ==> r[k] == Clip(es[k], size)
    ensures Fits(r, size)
  {
    seq(|es|, k requires 0 <= k < |es| => Clip(es[k], size))
  }

  ghost function Reversed(es: seq<UndoEntry>): (r: seq<UndoEntry>)
    ensures |r| == |es|
    ensures forall k :: 0 <= k < |es| ==> r[k] == es[|es| - 1 - k]
  {
    if es == [] then [] else [es[|es| - 1]] + Reversed(es[..|es| - 1])
  }

  ghost predicate Covered(es: seq<UndoEntry>, i: int) {
    exists k :: 0 <= k < |es| && es[k].loc <= i < es[k].loc + |es[k].data|
  }

  lemma {:induction false} CoveredConcat(es: seq<UndoEntry>, fs: seq<UndoEntry>, i: int)
    ensures Covered(es + fs, i) <==> Covered(es, i) || Covered(fs, i)
  {
    var all := es + fs;
    if Covered(es, i) {
      var k :| 0 <= k < |es| && es[k].loc <= i < es[k].loc + |es[k].data|;
      assert all[k] == es[k];
    }
    if Covered(fs, i) {
      var k :| 0 <= k < |fs| && fs[k].loc <= i < fs[k].loc + |fs[k].data|;
      assert all[|es| + k] == fs[k];
    }
  }

  ghost predicate AgreeOutside(x: seq<byte>, y: seq<byte>, es: seq<UndoEntry>) {
    && |x| == |y|
    && forall i :: 0 <= i < |x| && !Covered(es, i) ==> x[i] == y[i]
  }

  /** A replay overwrites every covered byte, so it forgets what the covered bytes held. */
  lemma {:induction false} ReplayForgetsCovered(x: seq<byte>, y: seq<byte>, es: seq<UndoEntry>)
    requires AgreeOutside(x, y, es) && Fits(es, |x|)
    ensures Replay(x, es) == Replay(y, es)
    decreases |es|
  {
    if es != [] {
      var x', y' := Put(x, es[0].loc, es[0].data), Put(y, es[0].loc, es[0].data);
      forall i | 0 <= i < |x| && !Covered(es[1..], i) ensures x'[i] == y'[i] {
        CoveredConcat([es[0]], es[1..], i);
        assert [es[0]] + es[1..] == es;
      }
      ReplayForgetsCovered(x', y', es[1..]);
    }
  }

  lemma {:induction false} CoveredReversed(es: seq<UndoEntry>, i: int)
    ensures Covered(Reversed(es), i) <==> Covered(es, i)
  {
    if Covered(es, i) {
      var k :| 0 <= k < |es| && es[k].loc <= i < es[k].loc + |es[k].data|;
      assert Reversed(es)[|es| - 1 - k] == es[k];
    }
    if Covered(Reversed(es), i) {
      var k :| 0 <= k < |es| && Reversed(es)[k].loc <= i < Reversed(es)[k].loc + |Reversed(es)[k].data|;
      assert Reversed(es)[k] == es[|es| - 1 - k];
    }
  }

  /** The undo invariant: undoing the log from the logical contents gives the original contents, and the
      device differs from the logical contents only where the log has saved old bytes. */
  ghost predicate Undoable(disk: seq<byte>, logical: seq<byte>, log: seq<UndoEntry>, original: seq<byte>) {
    && |disk| == |logical|
    && Fits(log, |logical|)
    && Replay(logical, Reversed(log)) == original
    && AgreeOutside(disk, logical, log)
  }

  /** Whatever subset of the dirty data reached the device, replaying the reversed log restores it. */
  lemma {:induction false} UndoRestores(disk: seq<byte>, logical: seq<byte>, log: seq<UndoEntry>, original: seq<byte>)
    requires Undoable(disk, logical, log, original)
    ensures Fits(Reversed(log), |disk|)
    ensures Replay(disk, Reversed(log)) == original
  {
    forall i ensures Covered(Reversed(log), i) <==> Covered(log, i) { CoveredReversed(log, i); }
    ReplayForgetsCovered(disk, logical, Reversed(log));
  }

  /** The bytes a write of `n` bytes at `at` is about to replace, as `_device_read` saves them. */
  ghost function Saved(s: seq<byte>, at: nat, n: nat): (r: seq<byte>)
    requires n == 0 || at + n <= |s|
    ensures |r| == n
  {
    if n == 0 then [] else s[at..at + n]
  }

  /** While a write to [at, at + n) is under way, each other device byte is old or caught up. */
  ghost predicate Lagging(disk': seq<byte>, disk: seq<byte>, logical: seq<byte>, at: nat, n: nat) {
    && |disk'| == |disk| == |logical|
    && forall i :: 0 <= i < |disk| ==> disk'[i] == disk[i] || disk'[i] == logical[i] || at <= i < at + n
  }

  lemma {:induction false} NotYetLagging(disk: seq<byte>, logical: seq<byte>, at: nat, n: nat)
    requires |disk| == |logical|
    ensures Lagging(disk, disk, logical, at, n)
  {
  }

  lemma {:induction false} LaggingStep(disk'': seq<byte>, disk': seq<byte>, disk: seq<byte>, logical: seq<byte>, at: nat, data: seq<byte>, done: nat)
    requires Lagging(disk', disk, logical, at, |data|)
    requires done <= |data| && (done == 0 || at + done <= |logical|)
    requires disk'' == disk' || disk'' == Put(logical, at, data[..done])
    ensures Lagging(disk'', disk, logical, at, |data|)
  {
  }

  lemma {:induction false} ReplaySnoc(d: seq<byte>, es: seq<UndoEntry>, e: UndoEntry)
    requires Fits(es + [e], |d|)
    ensures Fits(es, |d|) && (e.data == [] || e.loc + |e.data| <= |d|)
    ensures Replay(d, es + [e]) == Put(Replay(d, es), e.loc, e.data)
    decreases |es|
  {
    forall k | 0 <= k < |es| ensures (es + [e])[k] == es[k] {}
    assert (es + [e])[|es|] == e;
    if es != [] {
      assert (es + [e])[1..] == es[1..] + [e];
      ReplaySnoc(Put(d, es[0].loc, es[0].data), es[1..], e);
    }
  }

  /** A logged write keeps the undo invariant. */
  lemma {:induction false} WriteKeepsUndoable(disk: seq<byte>, logical: seq<byte>, log: seq<UndoEntry>, original: seq<byte>,
                           disk': seq<byte>, at: nat, data: seq<byte>)
    requires Undoable(disk, logical, log, original)
    requires data == [] || at + |data| <= |logical|
    requires Lagging(disk', disk, logical, at, |data|)
    ensures Undoable(disk', Put(logical, at, data),
                     log + [UndoEntry(Saved(logical, at, |data|), at)], original)
  {
    var e := UndoEntry(Saved(logical, at, |data|), at);
    var log' := log + [e];
    var logical' := Put(logical, at, data);
    assert Put(logical', at, e.data) == logical;
    assert log'[..|log'| - 1] == log;
    assert Reversed(log')[1..] == Reversed(log);
    OutsideStill(disk, logical, log, disk', at, data, e);
  }

  /** Where the log, with the new entry, covers nothing, the device holds what a reader sees. */
  lemma {:induction false} OutsideStill(disk: seq<byte>, logical: seq<byte>, log: seq<UndoEntry>, disk': seq<byte>, at: nat, data: seq<byte>, e: UndoEntry)
    requires |disk| == |logical| && AgreeOutside(disk, logical, log) && (data == [] || at + |data| <= |logical|)
    requires Lagging(disk', disk, logical, at, |data|) && e.loc == at && |e.data| == |data|
    ensures AgreeOutside(disk', Put(logical, at, data), log + [e])
  {
    hide Covered;
    forall i | 0 <= i < |disk| && !Covered(log + [e], i) ensures disk'[i] == Put(logical, at, data)[i] {
      CoveredConcat(log, [e], i);
      CoveredOne(e, i);
    }
  }

  lemma {:induction false} CoveredOne(e: UndoEntry, i: int)
    ensures Covered([e], i) <==> e.loc <= i < e.loc + |e.data|
  {
    assert [e][0] == e;
  }

  /** The one-block cache against the device: a clean cached block equals the device's, a dirty one is
      inside the device. */
  ghost predicate Coherent(blockSize: nat, disk: seq<byte>, cache: seq<byte>, dirty: bool, cached: nat) {
    && blockSize in {512, 2048, 4096}
    && |cache| == blockSize
    && |disk| % blockSize == 0 && |disk| < U64_LIMIT
    && (cached == NO_BLOCK || BlockFits(blockSize, disk, cached))
    && (dirty ==> BlockFits(blockSize, disk, cached))
    && (BlockFits(blockSize, disk, cached) && !dirty ==>
          cache == disk[cached * blockSize..cached * blockSize + blockSize])
  }

  ghost predicate BlockFits(blockSize: nat, disk: seq<byte>, block: nat) {
    block * blockSize + blockSize <= |disk|
  }

  /** What a reader sees: the device overlaid with the cached block. */
  ghost function Overlay(blockSize: nat, disk: seq<byte>, cache: seq<byte>, cached: nat): (r: seq<byte>)
    requires |cache| == blockSize
    ensures |r| == |disk|
  {
    if BlockFits(blockSize, disk, cached) then Splice(disk, cached * blockSize, cache) else disk
  }

  /** A slice of the cached block is that slice of the logical contents. */
  lemma {:induction false} CacheSlice(blockSize: nat, disk: seq<byte>, cache: seq<byte>, cached: nat, at: nat, n: nat)
    requires blockSize > 0 && |cache| == blockSize && BlockFits(blockSize, disk, cached)
    requires cached == at / blockSize && at % blockSize + n <= blockSize
    ensures at + n <= |disk|
    ensures cache[at % blockSize..at % blockSize + n] == Overlay(blockSize, disk, cache, cached)[at..at + n]
  {
    BlockOf(at, blockSize);
  }

  /** Bringing the device up to date keeps the undo invariant. */
  lemma {:induction false} FlushedUndoable(disk: seq<byte>, logical: seq<byte>)
    ensures forall log, original :: Undoable(disk, logical, log, original) ==> Undoable(logical, logical, log, original)
  {
  }

  /** Where a write that stops at the end of the device has got to. */
  lemma {:induction false} ClipIs(data: seq<byte>, loc: nat, progress: nat, size: nat)
    requires progress <= |data| && (progress > 0 ==> loc + progress <= size) && (progress < |data| ==> loc + progress >= size)
    ensures Clip(UndoEntry(data, loc), size).data == data[..progress]
  {
    assert data[..|data|] == data;
  }

  /** An empty cache shows the device. */
  lemma {:induction false} Emptied(blockSize: nat, disk: seq<byte>, cache: seq<byte>, cached: nat)
    requires exists dirty :: Coherent(blockSize, disk, cache, dirty, cached)
    ensures Coherent(blockSize, disk, cache, false, NO_BLOCK) && Overlay(blockSize, disk, cache, NO_BLOCK) == disk
  {
  }

  lemma {:induction false} PutAgain(s: seq<byte>, at: nat, d: seq<byte>)
    requires d == [] || at + |d| <= |s|
    ensures Put(Put(s, at, d), at, d) == Put(s, at, d)
  {
  }

  lemma {:induction false} NothingReplayed(d: seq<byte>)
    ensures Fits([], |d|) && Replay(d, Clipped([], |d|)) == d
  {
  }

  lemma {:induction false} AddressableAt(log: seq<UndoEntry>, i: nat)
    requires Addressable(log) && i < |log|
    ensures log[i].loc + |log[i].data| < U64_LIMIT
  {
  }

  lemma {:induction false} ReplayClipped(d: seq<byte>, es: seq<UndoEntry>, e: UndoEntry)
    ensures Replay(d, Clipped(es + [e], |d|)) == Put(Replay(d, Clipped(es, |d|)), e.loc, Clip(e, |d|).data)
  {
    assert Clipped(es + [e], |d|) == Clipped(es, |d|) + [Clip(e, |d|)];
    ReplaySnoc(d, Clipped(es, |d|), Clip(e, |d|));
  }

  lemma {:induction false} ClippedAll(es: seq<UndoEntry>, size: nat)
    requires Fits(es, size)
    ensures Clipped(es, size) == es
  {
    assert forall k :: 0 <= k < |es| ==> Clipped(es, size)[k] == es[k];
  }

  /** What an installation does to the device. */
  datatype Op = DoWrite(data: seq<byte>, loc: nat) | DoRead(loc: nat, size: nat) | DoFlush

  predicate OpOk(op: Op) {
    match op
    case DoWrite(data, loc) => loc + |data| < U64_LIMIT
    case DoRead(loc, size) => loc + size < U64_LIMIT
    case DoFlush => true
  }

  class BlockDevice {
    const blockSize: nat
    var disk: seq<byte>
    var cache: seq<byte>
    var dirty: bool
    var cachedBlock: nat
    const entries: array<UndoEntry>
    const reversed: array<UndoEntry>
    var count: nat
    var uninstalling: bool
    ghost var original: seq<byte>

    ghost predicate CacheOk() reads this {
      Coherent(blockSize, disk, cache, dirty, cachedBlock)
    }

    ghost function Logical(): (r: seq<byte>) reads this
      requires CacheOk()
    {
      Overlay(blockSize, disk, cache, cachedBlock)
    }

    method FlushCache()
      requires CacheOk()
      modifies `disk, `dirty
      ensures CacheOk() && !dirty
      ensures disk == old(Logical()) == Logical()
      ensures old(Valid()) ==> Valid()
    {
      FlushedUndoable(disk, Logical());
      hide Undoable;
      if !dirty {
        return;
      }
      disk := Splice(disk, cachedBlock * blockSize, cache);
      dirty := false;
    }

    method CacheBlock(block: nat) returns (ok: bool)
      requires CacheOk() && block < NO_BLOCK
      modifies `disk, `dirty, `cachedBlock, `cache
      ensures CacheOk() && Logical() == old(Logical())
      ensures disk == old(disk) || disk == old(Logical())
      ensures ok <==> BlockFits(blockSize, disk, block)
      ensures ok ==> cachedBlock == block
    {
      if cachedBlock == block {
        return true;
      }
      if dirty {
        FlushCache();
      }
      if block * blockSize + blockSize > |disk| {
        return false;
      }
      cache := disk[block * blockSize..block * blockSize + blockSize];
      cachedBlock := block;
      return true;
    }

    /** One turn of `_device_read`'s loop: the bytes from `at` to the end of its block, at most `most` of them. */
    method ReadChunk(at: nat, most: nat) returns (ok: bool, part: seq<byte>)
      requires CacheOk() && at < U64_LIMIT && most > 0
      modifies `disk, `dirty, `cachedBlock, `cache
      ensures CacheOk() && Logical() == old(Logical())
      ensures disk == old(disk) || disk == old(Logical())
      ensures ok <==> at < |disk|
      ensures ok ==> 0 < |part| <= most && at + |part| <= |disk| && part == Logical()[at..at + |part|]
    {
      BlockInRange(at, blockSize, |disk|);
      ok := CacheBlock(at / blockSize);
      if !ok {
        return false, [];
      }
      var chunk := most;
      var offset := at % blockSize;
      if chunk > blockSize - offset {
        chunk := blockSize - offset;
      }
      CacheSlice(blockSize, disk, cache, cachedBlock, at, chunk);
      part := cache[offset..offset + chunk];
    }

    /** `_device_read`: fails exactly when part of the range lies outside the device. */
    method Read(loc: nat, size: nat) returns (ok: bool, buffer: seq<byte>)
      requires CacheOk() && loc + size < U64_LIMIT
      modifies `disk, `dirty, `cachedBlock, `cache
      ensures CacheOk() && Logical() == old(Logical())
      ensures disk == old(disk) || disk == old(Logical())
      ensures ok <==> size == 0 || loc + size <= |disk|
      ensures ok ==> buffer == Saved(Logical(), loc, size)
      ensures old(Valid()) ==> Valid()
    {
      hide Undoable, Addressable, Coherent, Overlay, BlockFits;
      FlushedUndoable(disk, Logical());
      ghost var contents := Logical();
      buffer := [];
      var progress := 0;
      while progress < size
        invariant CacheOk() && Logical() == contents
        invariant disk == old(disk) || disk == contents
        invariant 0 <= progress <= size && |buffer| == progress
        invariant Prefix(contents, loc, buffer)
      {
        var cached, part := ReadChunk(loc + progress, size - progress);
        if !cached {
          return false, [];
        }
        ExtendSlice(contents, loc, buffer, part);
        buffer := buffer + part;
        progress := progress + |part|;
      }
      return true, buffer;
    }

    /** One turn of `_device_write`'s loop. */
    method WriteChunk(at: nat, data: seq<byte>) returns (ok: bool, n: nat)
      requires CacheOk() && at < U64_LIMIT && data != []
      modifies `disk, `dirty, `cachedBlock, `cache
      ensures CacheOk() && |disk| == |old(disk)|
      ensures disk == old(disk) || disk == old(Logical())
      ensures ok <==> at < |disk|
      ensures !ok ==> Logical() == old(Logical())
      ensures ok ==> 0 < n <= |data| && at + n <= |disk| && Logical() == Splice(old(Logical()), at, data[..n])
    {
      BlockInRange(at, blockSize, |disk|);
      ok := CacheBlock(at / blockSize);
      if !ok {
        return false, 0;
      }
      var chunk := |data|;
      var offset := at % blockSize;
      if chunk > blockSize - offset {
        chunk := blockSize - offset;
      }
      SpliceCache(blockSize, disk, cache, cachedBlock, at, data[..chunk]);
      cache := Splice(cache, offset, data[..chunk]);
      dirty := true;
      n := chunk;
    }

    /** The part of `_device_write` from `skip_save` on. */
    method WriteThrough(loc: nat, data: seq<byte>) returns (ok: bool)
      requires CacheOk() && loc + |data| < U64_LIMIT
      modifies `disk, `dirty, `cachedBlock, `cache
      ensures CacheOk()
      ensures Lagging(disk, old(disk), old(Logical()), loc, |data|)
      ensures ok <==> data == [] || loc + |data| <= |old(disk)|
      ensures Logical() == Put(old(Logical()), loc, Clip(UndoEntry(data, loc), |old(disk)|).data)
    {
      hide Lagging, Overlay, Coherent, BlockFits;
      ghost var contents := Logical();
      NotYetLagging(disk, contents, loc, |data|);
      var progress := 0;
      while progress < |data|
        invariant CacheOk()
        invariant Lagging(disk, old(disk), contents, loc, |data|)
        invariant 0 <= progress <= |data| && (progress > 0 ==> loc + progress <= |contents|)
        invariant Logical() == Put(contents, loc, data[..progress])
      {
        ghost var before := disk;
        var cached, n := WriteChunk(loc + progress, data[progress..]);
        LaggingStep(disk, before, old(disk), contents, loc, data, progress);
        if !cached {
          ClipIs(data, loc, progress, |contents|);
          return false;
        }
        ExtendPut(contents, loc, data, progress, n);
        progress := progress + n;
      }
      assert data[..progress] == data;
      ClipIs(data, loc, progress, |contents|);
      return true;
    }

    ghost function Log(): seq<UndoEntry> reads this, entries
      requires count <= entries.Length
    {
      entries[..count]
    }

    ghost predicate Shape() reads this, entries {
      && CacheOk()
      && entries.Length == UNINSTALL_DATA_MAX == reversed.Length && entries != reversed
      && count <= UNINSTALL_DATA_MAX
      && Addressable(Log())
    }

    ghost predicate Valid() reads this, entries {
      Shape() && Undoable(disk, Logical(), Log(), original)
    }

    /** The state after a successful `device_init`: block 0 cached and clean, nothing logged. */
    constructor (contents: seq<byte>, size: nat)
      requires size in {512, 2048, 4096} && size <= |contents| < U64_LIMIT && |contents| % size == 0
      ensures Valid() && !uninstalling && Log() == [] && original == contents == disk
      ensures fresh(entries) && fresh(reversed)
    {
      blockSize := size;
      cache := contents[..size];
      entries := new UndoEntry[UNINSTALL_DATA_MAX](_ => UndoEntry([], 0));
      reversed := new UndoEntry[UNINSTALL_DATA_MAX](_ => UndoEntry([], 0));
      disk, original := contents, contents;
      dirty, cachedBlock, count, uninstalling := false, 0, 0, false;
    }

    /** `_device_write` while installing: the old bytes are logged, the new ones become visible. */
    method Write(data: seq<byte>, loc: nat) returns (ok: bool)
      requires Valid() && !uninstalling && loc + |data| < U64_LIMIT
      modifies `disk, `dirty, `cachedBlock, `cache, `count, entries
      ensures Valid()
      ensures ok <==> old(count) < 256 && (data == [] || loc + |data| <= |old(disk)|)
      ensures ok ==> Logical() == Put(old(Logical()), loc, data)
      ensures ok ==> Log() == old(Log()) + [UndoEntry(Saved(old(Logical()), loc, |data|), loc)]
      ensures !ok ==> Logical() == old(Logical()) && Log() == old(Log())
    {
      hide Lagging, Overlay, Coherent, BlockFits, Put, Undoable, Saved, Addressable;
      if count >= UNINSTALL_DATA_MAX {
        return false;
      }
      ghost var contents, log := Logical(), Log();
      var saved;
      ok, saved := Read(loc, |data|);
      if !ok {
        LaggingUndoable(old(disk), disk, contents, log, original);
        return false;
      }
      entries[count] := UndoEntry(saved, loc);
      ghost var before := disk;
      ok := WriteThrough(loc, data);
      LaggingAgain(disk, before, old(disk), contents, loc, |data|);
      WriteKeepsUndoable(old(disk), contents, log, original, disk, loc, data);
      AddressableSnoc(log, UndoEntry(saved, loc));
      assert entries[..count + 1] == log + [UndoEntry(saved, loc)];
      count := count + 1;
    }

    /** `reverse_uninstall_data`: through the second table and back. */
    method ReverseUninstallData()
      requires Shape()
      modifies entries, reversed
      ensures Shape() && Log() == Reversed(old(Log()))
    {
      ghost var log := Log();
      hide Coherent, Addressable, Reversed;
      var i := 0;
      while i < count
        invariant 0 <= i <= count && Shape() && Log() == log
        invariant forall k :: 0 <= k < i ==> reversed[count - 1 - k] == log[k]
      {
        reversed[count - 1 - i] := entries[i];
        i := i + 1;
      }
      forall k | 0 <= k < count {
        entries[k] := reversed[k];
      }
      AddressableReversed(log);
      assert entries[..count] == Reversed(log);
    }

    /** One entry of `uninstall`: written back, with one retry from an empty cache when that fails. */
    method RestoreEntry(ud: UndoEntry) returns (ok: bool)
      requires CacheOk() && ud.loc + |ud.data| < U64_LIMIT
      modifies `disk, `dirty, `cachedBlock, `cache
      ensures CacheOk() && |disk| == |old(disk)|
      ensures ok <==> ud.data == [] || ud.loc + |ud.data| <= |disk|
      ensures Logical() == Put(old(Logical()), ud.loc, Clip(ud, |disk|).data)
    {
      hide Coherent, BlockFits, Overlay;
      var retry := false;
      ok := WriteThrough(ud.loc, ud.data);
      while !ok
        invariant CacheOk() && |disk| == |old(disk)|
        invariant ok <==> ud.data == [] || ud.loc + |ud.data| <= |disk|
        invariant Logical() == Put(old(Logical()), ud.loc, Clip(ud, |disk|).data)
        decreases !ok, !retry
      {
        if retry {
          return false;
        }
        FlushCache();
        Emptied(blockSize, disk, cache, cachedBlock);
        dirty, cachedBlock, retry := false, NO_BLOCK, true;
        ok := WriteThrough(ud.loc, ud.data);
        PutAgain(old(Logical()), ud.loc, Clip(ud, |disk|).data);
      }
    }

    /** `uninstall`: the cache is dropped without being written, then every entry is replayed and flushed. Of an entry that
        does not lie on the device, what does is replayed, and the result is false. */
    method Uninstall() returns (ret: bool)
      requires Shape()
      modifies `disk, `dirty, `cachedBlock, `cache, `uninstalling
      ensures CacheOk() && !dirty && uninstalling
      ensures ret <==> Fits(Log(), |old(disk)|)
      ensures disk == Replay(old(disk), Clipped(Log(), |old(disk)|))
      ensures ret ==> disk == Replay(old(disk), Log())
    {
      hide Coherent, Overlay, Fits, Put, BlockFits, Clipped, Replay, Addressable;
      uninstalling := true;
      Emptied(blockSize, disk, cache, cachedBlock);
      dirty, cachedBlock := false, NO_BLOCK;
      ghost var log := Log();
      assert log[..0] == [];
      NothingReplayed(disk);
      ret := true;
      for i := 0 to count
        invariant CacheOk() && uninstalling && Log() == log && |disk| == |old(disk)|
        invariant ret <==> Fits(log[..i], |disk|)
        invariant Logical() == Replay(old(disk), Clipped(log[..i], |disk|))
      {
        assert log[..i + 1] == log[..i] + [log[i]];
        FitsSnoc(log[..i], log[i], |disk|);
        AddressableAt(log, i);
        var ok := RestoreEntry(entries[i]);
        ReplayClipped(old(disk), log[..i], log[i]);
        if !ok {
          ret := false;
        }
      }
      assert log[..count] == log;
      if ret { ClippedAll(log, |disk|); }
      FlushCache();
    }

    /** The failure path of the installer: reverse the log, then replay it. */
    method UndoInstall() returns (ret: bool)
      requires Valid()
      modifies `disk, `dirty, `cachedBlock, `cache, `uninstalling, entries, reversed
      ensures ret && disk == original
    {
      UndoRestores(disk, Logical(), Log(), original);
      ReverseUninstallData();
      ret := Uninstall();
    }

    /** After any writes, reads and flushes in any order, undoing restores the device as it was at the start. */
    method RunThenUndo(ops: seq<Op>) returns (ret: bool)
      requires Valid() && !uninstalling && forall k :: 0 <= k < |ops| ==> OpOk(ops[k])
      modifies `disk, `dirty, `cachedBlock, `cache, `count, `uninstalling, entries, reversed
      ensures ret && disk == original == old(original)
    {
      hide Coherent, Overlay, BlockFits, Undoable, Addressable, Put;
      for i := 0 to |ops|
        invariant Valid() && !uninstalling
      {
        match ops[i]
        case DoWrite(data, loc) => var _ := Write(data, loc);
        case DoRead(loc, size) => var _, _ := Read(loc, size);
        case DoFlush => FlushCache();
      }
      ret := UndoInstall();
    }

    /** `store_uninstall_data`, onto a file system without I/O errors. `fwrite` with an element size of 0
        reports 0 elements written, so an entry of length 0 counts as a failed write. */
    method StoreUninstallData() returns (ok: bool, file: seq<byte>)
      requires Shape()
      ensures ok <==> forall k :: 0 <= k < count ==> Log()[k].data != []
      ensures ok ==> file == FileOf(Log())
    {
      hide Coherent, Addressable, LittleEndian;
      file := LittleEndian(count, 8);
      var i := 0;
      while i < count
        invariant 0 <= i <= count
        invariant forall k :: 0 <= k < i ==> entries[k].data != []
        invariant file == LittleEndian(count, 8) + RecordsOf(Log()[..i])
      {
        var ud := entries[i];
        RecordsSnoc(Log()[..i], ud);
        assert Log()[..i + 1] == Log()[..i] + [ud];
        if |ud.data| == 0 {
          return false, [];
        }
        Associative(LittleEndian(count, 8), RecordsOf(Log()[..i]), RecordOf(ud));
        file := file + (LittleEndian(ud.loc, 8) + LittleEndian(|ud.data|, 8) + ud.data);
        i := i + 1;
      }
      assert Log()[..count] == Log();
      return true, file;
    }

    /** `load_uninstall_data` of a file whose header names at most UNINSTALL_DATA_MAX entries. */
    method LoadUninstallData(file: seq<byte>) returns (ok: bool)
      requires entries.Length == UNINSTALL_DATA_MAX
      requires |file| >= 8 ==> FromLittleEndian(file[..8]) <= UNINSTALL_DATA_MAX
      modifies `count, entries
      ensures ok <==> LogIn(file).Some?
      ensures ok ==> count <= entries.Length && Log() == LogIn(file).value
    {
      hide RecordsIn, OneRecord, Prepend, LogIn, FromLittleEndian;
      LogStart(file);
      if |file| < 8 {
        return false;
      }
      count := FromLittleEndian(file[..8]);
      var rest := file[8..];
      assert entries[..0] == [];
      var i := 0;
      while i < count
        invariant 0 <= i <= count <= entries.Length
        invariant LogIn(file) == Prepend(entries[..i], RecordsIn(rest, count - i))
      {
        ParseStep(entries[..i], rest, count - i);
        var got := OneRecord(rest);
        if got.None? {
          return false;
        }
        entries[i] := got.value;
        rest := rest[16 + |got.value.data|..];
        i := i + 1;
        assert entries[..i] == entries[..i - 1] + [got.value];
      }
      ParseEnd(entries[..i], rest);
      return true;
    }
  }

  /** A completed write of nothing leaves a log that cannot be stored. */
  method EmptyWriteNotStored(contents: seq<byte>, loc: nat) returns (written: bool, stored: bool)
    requires |contents| == 512 && loc < U64_LIMIT
    ensures written && !stored
  {
    var device := new BlockDevice(contents, 512);
    written := device.Write([], loc);
    assert device.Log()[0].data == [];
    var file;
    stored, file := device.StoreUninstallData();
  }

  /** Nor would it be read back: a record of length 0 is no record. */
  lemma {:induction false} EmptyRecord(loc: nat)
    requires loc < U64_LIMIT
    ensures LogIn(FileOf([UndoEntry([], loc)])) == None
  {
    hide LittleEndian, FromLittleEndian;
    var e := UndoEntry([], loc);
    RecordsSnoc([], e);
    assert RecordsOf([e]) == RecordOf(e);
    LittleEndianRoundTrip(1, 8);
    LittleEndianRoundTrip(0, 8);
    var s := RecordOf(e);
    assert s[8..16] == LittleEndian(0, 8);
    assert FileOf([e])[..8] == LittleEndian(1, 8) && FileOf([e])[8..] == s;
  }

  ghost function LogIn(file: seq<byte>): Option<seq<UndoEntry>> {
    if |file| < 8 then None else RecordsIn(file[8..], FromLittleEndian(file[..8]))
  }

  lemma {:induction false} LogStart(file: seq<byte>)
    ensures |file| < 8 ==> LogIn(file) == None
    ensures |file| >= 8 ==> LogIn(file) == Prepend([], RecordsIn(file[8..], FromLittleEndian(file[..8])))
  {
    if |file| >= 8 { NothingParsed(file[8..], FromLittleEndian(file[..8])); }
  }

  lemma {:induction false} NothingParsed(s: seq<byte>, n: nat)
    ensures Prepend([], RecordsIn(s, n)) == RecordsIn(s, n)
  {
    if RecordsIn(s, n).Some? {
      assert [] + RecordsIn(s, n).value == RecordsIn(s, n).value;
    }
  }

  lemma {:induction false} ParseStep(front: seq<UndoEntry>, s: seq<byte>, n: nat)
    requires n > 0
    ensures OneRecord(s).None? ==> Prepend(front, RecordsIn(s, n)).None?
    ensures OneRecord(s).Some? ==>
              var e := OneRecord(s).value;
              && 16 + |e.data| <= |s|
              && Prepend(front, RecordsIn(s, n)) == Prepend(front + [e], RecordsIn(s[16 + |e.data|..], n - 1))
  {
    if OneRecord(s).Some? {
      var e := OneRecord(s).value;
      var r := RecordsIn(s[16 + |e.data|..], n - 1);
      if r.Some? {
        assert front + ([e] + r.value) == front + [e] + r.value;
      }
    }
  }

  lemma {:induction false} ParseEnd(front: seq<UndoEntry>, s: seq<byte>)
    ensures Prepend(front, RecordsIn(s, 0)) == Some(front)
  {
    assert front + [] == front;
  }

  function Prepend(front: seq<UndoEntry>, r: Option<seq<UndoEntry>>): Option<seq<UndoEntry>> {
    if r.None? then None else Some(front + r.value)
  }

  ghost function RecordOf(e: UndoEntry): seq<byte> {
    LittleEndian(e.loc, 8) + LittleEndian(|e.data|, 8) + e.data
  }

  ghost function RecordsOf(es: seq<UndoEntry>): seq<byte> {
    if es == [] then [] else RecordOf(es[0]) + RecordsOf(es[1..])
  }

  ghost function FileOf(es: seq<UndoEntry>): seq<byte> {
    LittleEndian(|es|, 8) + RecordsOf(es)
  }

  lemma {:induction false} RecordsSnoc(es: seq<UndoEntry>, e: UndoEntry)
    ensures RecordsOf(es + [e]) == RecordsOf(es) + RecordOf(e)
  {
    hide RecordOf;
    if es == [] {
      assert (es + [e])[1..] == [];
      assert RecordsOf([e]) == RecordOf(e) + RecordsOf([]);
    } else {
      RecordsSnoc(es[1..], e);
      assert (es + [e])[1..] == es[1..] + [e];
      Associative(RecordOf(es[0]), RecordsOf(es[1..]), RecordOf(e));
    }
  }

  lemma {:induction false} Associative<T>(a: seq<T>, b: seq<T>, c: seq<T>)
    ensures a + b + c == a + (b + c)
  {
  }

  /** Where record `k` of a stored log starts. */
  ghost function RecordStart(es: seq<UndoEntry>, k: nat): nat
    requires k <= |es|
  {
    if k == 0 then 8 else RecordStart(es, k - 1) + 16 + |es[k - 1].data|
  }

  /** The layout of a stored log: the number of entries in 8 bytes, then for each entry its address in 8 bytes, its length in
      8 bytes and its data. */
  lemma {:induction false} FileLayout(es: seq<UndoEntry>, k: nat)
    requires k < |es|
    ensures var f, o := FileOf(es), RecordStart(es, k);
            && o + 16 + |es[k].data| <= |f| && f[..8] == LittleEndian(|es|, 8)
            && f[o..o + 8] == LittleEndian(es[k].loc, 8) && f[o + 8..o + 16] == LittleEndian(|es[k].data|, 8)
            && f[o + 16..o + 16 + |es[k].data|] == es[k].data
  {
    hide RecordsOf, RecordStart, LittleEndian;
    RecordsCut(es, k);
    RecordSize(es[k]);
    Framed(LittleEndian(|es|, 8), RecordsOf(es[..k]), RecordOf(es[k]), RecordsOf(es[k + 1..]), es[k]);
  }

  lemma {:induction false} Framed(head: seq<byte>, front: seq<byte>, rec: seq<byte>, rest: seq<byte>, e: UndoEntry)
    requires |head| == 8 && rec == RecordOf(e)
    ensures var f, o := head + (front + rec + rest), 8 + |front|;
            && o + 16 + |e.data| <= |f| && f[..8] == head
            && f[o..o + 8] == LittleEndian(e.loc, 8) && f[o + 8..o + 16] == LittleEndian(|e.data|, 8) && f[o + 16..o + 16 + |e.data|] == e.data
  {
    hide LittleEndian;
    var f, o := head + (front + rec + rest), 8 + |front|;
    assert f[o..o + |rec|] == rec;
    assert rec[..8] == LittleEndian(e.loc, 8) && rec[8..16] == LittleEndian(|e.data|, 8) && rec[16..] == e.data;
    assert f[o..o + 8] == f[o..o + |rec|][..8] && f[o + 8..o + 16] == f[o..o + |rec|][8..16];
    assert f[o + 16..o + |rec|] == f[o..o + |rec|][16..];
  }

  lemma {:induction false} RecordsCut(es: seq<UndoEntry>, k: nat)
    requires k < |es|
    ensures RecordsOf(es) == RecordsOf(es[..k]) + RecordOf(es[k]) + RecordsOf(es[k + 1..])
    ensures 8 + |RecordsOf(es[..k])| == RecordStart(es, k)
  {
    hide RecordOf;
    if k == 0 {
      assert RecordsOf(es[..0]) == [] && [] + RecordOf(es[0]) == RecordOf(es[0]);
    } else {
      RecordsCut(es, k - 1);
      assert es[..k] == es[..k - 1] + [es[k - 1]];
      RecordsSnoc(es[..k - 1], es[k - 1]);
      assert es[k..] == [es[k]] + es[k + 1..];
      assert es[k..][1..] == es[k + 1..];
      RecordSize(es[k - 1]);
      Associative(RecordsOf(es[..k]), RecordOf(es[k]), RecordsOf(es[k + 1..]));
    }
  }

  lemma {:induction false} RecordSize(e: UndoEntry)
    ensures |RecordOf(e)| == 16 + |e.data|
  {
  }

  /** The record at the front of `s`; as in C, an `fread` of 0 bytes fails. */
  function OneRecord(s: seq<byte>): (r: Option<UndoEntry>)
    ensures r.Some? ==> 16 + |r.value.data| <= |s|
  {
    if |s| < 16 then None else
    var n := FromLittleEndian(s[8..16]);
    if n == 0 || |s| < 16 + n then None else Some(UndoEntry(s[16..16 + n], FromLittleEndian(s[..8])))
  }

  ghost function RecordsIn(s: seq<byte>, n: nat): Option<seq<UndoEntry>>
    decreases n
  {
    if n == 0 then Some([]) else
    match OneRecord(s)
    case None => None
    case Some(e) => Prepend([e], RecordsIn(s[16 + |e.data|..], n - 1))
  }

  lemma {:induction false} RecordRoundTrip(e: UndoEntry, rest: seq<byte>)
    requires e.loc < U64_LIMIT && 0 < |e.data| < U64_LIMIT
    ensures OneRecord(RecordOf(e) + rest) == Some(e)
  {
    var a, b := LittleEndian(e.loc, 8), LittleEndian(|e.data|, 8);
    var s := a + b + e.data + rest;
    assert s[..8] == a && s[8..16] == b && s[16..16 + |e.data|] == e.data;
    EightBytes();
    LittleEndianRoundTrip(e.loc, 8);
    LittleEndianRoundTrip(|e.data|, 8);
  }

  lemma {:induction false} RecordLength(e: UndoEntry, rest: seq<byte>)
    ensures |RecordOf(e)| == 16 + |e.data| && (RecordOf(e) + rest)[16 + |e.data|..] == rest
  {
  }

  lemma {:induction false} EightBytes()
    ensures Pow256(8) == U64_LIMIT
  {
    assert Pow256(8) == 256 * (256 * Pow256(6));
    assert Pow256(6) == 256 * (256 * Pow256(4));
    assert Pow256(4) == 256 * (256 * Pow256(2));
    assert Pow256(2) == 65536;
  }

  lemma {:induction false} RecordsRoundTrip(es: seq<UndoEntry>)
    requires Addressable(es)
    requires forall k :: 0 <= k < |es| ==> es[k].data != []
    ensures RecordsIn(RecordsOf(es), |es|) == Some(es)
    decreases |es|
  {
    hide OneRecord, RecordOf, RecordsIn, FromLittleEndian, LittleEndian;
    if es == [] {
      NoRecords(RecordsOf(es));
    } else {
      var e, s := es[0], RecordsOf(es);
      RecordRoundTrip(e, RecordsOf(es[1..]));
      RecordLength(e, RecordsOf(es[1..]));
      NextRecord(s, e, |es|);
      RecordsRoundTrip(es[1..]);
      assert [e] + es[1..] == es;
    }
  }

  lemma {:induction false} NoRecords(s: seq<byte>)
    ensures RecordsIn(s, 0) == Some([])
  {
  }

  lemma {:induction false} NextRecord(s: seq<byte>, e: UndoEntry, n: nat)
    requires n > 0 && OneRecord(s) == Some(e)
    ensures RecordsIn(s, n) == Prepend([e], RecordsIn(s[16 + |e.data|..], n - 1))
  {
    hide OneRecord, Prepend;
  }

  /** Loading a stored log gives the log back. */
  lemma {:induction false} StoreThenLoad(es: seq<UndoEntry>)
    requires Addressable(es) && |es| <= UNINSTALL_DATA_MAX
    requires forall k :: 0 <= k < |es| ==> es[k].data != []
    ensures LogIn(FileOf(es)) == Some(es) && FromLittleEndian(FileOf(es)[..8]) == |es|
  {
    EightBytes();
    LittleEndianRoundTrip(|es|, 8);
    assert FileOf(es)[..8] == LittleEndian(|es|, 8) && FileOf(es)[8..] == RecordsOf(es);
    RecordsRoundTrip(es);
  }

  lemma {:induction false} FitsSnoc(es: seq<UndoEntry>, e: UndoEntry, size: nat)
    ensures Fits(es + [e], size) <==> Fits(es, size) && (e.data == [] || e.loc + |e.data| <= size)
  {
    if Fits(es + [e], size) {
      forall k | 0 <= k < |es| ensures (es + [e])[k] == es[k] {}
      assert (es + [e])[|es|] == e;
    }
  }

  lemma {:induction false} AddressableReversed(es: seq<UndoEntry>)
    requires Addressable(es)
    ensures Addressable(Reversed(es))
  {
  }

  lemma {:induction false} LaggingUndoable(disk: seq<byte>, disk': seq<byte>, logical: seq<byte>, log: seq<UndoEntry>, original: seq<byte>)
    requires Undoable(disk, logical, log, original) && (disk' == disk || disk' == logical)
    ensures Undoable(disk', logical, log, original)
  {
  }

  lemma {:induction false} LaggingAgain(disk'': seq<byte>, disk': seq<byte>, disk: seq<byte>, logical: seq<byte>, at: nat, n: nat)
    requires Lagging(disk'', disk', logical, at, n) && |disk| == |disk'|
    requires disk' == disk || disk' == logical
    ensures Lagging(disk'', disk, logical, at, n)
  {
  }

  lemma {:induction false} AddressableSnoc(es: seq<UndoEntry>, e: UndoEntry)
    requires Addressable(es) && e.loc + |e.data| < U64_LIMIT
    ensures Addressable(es + [e])
  {
  }

  ghost predicate Addressable(es: seq<UndoEntry>) {
    forall k :: 0 <= k < |es| ==> es[k].loc + |es[k].data| < U64_LIMIT
  }

  /** Copying into the cached block is writing to the logical contents. */
  lemma {:induction false} SpliceCache(blockSize: nat, disk: seq<byte>, cache: seq<byte>, cached: nat, at: nat, data: seq<byte>)
    requires blockSize > 0 && |cache| == blockSize && BlockFits(blockSize, disk, cached)
    requires cached == at / blockSize && at % blockSize + |data| <= blockSize
    ensures at + |data| <= |disk|
    ensures Overlay(blockSize, disk, Splice(cache, at % blockSize, data), cached)
         == Splice(Overlay(blockSize, disk, cache, cached), at, data)
  {
    BlockOf(at, blockSize);
  }

  lemma {:induction false} ExtendPut(s: seq<byte>, at: nat, data: seq<byte>, done: nat, n: nat)
    requires done + n <= |data| && 0 < n && at + done + n <= |s|
    ensures Splice(Put(s, at, data[..done]), at + done, data[done..][..n]) == Put(s, at, data[..done + n])
  {
  }

  ghost predicate Prefix(s: seq<byte>, at: nat, part: seq<byte>) {
    part == [] || (at + |part| <= |s| && part == s[at..at + |part|])
  }

  lemma {:induction false} ExtendSlice(s: seq<byte>, at: nat, part: seq<byte>, more: seq<byte>)
    requires Prefix(s, at, part) && at + |part| + |more| <= |s|
    requires more == s[at + |part|..at + |part| + |more|]
    ensures Prefix(s, at, part + more)
  {
  }

  /** On a whole number of blocks, an address inside the device lies in a block inside the device. */
  lemma {:induction false} BlockInRange(x: nat, b: nat, size: nat)
    requires b > 0 && size % b == 0
    ensures x == x / b * b + x % b && 0 <= x % b < b && x / b <= x
    ensures x < size <==> x / b * b + b <= size
  {
    BlockOf(x, b);
    BlockOf(size, b);
    QuotientAtMost(x / b, b);
    if x < size {
      if x / b >= size / b { MulMono(size / b, x / b, b); }
      NextBlock(x / b, size / b, b);
    }
  }

  lemma {:induction false} QuotientAtMost(q: nat, b: nat)
    requires b > 0
    ensures q <= q * b
  {
  }

  lemma {:induction false} NextBlock(q: nat, n: nat, b: nat)
    requires q < n
    ensures q * b + b <= n * b
  {
    MulMono(q + 1, n, b);
  }
}
