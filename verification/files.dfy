/** `fs_write`, `fs_read` and `fs_seek` of src/kernel/kern_fs.c over the block map. */
module Files {
  import opened Bytes
  import opened Options
  import opened Bitmaps
  import opened BlockTree
  import opened BlockMap
  import opened FileBytes

  const U32_LIMIT: nat := 0x1_0000_0000
  const BATCH_BLOCKS: nat := 64

  /** The inode as it is kept in the inode table. */
  datatype Record = Record(size: nat, blocks: nat, ptr: seq<nat>)

  /** The inode table, decoded. */
  class InodeTable {
    var inodes: map<nat, Record>

    constructor ()
      ensures inodes == map[]
    {
      inodes := map[];
    }

    /** `ext2_write_inode` */
    method Write(no: nat, ino: Inode)
      modifies this
      ensures inodes == old(inodes)[no := Record(ino.size, ino.blocks, ino.ptr)]
    {
      inodes := inodes[no := Record(ino.size, ino.blocks, ino.ptr)];
    }
  }

  /** A `file_handle_t`. */
  class Handle {
    const no: nat
    const inode: Inode
    var pos: nat

    constructor (no: nat, inode: Inode)
      ensures this.no == no && this.inode == inode && pos == 0
    {
      this.no, this.inode, pos := no, inode, 0;
    }
  }

  ghost function Now(vol: Volume, ino: Inode): State reads vol, ino {
    Snap(vol, ino, map[])
  }

  lemma {:induction false} NowDisk(vol: Volume, ino: Inode)
    ensures Now(vol, ino).disk == vol.disk
  {
    NoneBuffered(vol.disk);
  }

  /** A mounted volume and a dense file on it. */
  ghost predicate Ready(vol: Volume, ino: Inode) reads vol, ino {
    && Open(vol, ino, map[]) && Entries(vol.geo) > 0 && Dense(vol.geo, Now(vol, ino), ino.size)
    && ino.size <= Capacity(Entries(vol.geo)) * vol.geo.blockSize
  }

  /** A new block for a hole: allocated, then put into the map. */
  method FillHole(vol: Volume, ino: Inode, logical: nat) returns (phys: nat)
    requires Open(vol, ino, map[]) && Entries(vol.geo) > 0 && logical < Capacity(Entries(vol.geo)) && |ino.ptr| == POINTERS
    requires !IsMapped(vol.geo, Now(vol, ino), logical)
    requires Gaps(Now(vol, ino), PosOf(Entries(vol.geo), logical)) <= |FreeOfVol(vol)|
    modifies vol, ino`blocks, ino`ptr
    ensures Open(vol, ino, map[]) && NowMapped(vol.geo, old(Now(vol, ino)), Now(vol, ino), logical)
    ensures phys == Held(Now(vol, ino), PosOf(Entries(vol.geo), logical))
  {
    hide FreeBlocks, Metas, FsOk, TreeOk, Owned, PendingOk, CanPut, At, Place, Level, PosOf, Attached, NowMapped, Gaps, TableGaps, Capacity;
    ghost var geo, s0, c := vol.geo, Now(vol, ino), PosOf(Entries(vol.geo), logical);
    GapsSplit(s0, c);
    SnapOn(geo, vol.disk, vol.groups, map[]);
    phys := AllocBlock(vol);
    SnapOn(geo, vol.disk, vol.groups, map[]);
    SizeOnDisk(geo, vol.disk, vol.groups, phys);
    FreshBlock(geo, old(vol.disk), old(vol.groups), vol.disk, vol.groups, ino.ptr, map[], phys);
    PosOfPlace(Entries(geo), logical);
    ghost var s1 := Now(vol, ino);
    SameGaps2(s0, s1, Entries(geo), c);
    SetBmap(vol, ino, logical, phys);
    FreshlyMapped(geo, s0, s1, Now(vol, ino), logical, phys);
  }

  lemma {:induction false} GapsSplit(s: State, c: Pos)
    requires Held(s, c) == 0
    ensures Gaps(s, c) == TableGaps(s, c) + 1
  {
  }

  lemma {:induction false} SameGaps2(s0: State, s1: State, n: nat, c: Pos)
    requires Place(c, n) && Held(s0, c) == 0 && forall p :: Place(p, n) ==> Held(s1, p) == Held(s0, p)
    ensures TableGaps(s1, c) == TableGaps(s0, c)
  {
    SameGaps(s0, s1, n, c);
  }

  lemma {:induction false} SizeOnDisk(geo: Geometry, disk: Disk, groups: seq<Group>, b: nat)
    requires FsOk(geo, disk, groups) && b in disk
    ensures |disk[b]| == geo.blockSize
  {
  }

  /** The block to write to, mapped if it was a hole, and what the chunk is written into. */
  method BlockForWrite(vol: Volume, ino: Inode, logical: nat) returns (phys: nat, temp: Block)
    requires Open(vol, ino, map[]) && Entries(vol.geo) > 0 && logical < Capacity(Entries(vol.geo)) && |ino.ptr| == POINTERS
    requires Gaps(Now(vol, ino), PosOf(Entries(vol.geo), logical)) <= |FreeOfVol(vol)|
    modifies vol, ino`blocks, ino`ptr
    ensures Open(vol, ino, map[]) && NowMapped(vol.geo, old(Now(vol, ino)), Now(vol, ino), logical)
    ensures phys == Held(Now(vol, ino), PosOf(Entries(vol.geo), logical)) != 0
    ensures temp == Base(vol.geo, old(Now(vol, ino)), logical) && |temp| == vol.geo.blockSize
  {
    hide FreeBlocks, Metas, TreeOk, Owned, PendingOk, CanPut, At, Place, Level, PosOf, NowMapped, Gaps, Capacity, VolumeOk;
    ghost var s0 := Now(vol, ino);
    NowDisk(vol, ino);
    SnapOn(vol.geo, vol.disk, vol.groups, map[]);
    phys := GetBmap(vol, ino, logical);
    assert phys == Held(s0, PosOf(Entries(vol.geo), logical));
    if phys == 0 {
      phys := FillHole(vol, ino, logical);
      temp := BlankBlock(vol.geo.blockSize);
      MappedNow(vol.geo, s0, Now(vol, ino), logical);
    } else {
      MappedBlock(vol.geo, vol.disk, vol.groups, ino.ptr, ino.blocks, logical);
      AlreadyMapped(vol.geo, s0, logical);
      temp := vol.disk[phys];
    }
  }

  lemma {:induction false} MappedNow(geo: Geometry, s0: State, s: State, l: nat)
    requires NowMapped(geo, s0, s, l)
    ensures Held(s, PosOf(Entries(geo), l)) != 0
  {
  }

  /** A mapped block is on the disk. */
  lemma {:induction false} MappedBlock(geo: Geometry, disk: Disk, groups: seq<Group>, ptr: seq<nat>, blocks: nat, l: nat)
    requires FileOk(geo, disk, groups, ptr, map[]) && l < Capacity(Entries(geo)) && Entries(geo) > 0
    requires At(disk, ptr, PosOf(Entries(geo), l)) != 0
    ensures var b := At(disk, ptr, PosOf(Entries(geo), l)); b in disk && |disk[b]| == geo.blockSize && b in Owned(geo, disk, groups)
    ensures var n, c := Entries(geo), PosOf(Entries(geo), l); Place(c, n) && Level(c) == 0
  {
    NoneBuffered(disk);
    PosOfPlace(Entries(geo), l);
    hide FreeBlocks, Metas, At, Place, PosOf, Capacity, Level;
    OwnedOn(geo, disk, groups);
  }

  /** Writing a mapped block back. */
  method Overwrite(vol: Volume, ino: Inode, ghost logical: nat, phys: nat, data: Block)
    requires Open(vol, ino, map[]) && Entries(vol.geo) > 0 && logical < Capacity(Entries(vol.geo)) && |data| == vol.geo.blockSize
    requires phys == Held(Now(vol, ino), PosOf(Entries(vol.geo), logical)) != 0
    modifies vol`disk
    ensures Open(vol, ino, map[]) && Now(vol, ino) == Overwritten(vol.geo, old(Now(vol, ino)), logical, data)
    ensures forall p :: Place(p, Entries(vol.geo)) ==> Held(Now(vol, ino), p) == Held(old(Now(vol, ino)), p)
  {
    hide FreeBlocks, Metas, FsOk, TreeOk, Owned, PendingOk, At, Place, Level, PosOf, Capacity;
    NowDisk(vol, ino);
    MappedBlock(vol.geo, vol.disk, vol.groups, ino.ptr, ino.blocks, logical);
    DataWrite(vol.geo, vol.disk, vol.groups, ino.ptr, PosOf(Entries(vol.geo), logical), data);
    vol.disk := vol.disk[phys := data];
    NowDisk(vol, ino);
  }

  /** One block's worth of `fs_write`: `d` goes to `pos`. */
  method WriteChunk(vol: Volume, ino: Inode, pos: nat, d: seq<byte>)
    requires vol.geo.blockSize > 0 && Rem(pos, vol.geo.blockSize) + |d| <= vol.geo.blockSize && 0 < |d|
    requires Gaps(Now(vol, ino), PosOf(Entries(vol.geo), Quo(pos, vol.geo.blockSize))) <= |FreeOfVol(vol)|
    requires Ready(vol, ino) && |ino.ptr| == POINTERS
    requires pos <= ino.size && pos + |d| <= Capacity(Entries(vol.geo)) * vol.geo.blockSize
    modifies vol, ino`blocks, ino`ptr
    ensures Open(vol, ino, map[]) && |ino.ptr| == POINTERS
    ensures Dense(vol.geo, Now(vol, ino), Max(ino.size, pos + |d|))
    ensures Written(vol.geo, old(Now(vol, ino)), Now(vol, ino), ino.size, pos, d)
    ensures var c := PosOf(Entries(vol.geo), Quo(pos, vol.geo.blockSize));
            && Filled(old(Now(vol, ino)), Now(vol, ino), Entries(vol.geo), c)
            && Took(vol.geo, old(Now(vol, ino)), Now(vol, ino), Gaps(old(Now(vol, ino)), c), Gaps(old(Now(vol, ino)), c))
  {
    hide FreeBlocks, Metas, FileOk, Owned, PosOf, NowMapped, Gaps, Capacity, Dense, Written, Filled, Took, Held, Base, Overwritten, Place;
    ghost var geo, s0 := vol.geo, Now(vol, ino);
    var logical := Quo(pos, vol.geo.blockSize);
    LogicalBelow(geo.blockSize, Capacity(Entries(geo)), pos, |d|);
    var phys, temp := BlockForWrite(vol, ino, logical);
    ghost var s1 := Now(vol, ino);
    var data := Splice(temp, Rem(pos, vol.geo.blockSize), d);
    OpenTree(vol, ino);
    Overwrite(vol, ino, logical, phys, data);
    OpenTree(vol, ino);
    ChunkDone(geo, s0, s1, Now(vol, ino), ino.size, pos, logical, d, data);
  }

  lemma {:induction false} OpenTree(vol: Volume, ino: Inode)
    requires Open(vol, ino, map[])
    ensures var s := Now(vol, ino); TreeOk(s.disk, s.ptr, Entries(vol.geo), s.own) && |ino.ptr| == POINTERS
  {
    hide FreeBlocks, Metas, At, Place;
  }

  lemma {:induction false} ChunkDone(geo: Geometry, s0: State, s1: State, s2: State, size: nat, pos: nat, l: nat, d: seq<byte>, data: Block)
    requires geo.blockSize > 0 && Entries(geo) > 0 && l < Capacity(Entries(geo)) && l == Quo(pos, geo.blockSize) && 0 < |d|
    requires Rem(pos, geo.blockSize) + |d| <= geo.blockSize && |Base(geo, s0, l)| == geo.blockSize
    requires NowMapped(geo, s0, s1, l) && Dense(geo, s0, size) && pos <= size && Max(size, pos + |d|) <= Capacity(Entries(geo)) * geo.blockSize
    requires TreeOk(s1.disk, s1.ptr, Entries(geo), s1.own)
    requires data == Splice(Base(geo, s0, l), Rem(pos, geo.blockSize), d) && s2 == Overwritten(geo, s1, l, data)
    requires forall p :: Place(p, Entries(geo)) ==> Held(s2, p) == Held(s1, p)
    ensures Dense(geo, s2, Max(size, pos + |d|)) && Written(geo, s0, s2, size, pos, d)
    ensures var c := PosOf(Entries(geo), l); Filled(s0, s2, Entries(geo), c) && Took(geo, s0, s2, Gaps(s0, c), Gaps(s0, c))
  {
    var n := Entries(geo);
    hide TreeOk, Capacity, BlockAt, IsMapped, NowMapped, Dense, Splice, Base, ByteAt, OthersKept, Gaps, Took, Overwritten, Filled, Held, Place, PosOf, KeepsTight;
    OtherKept(geo, s0, s1, l, l);
    forall m: nat | m < Capacity(n)
      ensures BlockAt(geo, s2, m) == if m == l then data else BlockAt(geo, s1, m)
      ensures IsMapped(geo, s2, m) == IsMapped(geo, s1, m)
    {
      OverwrittenBlocks(geo, s1, l, data, m);
    }
    ChunkDense(geo, s0, s1, s2, size, pos, l, |d|);
    forall i: nat | i < Max(size, pos + |d|) ensures ByteAt(geo, s2, i) == if pos <= i < pos + |d| then d[i - pos] else ByteAt(geo, s0, i) {
      LogicalBelow(geo.blockSize, Capacity(n), i, 1);
      ChunkBytes(geo, s0, s1, s2, size, pos, l, d, i);
    }
    ChunkRest(geo, s0, s1, s2, l, data);
  }

  lemma {:induction false} ChunkRest(geo: Geometry, s0: State, s1: State, s2: State, l: nat, data: Block)
    requires NowMapped(geo, s0, s1, l) && s2 == Overwritten(geo, s1, l, data) && l < Capacity(Entries(geo)) && Entries(geo) > 0
    requires forall p :: Place(p, Entries(geo)) ==> Held(s2, p) == Held(s1, p)
    ensures OthersKept(s0, s2, Entries(geo))
    ensures var c := PosOf(Entries(geo), l); Filled(s0, s2, Entries(geo), c) && Took(geo, s0, s2, Gaps(s0, c), Gaps(s0, c))
  {
    var n := Entries(geo);
    PosOfPlace(n, l);
    hide Held, Place, PosOf, Gaps, Capacity;
    forall b | b in s0.own ensures b in s0.disk && b in s2.disk && (s2.disk[b] == s0.disk[b] || Reached(s2, n, b)) {
      if Reached(s1, n, b) {
        var p :| Place(p, n) && Held(s1, p) == b;
        assert Held(s2, p) == b;
      }
      assert Held(s2, PosOf(n, l)) == Held(s1, PosOf(n, l));
    }
  }

  lemma {:induction false} LogicalBelow(bs: nat, cap: nat, pos: nat, k: nat)
    requires bs > 0 && k > 0 && pos + k <= cap * bs
    ensures Quo(pos, bs) < cap
  {
    QuoRem(pos, bs);
    if Quo(pos, bs) >= cap { MulMono(cap, Quo(pos, bs), bs); }
  }

  /** From `s0` to `s`, the chunk is in the file, which is as before otherwise; other data is untouched. */
  ghost predicate Written(geo: Geometry, s0: State, s: State, size: nat, pos: nat, d: seq<byte>) {
    && (forall i: nat :: i < Max(size, pos + |d|) ==> ByteAt(geo, s, i) == if pos <= i < pos + |d| then d[i - pos] else ByteAt(geo, s0, i))
    && OthersKept(s0, s, Entries(geo)) && KeepsTight(geo, s0, s, pos + |d|)
  }

  // ------------------------------------------------------------------ fs_write

  /** The number of blocks up to the end of `[.., end)`. */
  function BlocksUpTo(bs: nat, end: nat): nat {
    if bs == 0 then 0 else Quo(end + bs - 1, bs)
  }

  /** The blocks that writing `k` bytes at `pos` attaches. */
  ghost function WriteNeed(geo: Geometry, s: State, pos: nat, k: nat): nat {
    if k == 0 || geo.blockSize == 0 then 0
    else Need(s, Entries(geo), Quo(pos, geo.blockSize), Quo(pos, geo.blockSize), BlocksUpTo(geo.blockSize, pos + k))
  }

  /** `w` bytes of `data` are written, at the cost of part of what the whole needs. */
  ghost predicate Progress(geo: Geometry, s0: State, s: State, size: nat, pos: nat, data: seq<byte>, w: nat) {
    && geo.blockSize > 0 && w <= |data| && (0 < w < |data| ==> Rem(pos + w, geo.blockSize) == 0) && Written(geo, s0, s, size, pos, data[..w])
    && WriteNeed(geo, s, pos + w, |data| - w) <= WriteNeed(geo, s0, pos, |data|)
    && var k := WriteNeed(geo, s0, pos, |data|) - WriteNeed(geo, s, pos + w, |data| - w); Took(geo, s0, s, k, k)
  }

  /** The next chunk: up to the end of the block or of the data. */
  function ChunkSize(bs: nat, pos: nat, left: nat): nat
    requires bs > 0
  {
    if bs - Rem(pos, bs) > left then left else bs - Rem(pos, bs)
  }

  /** `fs_write` with enough free blocks: the data is spliced into the file at the handle's position. */
  method FsWrite(vol: Volume, table: InodeTable, h: Handle, data: seq<byte>) returns (written: nat)
    requires vol.geo.blockSize > 0 && Ready(vol, h.inode) && |h.inode.ptr| == POINTERS && h.pos <= h.inode.size
    requires h.pos + |data| < U32_LIMIT && h.pos + |data| <= Capacity(Entries(vol.geo)) * vol.geo.blockSize
    requires WriteNeed(vol.geo, Now(vol, h.inode), h.pos, |data|) <= |FreeOfVol(vol)|
    modifies vol, table, h`pos, h.inode
    ensures Ready(vol, h.inode) && |h.inode.ptr| == POINTERS
    ensures written == |data| && h.pos == old(h.pos) + |data| && h.inode.size == Max(old(h.inode.size), h.pos)
    ensures Written(vol.geo, old(Now(vol, h.inode)), Now(vol, h.inode), old(h.inode.size), old(h.pos), data)
    ensures BytesOf(vol.geo, Now(vol, h.inode), 0, h.inode.size)
         == Spliced(BytesOf(vol.geo, old(Now(vol, h.inode)), 0, old(h.inode.size)), old(h.pos), data)
    ensures var k := WriteNeed(vol.geo, old(Now(vol, h.inode)), old(h.pos), |data|);
            Took(vol.geo, old(Now(vol, h.inode)), Now(vol, h.inode), k, k)
    ensures table.inodes == old(table.inodes)[h.no := Record(h.inode.size, h.inode.blocks, h.inode.ptr)]
    ensures data != [] && old(NewFile(vol.geo, Now(vol, h.inode), h.inode.size)) ==> Tight(vol.geo, Now(vol, h.inode), h.inode.size)
    ensures (h.pos, h.inode.size) == WriteEnd(vol.geo.blockSize, old(h.inode.size), old(h.pos), |data|)
  {
    hide FreeBlocks, Metas, FileOk, Owned, Dense, Written, Took, Progress, WriteNeed, Capacity, Tight, KeepsTight, WriteEnd;
    ghost var geo, s0, size0, pos0 := vol.geo, Now(vol, h.inode), h.inode.size, h.pos;
    written := 0;
    SnapOn(geo, vol.disk, vol.groups, map[]);
    ZeroUnowned(geo, vol.disk, vol.groups);
    NoProgress(geo, s0, size0, pos0, data);
    while written < |data|
      invariant written <= |data| && h.pos == pos0 + written && h.inode.size == Max(size0, h.pos)
      invariant Ready(vol, h.inode) && |h.inode.ptr| == POINTERS
      invariant Progress(geo, s0, Now(vol, h.inode), size0, pos0, data, written) && |FreeOfVol(vol)| >= WriteNeed(geo, Now(vol, h.inode), h.pos, |data| - written)
      invariant table.inodes == old(table.inodes)
    {
      var n := ChunkSize(vol.geo.blockSize, h.pos, |data| - written);
      WriteStep(vol, h.inode, s0, size0, pos0, data, h.pos, written, n);
      written := written + n;
      h.pos := h.pos + n;
      if h.pos > h.inode.size {
        h.inode.size := h.pos;
      }
    }
    AllProgress(geo, s0, Now(vol, h.inode), size0, pos0, data);
    WriteSplices(geo, s0, Now(vol, h.inode), size0, pos0, data);
    WrittenTight(geo, s0, Now(vol, h.inode), size0, pos0, data);
    WriteExact(geo.blockSize, size0, pos0, |data|);
    table.Write(h.no, h.inode);
  }

  /** A file as it is created: nothing in it, and at most its first block mapped. */
  ghost predicate NewFile(geo: Geometry, s: State, size: nat) {
    size == 0 && Tight(geo, s, 1)
  }

  lemma {:induction false} WrittenTight(geo: Geometry, s0: State, s: State, size: nat, pos: nat, d: seq<byte>)
    requires Written(geo, s0, s, size, pos, d)
    ensures Tight(geo, s0, size) ==> Tight(geo, s, Max(size, pos + |d|))
    ensures d != [] && NewFile(geo, s0, size) ==> Tight(geo, s, pos + |d|)
  {
    hide Tight, ByteAt, OthersKept;
    assert d != [] ==> Max(1, pos + |d|) == pos + |d|;
  }

  /** Position and size after the loop of `fs_write`, in the 32 bits of the source. */
  function WriteEnd(bs: nat, size: nat, pos: nat, left: nat): (nat, nat)
    decreases left
  {
    if left == 0 || bs == 0 then (pos, size)
    else
      var n := ChunkSize(bs, pos, left);
      var p := (pos + n) % U32_LIMIT;
      WriteEnd(bs, Max(size, p), p, left - n)
  }

  /** The write ends where a byte sequence would have it end exactly when that is below 4 GiB. */
  lemma {:induction false} WriteExact(bs: nat, size: nat, pos: nat, left: nat)
    requires bs > 0 && pos <= size && pos < U32_LIMIT
    ensures WriteEnd(bs, size, pos, left) == (pos + left, Max(size, pos + left)) <==> pos + left < U32_LIMIT
    ensures WriteEnd(bs, size, pos, left).0 < U32_LIMIT
    decreases left
  {
    hide Quo, Rem;
    if left > 0 {
      var n := ChunkSize(bs, pos, left);
      var p := (pos + n) % U32_LIMIT;
      WriteExact(bs, Max(size, p), p, left - n);
      assert pos + n < U32_LIMIT ==> p == pos + n && Max(Max(size, p), p + (left - n)) == Max(size, pos + left);
    }
  }

  /** Two bytes written at the last position below 4 GiB: the second one goes to the head of the file. */
  lemma {:induction false} WriteWraps()
    ensures WriteEnd(4096, 0xFFFF_FFFF, 0xFFFF_FFFF, 2) == WriteEnd(4096, 0xFFFF_FFFF, 0, 1) == (1, 0xFFFF_FFFF)
  {
    QuoUnique(0xFFFF_FFFF, 0xF_FFFF, 4096);
    QuoRem(0xFFFF_FFFF, 4096);
    QuoUnique(0, 0, 4096);
    QuoRem(0, 4096);
    hide Quo, Rem;
  }

  /** One round of `fs_write`. */
  method WriteStep(vol: Volume, ino: Inode, ghost s0: State, ghost size0: nat, ghost pos0: nat, data: seq<byte>, pos: nat, w: nat, n: nat)
    requires vol.geo.blockSize > 0 && w < |data| && n == ChunkSize(vol.geo.blockSize, pos, |data| - w) && pos == pos0 + w
    requires ino.size == Max(size0, pos) && Ready(vol, ino) && |ino.ptr| == POINTERS && pos0 <= size0
    requires Progress(vol.geo, s0, Now(vol, ino), size0, pos0, data, w) && 0 !in s0.own
    requires WriteNeed(vol.geo, Now(vol, ino), pos, |data| - w) <= |FreeOfVol(vol)|
    requires pos0 + |data| <= Capacity(Entries(vol.geo)) * vol.geo.blockSize
    modifies vol, ino`blocks, ino`ptr
    ensures 0 < n <= |data| - w && Open(vol, ino, map[]) && |ino.ptr| == POINTERS
    ensures Dense(vol.geo, Now(vol, ino), Max(ino.size, pos + n))
    ensures Progress(vol.geo, s0, Now(vol, ino), size0, pos0, data, w + n)
    ensures WriteNeed(vol.geo, Now(vol, ino), pos + n, |data| - w - n) <= |FreeOfVol(vol)|
  {
    hide FreeBlocks, Metas, FileOk, Owned, Dense, Written, Took, WriteNeed, Capacity, Gaps, PosOf, Filled, Progress;
    ghost var geo, s1 := vol.geo, Now(vol, ino);
    ChunkFits(geo.blockSize, pos, |data| - w);
    NeedSplit(geo, s1, pos, |data| - w);
    WriteChunk(vol, ino, pos, data[w..w + n]);
    UpToCapacity(geo.blockSize, Capacity(Entries(geo)), pos + (|data| - w));
    NeedAfter(geo, s1, Now(vol, ino), pos, |data| - w, n, Quo(pos, geo.blockSize));
    ProgressStep(geo, s0, s1, Now(vol, ino), size0, pos0, data, w, n, PosOf(Entries(geo), Quo(pos, geo.blockSize)));
    RoomStep(geo, s1, Now(vol, ino), pos, |data| - w, n, Gaps(s1, PosOf(Entries(geo), Quo(pos, geo.blockSize))));
  }

  lemma {:induction false} ChunkFits(bs: nat, pos: nat, left: nat)
    requires bs > 0 && left > 0
    ensures var n := ChunkSize(bs, pos, left);
            && 0 < n <= left && Rem(pos, bs) + n <= bs && (n < left ==> Rem(pos + n, bs) == 0 && Quo(pos + n, bs) == Quo(pos, bs) + 1)
            && Quo(pos, bs) < BlocksUpTo(bs, pos + left) && (n == left ==> BlocksUpTo(bs, pos + left) == Quo(pos, bs) + 1)
  {
    var n, l, o := ChunkSize(bs, pos, left), Quo(pos, bs), Rem(pos, bs);
    QuoRem(pos, bs);
    UpTo(bs, l, o + n);
    if n < left {
      NextBlock(bs, pos, l, o);
      UpToMore(bs, pos + n, pos + left);
    }
  }

  lemma {:induction false} UpTo(bs: nat, l: nat, e: nat)
    requires 0 < e <= bs
    ensures BlocksUpTo(bs, l * bs + e) == l + 1
  {
    assert (l + 1) * bs == l * bs + bs;
    QuoUnique(l * bs + e + bs - 1, l + 1, bs);
  }

  lemma {:induction false} UpToMore(bs: nat, a: nat, b: nat)
    requires bs > 0 && a <= b
    ensures BlocksUpTo(bs, a) <= BlocksUpTo(bs, b)
  {
    QuoRem(a + bs - 1, bs);
    QuoRem(b + bs - 1, bs);
    if BlocksUpTo(bs, a) > BlocksUpTo(bs, b) { MulMono(BlocksUpTo(bs, b) + 1, BlocksUpTo(bs, a), bs); }
  }

  lemma {:induction false} NextBlock(bs: nat, pos: nat, l: nat, o: nat)
    requires bs > 0 && pos == l * bs + o && o < bs
    ensures Quo(pos + (bs - o), bs) == l + 1 && Rem(pos + (bs - o), bs) == 0
  {
    assert (l + 1) * bs == l * bs + bs;
    QuoUnique(pos + (bs - o), l + 1, bs);
    QuoRem(pos + (bs - o), bs);
  }

  lemma {:induction false} NeedSplit(geo: Geometry, s: State, pos: nat, left: nat)
    requires geo.blockSize > 0 && left > 0
    ensures WriteNeed(geo, s, pos, left) == Gaps(s, PosOf(Entries(geo), Quo(pos, geo.blockSize)))
              + Need(s, Entries(geo), Quo(pos, geo.blockSize), Quo(pos, geo.blockSize) + 1, BlocksUpTo(geo.blockSize, pos + left))
  {
    ChunkFits(geo.blockSize, pos, left);
    NeedFirst(s, Entries(geo), Quo(pos, geo.blockSize), BlocksUpTo(geo.blockSize, pos + left));
  }

  /** A chunk takes its share of what the rest of the write needs. */
  lemma {:induction false} NeedAfter(geo: Geometry, s: State, s': State, pos: nat, left: nat, n: nat, l: nat)
    requires geo.blockSize > 0 && 0 < n <= left && n == ChunkSize(geo.blockSize, pos, left) && l == Quo(pos, geo.blockSize)
    requires BlocksUpTo(geo.blockSize, pos + left) <= Capacity(Entries(geo)) && Entries(geo) > 0
    requires Filled(s, s', Entries(geo), PosOf(Entries(geo), l))
    ensures WriteNeed(geo, s, pos, left) == Gaps(s, PosOf(Entries(geo), l)) + WriteNeed(geo, s', pos + n, left - n)
  {
    hide Filled, Gaps, PosOf, Capacity;
    var bs, e := geo.blockSize, Entries(geo);
    var hi := BlocksUpTo(bs, pos + left);
    ChunkFits(bs, pos, left);
    NeedSplit(geo, s, pos, left);
    NeedNext(s, s', e, l, l + 1, hi);
    hide BlocksUpTo, ChunkSize;
  }

  lemma {:induction false} UpToCapacity(bs: nat, cap: nat, end: nat)
    requires bs > 0 && end <= cap * bs
    ensures BlocksUpTo(bs, end) <= cap
  {
    QuoRem(end + bs - 1, bs);
    if BlocksUpTo(bs, end) > cap { MulMono(cap + 1, BlocksUpTo(bs, end), bs); }
  }

  lemma {:induction false} RoomStep(geo: Geometry, s: State, s': State, pos: nat, left: nat, n: nat, g: nat)
    requires n <= left && WriteNeed(geo, s, pos, left) <= |s.free|
    requires Took(geo, s, s', g, g) && WriteNeed(geo, s, pos, left) == g + WriteNeed(geo, s', pos + n, left - n)
    ensures WriteNeed(geo, s', pos + n, left - n) <= |s'.free|
  {
    hide WriteNeed;
  }

  lemma {:induction false} WrittenMore(geo: Geometry, s0: State, s1: State, s2: State, size0: nat, pos0: nat, data: seq<byte>, w: nat, n: nat)
    requires w + n <= |data| && pos0 <= size0 && 0 !in s0.own && s0.own <= s1.own
    requires Written(geo, s0, s1, size0, pos0, data[..w]) && Written(geo, s1, s2, Max(size0, pos0 + w), pos0 + w, data[w..w + n])
    requires exists c :: Filled(s1, s2, Entries(geo), c)
    ensures Written(geo, s0, s2, size0, pos0, data[..w + n])
  {
    hide ByteAt, Held, Place, OnWay, Tight, KeepsTight;
    TightTwice(geo, s0, s1, s2, pos0 + w, pos0 + w + n);
    var d1, d2, d := data[..w], data[w..w + n], data[..w + n];
    forall i: nat | i < Max(size0, pos0 + w + n)
      ensures ByteAt(geo, s2, i) == if pos0 <= i < pos0 + |d| then d[i - pos0] else ByteAt(geo, s0, i)
    {
      assert i < Max(Max(size0, pos0 + w), pos0 + w + |d2|);
    }
    OthersTwice(s0, s1, s2, Entries(geo));
  }

  lemma {:induction false} OthersTwice(s0: State, s1: State, s2: State, n: nat)
    requires OthersKept(s0, s1, n) && OthersKept(s1, s2, n) && s0.own <= s1.own && 0 !in s0.own && exists c :: Filled(s1, s2, n, c)
    ensures OthersKept(s0, s2, n)
  {
    hide Held, Place, OnWay;
    forall b | b in s0.own ensures b in s0.disk && b in s2.disk && (s2.disk[b] == s0.disk[b] || Reached(s2, n, b)) {
      if Reached(s1, n, b) {
        var p :| Place(p, n) && Held(s1, p) == b;
        assert Held(s2, p) == b;
      }
    }
  }

  lemma {:induction false} ProgressStep(geo: Geometry, s0: State, s1: State, s2: State, size0: nat, pos0: nat, data: seq<byte>, w: nat, n: nat, c: Pos)
    requires geo.blockSize > 0 && 0 < n <= |data| - w && (n < |data| - w ==> Rem(pos0 + w + n, geo.blockSize) == 0) && pos0 <= size0 && 0 !in s0.own
    requires Progress(geo, s0, s1, size0, pos0, data, w)
    requires Written(geo, s1, s2, Max(size0, pos0 + w), pos0 + w, data[w..w + n])
    requires Filled(s1, s2, Entries(geo), c) && Took(geo, s1, s2, Gaps(s1, c), Gaps(s1, c))
    requires WriteNeed(geo, s1, pos0 + w, |data| - w) == Gaps(s1, c) + WriteNeed(geo, s2, pos0 + w + n, |data| - w - n)
    ensures Progress(geo, s0, s2, size0, pos0, data, w + n)
  {
    hide Written, Filled, Gaps, WriteNeed, Took;
    var g := Gaps(s1, c);
    var k := WriteNeed(geo, s0, pos0, |data|) - WriteNeed(geo, s1, pos0 + w, |data| - w);
    TookOwn(geo, s0, s1, k, k);
    TookTwice(geo, s0, s1, s2, k, k, g, g);
    WrittenMore(geo, s0, s1, s2, size0, pos0, data, w, n);
  }

  lemma {:induction false} NoProgress(geo: Geometry, s: State, size: nat, pos: nat, data: seq<byte>)
    requires s.own <= s.disk.Keys && s.blocks < U32_LIMIT && pos <= size && geo.blockSize > 0
    ensures Progress(geo, s, s, size, pos, data, 0)
  {
    hide WriteNeed, Held, Place, KeepsTight, ByteAt;
    TightMore(geo, s, pos);
  }

  lemma {:induction false} AllProgress(geo: Geometry, s0: State, s: State, size: nat, pos: nat, data: seq<byte>)
    requires Progress(geo, s0, s, size, pos, data, |data|)
    ensures Written(geo, s0, s, size, pos, data)
    ensures var k := WriteNeed(geo, s0, pos, |data|); Took(geo, s0, s, k, k)
  {
    assert data[..|data|] == data;
    assert WriteNeed(geo, s, pos + |data|, 0) == 0;
    hide Written, Took;
  }

  /** Contents with `d` written at `pos`, growing if need be. */
  function Spliced(c: seq<byte>, pos: nat, d: seq<byte>): seq<byte>
    requires pos <= |c|
  {
    c[..pos] + d + (if pos + |d| < |c| then c[pos + |d|..] else [])
  }

  /** As a sequence of bytes, the file is the old one with the data spliced in. */
  lemma {:induction false} WriteSplices(geo: Geometry, s0: State, s: State, size: nat, pos: nat, d: seq<byte>)
    requires Written(geo, s0, s, size, pos, d) && pos <= size
    ensures BytesOf(geo, s, 0, Max(size, pos + |d|)) == Spliced(BytesOf(geo, s0, 0, size), pos, d)
  {
    hide ByteAt;
  }

  // ------------------------------------------------------------------- fs_read

  /** `h->pos + count > h->inode.size` in 32-bit arithmetic misses that the request reaches past the end. */
  predicate Unclipped(size: nat, pos: nat, count: nat) {
    pos + count >= U32_LIMIT && (pos + count) % U32_LIMIT <= size
  }

  /** Where `fs_read` stops. */
  function ReadEnd(bs: nat, size: nat, pos: nat, count: nat): nat {
    if pos >= size then pos
    else if Unclipped(size, pos, count) then BlocksUpTo(bs, size) * bs
    else if pos + count > size then size else pos + count
  }

  /** The read is the one a byte sequence would give, unless the sum wraps around to something inside the file and
      the file ends inside a block. */
  lemma {:induction false} ReadExact(bs: nat, size: nat, pos: nat, count: nat)
    requires bs > 0 && pos < size < U32_LIMIT && count < U32_LIMIT
    ensures var exact := if pos + count > size then size else pos + count;
            ReadEnd(bs, size, pos, count) == exact <==> (pos + count >= 0x1_0000_0000 && pos + count - 0x1_0000_0000 <= size ==> size % bs == 0)
  {
    WholeBlocks(bs, size);
    QuoIsDiv(size, bs);
    hide BlocksUpTo, Rem;
  }

  lemma {:induction false} WholeBlocks(bs: nat, size: nat)
    requires bs > 0
    ensures size <= BlocksUpTo(bs, size) * bs < size + bs && (BlocksUpTo(bs, size) * bs == size <==> Rem(size, bs) == 0)
  {
    QuoRem(size, bs);
    if Rem(size, bs) == 0 {
      QuoUnique(size + bs - 1, Quo(size, bs), bs);
    } else {
      QuoUnique(size + bs - 1, Quo(size, bs) + 1, bs);
      assert (Quo(size, bs) + 1) * bs == Quo(size, bs) * bs + bs;
    }
  }

  /** A one-byte-short file of one block, read from its second byte with the largest count: a byte too many. */
  lemma {:induction false} ReadTooMuch()
    ensures ReadEnd(4096, 4095, 1, 0xFFFF_FFFF) == 4096
  {
  }

  /** The blocks from `phys` on, one after the other: `ext2_read_blocks`. */
  function Run(disk: Disk, phys: nat, n: nat): Block {
    if n == 0 then [] else Run(disk, phys, n - 1) + (if phys + n - 1 in disk then disk[phys + n - 1] else [])
  }

  ghost predicate DataAt(geo: Geometry, s: State, l: nat, b: nat) {
    b != 0 && Held(s, PosOf(Entries(geo), l)) == b && b in s.disk && |s.disk[b]| == geo.blockSize
  }

  /** Logical blocks `l` up to `l + n` lie one after the other from `phys` on. */
  ghost predicate Contiguous(geo: Geometry, s: State, l: nat, phys: nat, n: nat) {
    n == 0 || (Contiguous(geo, s, l, phys, n - 1) && DataAt(geo, s, l + n - 1, phys + n - 1))
  }

  /** The run, which is `n` blocks long, holds the file's bytes. */
  lemma {:induction false} RunBytes(geo: Geometry, s: State, l: nat, phys: nat, n: nat, from: nat)
    requires geo.blockSize > 0 && Contiguous(geo, s, l, phys, n) && from == l * geo.blockSize
    ensures Run(s.disk, phys, n) == BytesOf(geo, s, from, from + |Run(s.disk, phys, n)|)
  {
    hide DataAt;
    if n == 0 {
      NoBytes(geo, s, from);
    } else {
      hide BytesOf;
      var before := from + |Run(s.disk, phys, n - 1)|;
      RunBytes(geo, s, l, phys, n - 1, from);
      RunLen(geo, s, l, phys, n - 1);
      RunArith(l, n - 1, geo.blockSize);
      OnDisk(geo, s, l + n - 1, phys + n - 1);
      OneBlock(geo, s, l + n - 1, phys + n - 1, before);
      BytesJoin(geo, s, from, before, before + geo.blockSize);
    }
  }

  lemma {:induction false} RunLen(geo: Geometry, s: State, l: nat, phys: nat, n: nat)
    requires geo.blockSize > 0 && Contiguous(geo, s, l, phys, n)
    ensures |Run(s.disk, phys, n)| == n * geo.blockSize
  {
    if n > 0 {
      RunLen(geo, s, l, phys, n - 1);
      OnDisk(geo, s, l + n - 1, phys + n - 1);
      RunArith(0, n - 1, geo.blockSize);
      assert n * geo.blockSize == (n - 1) * geo.blockSize + geo.blockSize;
    }
  }

  lemma {:induction false} OnDisk(geo: Geometry, s: State, l: nat, b: nat)
    requires DataAt(geo, s, l, b)
    ensures b in s.disk && |s.disk[b]| == geo.blockSize
  {
  }

  lemma {:induction false} RunArith(l: nat, n: nat, bs: nat)
    ensures (l + n) * bs == l * bs + n * bs
  {
  }

  lemma {:induction false} OneBlock(geo: Geometry, s: State, l: nat, b: nat, from: nat)
    requires geo.blockSize > 0 && DataAt(geo, s, l, b) && from == l * geo.blockSize
    ensures b in s.disk && BytesOf(geo, s, from, from + geo.blockSize) == s.disk[b]
  {
    hide PosOf, Held;
    forall j: nat | j < geo.blockSize ensures ByteAt(geo, s, from + j) == s.disk[b][j] {
      QuoUnique(from + j, l, geo.blockSize);
      QuoRem(from + j, geo.blockSize);
    }
  }

  lemma {:induction false} BytesJoin(geo: Geometry, s: State, a: nat, b: nat, c: nat)
    requires a <= b <= c
    ensures BytesOf(geo, s, a, b) + BytesOf(geo, s, b, c) == BytesOf(geo, s, a, c)
  {
    hide ByteAt;
  }

  lemma {:induction false} BytesPrefix(geo: Geometry, s: State, a: nat, b: nat, k: nat)
    requires a + k <= b
    ensures BytesOf(geo, s, a, b)[..k] == BytesOf(geo, s, a, a + k)
  {
    hide ByteAt;
  }

  /** A mapped block below the capacity is on the disk. */
  lemma {:induction false} MappedData(vol: Volume, ino: Inode, l: nat)
    requires Open(vol, ino, map[]) && Entries(vol.geo) > 0 && IsMapped(vol.geo, Now(vol, ino), l)
    ensures DataAt(vol.geo, Now(vol, ino), l, Held(Now(vol, ino), PosOf(Entries(vol.geo), l))) && l < Capacity(Entries(vol.geo))
  {
    hide FreeBlocks, Metas, At, Place, Level, PosOf, Owned, FsOk;
    NowDisk(vol, ino);
    OpenTree(vol, ino);
    if l >= Capacity(Entries(vol.geo)) { BeyondCapacity(Now(vol, ino), Entries(vol.geo), l); }
    MappedBlock(vol.geo, vol.disk, vol.groups, ino.ptr, ino.blocks, l);
  }

  lemma {:induction false} BeyondCapacity(s: State, n: nat, l: nat)
    requires l >= Capacity(n) && |s.ptr| == POINTERS
    ensures Held(s, PosOf(n, l)) == 0
  {
    hide Sq, Cube, Quo, Rem;
  }

  /** How many blocks from `l` on lie one after the other on the disk, at most `max` when `max` is positive. */
  method RunLength(vol: Volume, ino: Inode, l: nat, phys: nat, max: nat) returns (run: nat)
    requires Open(vol, ino, map[]) && Entries(vol.geo) > 0 && |ino.ptr| == POINTERS && vol.geo.blockSize <= 4096
    requires phys == Held(Now(vol, ino), PosOf(Entries(vol.geo), l)) != 0
    ensures 1 <= run && (run <= max || run == 1) && Contiguous(vol.geo, Now(vol, ino), l, phys, run)
    ensures IsMapped(vol.geo, Now(vol, ino), l + run - 1)
  {
    hide FreeBlocks, Metas, At, Place, PosOf, FileOk, Owned, DataAt, Capacity;
    ghost var s := Now(vol, ino);
    NowDisk(vol, ino);
    MappedData(vol, ino, l);
    run := 1;
    assert Contiguous(vol.geo, s, l, phys, 0);
    while run < max
      invariant 1 <= run && (run <= max || run == 1) && Contiguous(vol.geo, s, l, phys, run) && IsMapped(vol.geo, s, l + run - 1)
    {
      var next := GetBmap(vol, ino, l + run);
      if next != phys + run {
        break;
      }
      assert next == Held(s, PosOf(Entries(vol.geo), l + run));
      MappedData(vol, ino, l + run);
      run := run + 1;
    }
  }

  lemma {:induction false} MappedHeld(geo: Geometry, s: State, l: nat)
    ensures IsMapped(geo, s, l) <==> Held(s, PosOf(Entries(geo), l)) != 0
    ensures Held(s, PosOf(Entries(geo), l)) == Bmap(geo, s.disk, s.ptr, l)
  {
  }

  /** One round of the batched loop: a block or a run of blocks, cut to what is wanted; nothing for a hole. */
  method ReadMore(vol: Volume, ino: Inode, pos: nat, left: nat) returns (chunk: seq<byte>, ghost last: nat)
    requires Open(vol, ino, map[]) && Entries(vol.geo) > 0 && |ino.ptr| == POINTERS && vol.geo.blockSize <= 4096 && vol.geo.blockSize > 0
    requires Rem(pos, vol.geo.blockSize) == 0 && left > 0
    ensures chunk == [] ==> !IsMapped(vol.geo, Now(vol, ino), Quo(pos, vol.geo.blockSize))
    ensures chunk != [] ==> IsMapped(vol.geo, Now(vol, ino), last) && pos + |chunk| <= (last + 1) * vol.geo.blockSize
    ensures |chunk| <= left && chunk == BytesOf(vol.geo, Now(vol, ino), pos, pos + |chunk|)
    ensures 0 < |chunk| < left ==> Rem(pos + |chunk|, vol.geo.blockSize) == 0
  {
    hide FreeBlocks, Metas, At, Place, PosOf, FileOk, Owned, DataAt, Capacity, Contiguous, BytesOf, Run, Quo, Rem, IsMapped, Held;
    ghost var s := Now(vol, ino);
    NowDisk(vol, ino);
    var bs := vol.geo.blockSize;
    var l := Quo(pos, bs);
    QuoRem(pos, bs);
    MappedHeld(vol.geo, s, l);
    var phys := GetBmap(vol, ino, l);
    assert phys == Held(s, PosOf(Entries(vol.geo), l));
    last := l;
    if phys == 0 {
      NoBytes(vol.geo, s, pos);
      return [], l;
    }
    var max := Quo(left, bs);
    if max > BATCH_BLOCKS {
      max := BATCH_BLOCKS;
    }
    var run := RunLength(vol, ino, l, phys, max);
    var batch := Run(vol.disk, phys, run);
    var bytes := if run * bs > left then left else run * bs;
    CutBytes(vol.geo, s, l, phys, run, left, pos, bytes);
    chunk := batch[..bytes];
    last := l + run - 1;
  }

  lemma {:induction false} CutBytes(geo: Geometry, s: State, l: nat, phys: nat, run: nat, left: nat, from: nat, bytes: nat)
    requires geo.blockSize > 0 && run > 0 && left > 0 && Contiguous(geo, s, l, phys, run) && from == l * geo.blockSize
    requires bytes == if run * geo.blockSize > left then left else run * geo.blockSize
    ensures 0 < bytes <= |Run(s.disk, phys, run)| && Run(s.disk, phys, run)[..bytes] == BytesOf(geo, s, from, from + bytes)
    ensures from + bytes <= (l + run) * geo.blockSize && (bytes < left ==> Rem(from + bytes, geo.blockSize) == 0)
  {
    hide Contiguous, BytesOf, Run;
    RunBytes(geo, s, l, phys, run, from);
    RunLen(geo, s, l, phys, run);
    RunCut(geo.blockSize, l, run);
    BytesPrefix(geo, s, from, from + |Run(s.disk, phys, run)|, bytes);
  }

  lemma {:induction false} NoBytes(geo: Geometry, s: State, a: nat)
    ensures BytesOf(geo, s, a, a) == []
  {
  }

  lemma {:induction false} BytesLength(geo: Geometry, s: State, a: nat, b: nat)
    ensures |BytesOf(geo, s, a, b)| == if a <= b then b - a else 0
  {
  }

  lemma {:induction false} RunCut(bs: nat, l: nat, run: nat)
    requires bs > 0 && run > 0
    ensures (l + run) * bs == l * bs + run * bs && run * bs > 0 && Rem(l * bs + run * bs, bs) == 0
  {
    MulMono(1, run, bs);
    RunArith(l, run, bs);
    QuoUnique((l + run) * bs, l + run, bs);
    QuoRem((l + run) * bs, bs);
  }

  /** What `fs_read` has put into the buffer so far. */
  ghost predicate ReadSoFar(geo: Geometry, s: State, from: nat, pos: nat, end: nat, want: nat, out: seq<byte>) {
    && geo.blockSize > 0 && pos == from + |out| <= end && |out| <= want && out == BytesOf(geo, s, from, pos)
    && (|out| < want ==> Rem(pos, geo.blockSize) == 0)
  }

  /** Phase 1 of `fs_read`: the rest of a block that the position is inside of. */
  method ReadFirst(vol: Volume, ino: Inode, pos: nat, want: nat) returns (out: seq<byte>)
    requires Ready(vol, ino) && |ino.ptr| == POINTERS && vol.geo.blockSize <= 4096 && vol.geo.blockSize > 0 && pos < ino.size
    ensures |out| <= want && out == BytesOf(vol.geo, Now(vol, ino), pos, pos + |out|)
    ensures |out| < want ==> Rem(pos + |out|, vol.geo.blockSize) == 0
    ensures (pos + |out|) <= BlocksUpTo(vol.geo.blockSize, ino.size) * vol.geo.blockSize
  {
    hide FreeBlocks, Metas, At, Place, PosOf, FileOk, Owned, DataAt, Capacity, BytesOf, Dense;
    ghost var s := Now(vol, ino);
    var bs := vol.geo.blockSize;
    NowDisk(vol, ino);
    NoBytes(vol.geo, s, pos);
    WholeBlocks(bs, ino.size);
    var offset := Rem(pos, bs);
    if offset == 0 {
      return [];
    }
    var phys := GetBmap(vol, ino, Quo(pos, bs));
    assert phys == Held(s, PosOf(Entries(vol.geo), Quo(pos, bs)));
    DenseByte(vol.geo, s, ino.size, pos);
    MappedData(vol, ino, Quo(pos, bs));
    var k := ChunkSize(bs, pos, want);
    QuoRem(pos, bs);
    InBlock(vol.geo, s, Quo(pos, bs), offset, phys, k, BlocksUpTo(bs, ino.size));
    out := vol.disk[phys][offset..offset + k];
  }

  /** Part of one block. */
  lemma {:induction false} InBlock(geo: Geometry, s: State, l: nat, o: nat, b: nat, k: nat, m: nat)
    requires geo.blockSize > 0 && DataAt(geo, s, l, b) && o < geo.blockSize && o + k <= geo.blockSize && l * geo.blockSize + o < m * geo.blockSize
    ensures var a := l * geo.blockSize + o; b in s.disk && o + k <= |s.disk[b]| && s.disk[b][o..o + k] == BytesOf(geo, s, a, a + k)
    ensures l * geo.blockSize + o + k <= m * geo.blockSize
    ensures o + k == geo.blockSize ==> Rem(l * geo.blockSize + o + k, geo.blockSize) == 0
  {
    hide PosOf, Held, DataAt, BytesOf;
    var bs := geo.blockSize;
    BlockAfter(bs, l, o, k, m);
    OneBlock(geo, s, l, b, l * bs);
    BytesLength(geo, s, l * bs, l * bs + bs);
    BytesSlice(geo, s, l * bs, bs, o, k);
  }

  lemma {:induction false} BytesSlice(geo: Geometry, s: State, a: nat, n: nat, o: nat, k: nat)
    requires o + k <= n
    ensures BytesOf(geo, s, a, a + n)[o..o + k] == BytesOf(geo, s, a + o, a + o + k)
  {
    hide ByteAt;
  }

  lemma {:induction false} BlockAfter(bs: nat, l: nat, o: nat, k: nat, m: nat)
    requires bs > 0 && o < bs && o + k <= bs && l * bs + o < m * bs
    ensures l * bs + o + k <= m * bs && (o + k == bs ==> Rem(l * bs + o + k, bs) == 0)
  {
    if l >= m { MulMono(m, l, bs); }
    MulMono(l + 1, m, bs);
    assert (l + 1) * bs == l * bs + bs;
    if o + k == bs {
      QuoUnique((l + 1) * bs, l + 1, bs);
      QuoRem((l + 1) * bs, bs);
    }
  }

  /** `fs_read`: the bytes from the handle's position up to `ReadEnd`, which is the request clipped at the file's size
      unless the sum of position and count wraps around (`ReadExact` says when that matters). */
  method FsRead(vol: Volume, h: Handle, count: nat) returns (n: nat, buf: seq<byte>)
    requires vol.geo.blockSize <= 4096 && vol.geo.blockSize > 0 && Ready(vol, h.inode) && |h.inode.ptr| == POINTERS
    requires h.inode.size < U32_LIMIT && count < U32_LIMIT
    requires h.pos < h.inode.size && Unclipped(h.inode.size, h.pos, count) ==>
               && Tight(vol.geo, Now(vol, h.inode), h.inode.size)
               && BlocksUpTo(vol.geo.blockSize, h.inode.size) * vol.geo.blockSize < U32_LIMIT
    modifies h`pos
    ensures var end := ReadEnd(vol.geo.blockSize, h.inode.size, old(h.pos), count);
            && h.pos == end && old(h.pos) + n == end && n <= |buf| && buf[..n] == BytesOf(vol.geo, Now(vol, h.inode), old(h.pos), end)
  {
    hide FreeBlocks, Metas, FileOk, Owned, Dense, Tight, Capacity, BytesOf, ReadSoFar, BlocksUpTo, IsMapped, Goal, ReadEnd, Unclipped;
    ghost var s, from, size := Now(vol, h.inode), h.pos, h.inode.size;
    PastEnd(vol.geo.blockSize, size, from, count);
    if h.pos >= h.inode.size {
      NoBytes(vol.geo, s, h.pos);
      return 0, [];
    }
    var want := count;
    if (h.pos + count) % U32_LIMIT > h.inode.size {
      want := h.inode.size - h.pos;
    }
    ghost var end, clipped := ReadEnd(vol.geo.blockSize, size, from, count), !Unclipped(size, from, count);
    EndReached(vol.geo.blockSize, size, from, count, want);
    IsGoal(vol.geo, s, size, from, count, want, end, clipped);
    n, buf := ReadRange(vol, h, want, end, clipped);
  }

  lemma {:induction false} PastEnd(bs: nat, size: nat, pos: nat, count: nat)
    ensures pos >= size ==> ReadEnd(bs, size, pos, count) == pos
  {
  }

  /** The two phases of `fs_read`, once the count has been clipped to `want`. */
  method ReadRange(vol: Volume, h: Handle, want: nat, ghost end: nat, ghost clipped: bool) returns (n: nat, buf: seq<byte>)
    requires vol.geo.blockSize <= 4096 && vol.geo.blockSize > 0 && Ready(vol, h.inode) && |h.inode.ptr| == POINTERS
    requires Goal(vol.geo, Now(vol, h.inode), h.inode.size, h.pos, want, end, clipped)
    modifies h`pos
    ensures h.pos == end == old(h.pos) + n && n <= |buf| && buf[..n] == BytesOf(vol.geo, Now(vol, h.inode), old(h.pos), end)
  {
    hide FreeBlocks, Metas, FileOk, Owned, Dense, Tight, Capacity, BytesOf, ReadSoFar, BlocksUpTo, IsMapped, Goal, Snap;
    ghost var s, from, size := Now(vol, h.inode), h.pos, h.inode.size;
    GoalInside(vol.geo, s, size, from, want, end, clipped);
    buf := ReadFirst(vol, h.inode, h.pos, want);
    StartReading(vol.geo, s, size, from, want, end, clipped, buf);
    h.pos := h.pos + |buf|;
    n := |buf|;
    while n < want
      invariant n == |buf| && ReadSoFar(vol.geo, s, from, h.pos, end, want, buf)
      decreases want - n
    {
      SoFarAligned(vol.geo, s, from, h.pos, end, want, buf);
      var chunk, last := ReadMore(vol, h.inode, h.pos, want - n);
      if chunk == [] {
        AtHole(vol.geo, s, size, from, want, end, clipped, h.pos, buf);
        buf := buf + BlankBlock(want - n);
        return;
      }
      BelowCapacity(vol, h.inode, last);
      ReadOn(vol.geo, s, size, from, want, end, clipped, h.pos, buf, chunk, last);
      buf := buf + chunk;
      h.pos := h.pos + |chunk|;
      n := n + |chunk|;
    }
    AllRead(vol.geo, s, size, from, want, end, clipped, h.pos, buf);
  }

  lemma {:induction false} GoalInside(geo: Geometry, s: State, size: nat, from: nat, want: nat, end: nat, clipped: bool)
    requires Goal(geo, s, size, from, want, end, clipped)
    ensures from < size
  {
  }

  lemma {:induction false} SoFarAligned(geo: Geometry, s: State, from: nat, pos: nat, end: nat, want: nat, out: seq<byte>)
    requires ReadSoFar(geo, s, from, pos, end, want, out) && |out| < want
    ensures geo.blockSize > 0 && Rem(pos, geo.blockSize) == 0 && pos == from + |out|
  {
  }

  lemma {:induction false} EndReached(bs: nat, size: nat, from: nat, count: nat, want: nat)
    requires bs > 0 && from < size < U32_LIMIT && count < U32_LIMIT
    requires want == if (from + count) % U32_LIMIT > size then size - from else count
    requires Unclipped(size, from, count) ==> BlocksUpTo(bs, size) * bs < U32_LIMIT
    ensures from <= ReadEnd(bs, size, from, count) <= from + want
    ensures !Unclipped(size, from, count) ==> ReadEnd(bs, size, from, count) == from + want <= size
    ensures Unclipped(size, from, count) ==> ReadEnd(bs, size, from, count) < from + want
  {
    WholeBlocks(bs, size);
    hide BlocksUpTo;
  }

  /** A read of `want` bytes from `from` that must stop at `end`: the end of the request, or of the last block. */
  ghost predicate Goal(geo: Geometry, s: State, size: nat, from: nat, want: nat, end: nat, clipped: bool) {
    && geo.blockSize > 0 && from < size && from <= end <= from + want && Dense(geo, s, size)
    && (clipped ==> end == from + want <= size)
    && (!clipped ==> end < from + want && end == BlocksUpTo(geo.blockSize, size) * geo.blockSize && Tight(geo, s, size))
  }

  lemma {:induction false} IsGoal(geo: Geometry, s: State, size: nat, from: nat, count: nat, want: nat, end: nat, clipped: bool)
    requires geo.blockSize > 0 && from < size < U32_LIMIT && Dense(geo, s, size) && end == ReadEnd(geo.blockSize, size, from, count)
    requires clipped == !Unclipped(size, from, count) && (!clipped ==> Tight(geo, s, size))
    requires from <= end <= from + want && (clipped ==> end == from + want <= size) && (!clipped ==> end < from + want)
    ensures Goal(geo, s, size, from, want, end, clipped)
  {
    hide Dense, Tight, BlocksUpTo;
  }

  lemma {:induction false} BelowCapacity(vol: Volume, ino: Inode, l: nat)
    requires Open(vol, ino, map[]) && Entries(vol.geo) > 0 && IsMapped(vol.geo, Now(vol, ino), l)
    ensures l < Capacity(Entries(vol.geo))
  {
    MappedData(vol, ino, l);
  }

  lemma {:induction false} StartReading(geo: Geometry, s: State, size: nat, from: nat, want: nat, end: nat, clipped: bool, out: seq<byte>)
    requires Goal(geo, s, size, from, want, end, clipped) && |out| <= want && out == BytesOf(geo, s, from, from + |out|)
    requires (|out| < want ==> Rem(from + |out|, geo.blockSize) == 0) && from + |out| <= BlocksUpTo(geo.blockSize, size) * geo.blockSize
    ensures ReadSoFar(geo, s, from, from + |out|, end, want, out)
  {
    hide Dense, Tight, BytesOf, BlocksUpTo;
  }

  /** At a hole, everything up to the end of the last block has been read. */
  lemma {:induction false} AtHole(geo: Geometry, s: State, size: nat, from: nat, want: nat, end: nat, clipped: bool, pos: nat, out: seq<byte>)
    requires Goal(geo, s, size, from, want, end, clipped) && ReadSoFar(geo, s, from, pos, end, want, out) && |out| < want
    requires !IsMapped(geo, s, Quo(pos, geo.blockSize))
    ensures pos == end && pos == from + |out| && out == BytesOf(geo, s, from, end)
  {
    hide Tight, BytesOf, BlocksUpTo, IsMapped;
    QuoRem(pos, geo.blockSize);
    assert pos >= size;
    WholeBlocks(geo.blockSize, size);
    Aligned(geo.blockSize, Quo(pos, geo.blockSize), BlocksUpTo(geo.blockSize, size), size);
  }

  lemma {:induction false} Aligned(bs: nat, l: nat, m: nat, size: nat)
    requires bs > 0 && l * bs >= size && m * bs < size + bs
    ensures l * bs >= m * bs
  {
    if l < m { MulMono(l + 1, m, bs); }
    if l >= m { MulMono(m, l, bs); }
  }

  /** The next bytes are in the file, and no further than the end. */
  lemma {:induction false} ReadOn(geo: Geometry, s: State, size: nat, from: nat, want: nat, end: nat, clipped: bool, pos: nat,
                                  out: seq<byte>, chunk: seq<byte>, last: nat)
    requires Goal(geo, s, size, from, want, end, clipped) && ReadSoFar(geo, s, from, pos, end, want, out) && 0 < |chunk| <= want - |out|
    requires IsMapped(geo, s, last) && last < Capacity(Entries(geo)) && pos + |chunk| <= (last + 1) * geo.blockSize
    requires chunk == BytesOf(geo, s, pos, pos + |chunk|) && (|chunk| < want - |out| ==> Rem(pos + |chunk|, geo.blockSize) == 0)
    ensures ReadSoFar(geo, s, from, pos + |chunk|, end, want, out + chunk)
  {
    hide Dense, BytesOf, BlocksUpTo, IsMapped, Capacity, Tight;
    BytesJoin(geo, s, from, pos, pos + |chunk|);
    if !clipped { NotPast(geo, s, size, last); }
  }

  /** A mapped block ends no later than the last block of the file. */
  lemma {:induction false} NotPast(geo: Geometry, s: State, size: nat, last: nat)
    requires geo.blockSize > 0 && Tight(geo, s, size) && IsMapped(geo, s, last) && last < Capacity(Entries(geo))
    ensures (last + 1) * geo.blockSize <= BlocksUpTo(geo.blockSize, size) * geo.blockSize
  {
    hide BlocksUpTo, IsMapped, Capacity;
    WholeBlocks(geo.blockSize, size);
    BlockAfter(geo.blockSize, last, 0, geo.blockSize, BlocksUpTo(geo.blockSize, size));
    assert (last + 1) * geo.blockSize == last * geo.blockSize + geo.blockSize;
  }

  lemma {:induction false} AllRead(geo: Geometry, s: State, size: nat, from: nat, want: nat, end: nat, clipped: bool, pos: nat, out: seq<byte>)
    requires Goal(geo, s, size, from, want, end, clipped) && ReadSoFar(geo, s, from, pos, end, want, out) && |out| >= want
    ensures pos == end && pos == from + |out| && out == BytesOf(geo, s, from, end)
  {
    hide Dense, Tight, BytesOf, BlocksUpTo;
  }

  // ------------------------------------------------------------------- fs_seek

  datatype Whence = SeekSet | SeekCur | SeekEnd

  /** `fs_seek`, with a signed offset added in 32-bit arithmetic. */
  method FsSeek(h: Handle, offset: int, whence: Whence) returns (pos: nat)
    requires h.pos < U32_LIMIT && h.inode.size < U32_LIMIT && -0x8000_0000 <= offset < 0x8000_0000
    modifies h`pos
    ensures pos == h.pos
    ensures var target := offset + match whence case SeekSet => 0 case SeekCur => old(h.pos) case SeekEnd => h.inode.size;
            && h.pos == (if target % U32_LIMIT <= h.inode.size then target % U32_LIMIT else h.inode.size)
            && (h.pos == target <==> 0 <= target <= h.inode.size)
  {
    var base := match whence case SeekSet => 0 case SeekCur => h.pos case SeekEnd => h.inode.size;
    var newPos := (base + offset) % U32_LIMIT;
    if newPos > h.inode.size {
      newPos := h.inode.size;
    }
    h.pos := newPos;
    return h.pos;
  }
}
