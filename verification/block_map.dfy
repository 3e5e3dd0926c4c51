/** The block map of a file: `ext2_get_bmap` and `ext2_set_bmap` (src/kernel/kern_ext2.c), over the allocator. */
module BlockMap {
  import opened Bytes
  import opened Options
  import opened Bitmaps
  import opened BlockTree

  // ------------------------------------------------- the space the allocator hands out

  /** The blocks `ext2_alloc_block` may still hand out. */
  ghost function FreeBlocks(geo: Geometry, disk: Disk, groups: seq<Group>): set<nat> {
    set l | l in Pool(geo, disk, groups, Blocks) :: Number(geo, Blocks, l)
  }

  ghost function Metas(geo: Geometry, groups: seq<Group>): set<nat> {
    (set g | 0 <= g < |groups| && HasBitmap(geo, groups, Blocks, g) :: BitmapOf(Blocks, groups[g]))
    + (set g | 0 <= g < |groups| && HasBitmap(geo, groups, Inodes, g) :: BitmapOf(Inodes, groups[g]))
  }

  /** A formatted volume: block 0 and the bitmaps themselves are marked as in use, and what is free is on the disk. */
  ghost predicate FsOk(geo: Geometry, disk: Disk, groups: seq<Group>) {
    && VolumeOk(geo, disk, groups) && geo.blockSize % 512 == 0 && geo.blockSize <= 4096
    && FreeBlocks(geo, disk, groups) !! Metas(geo, groups) && 0 !in FreeBlocks(geo, disk, groups)
    && FreeBlocks(geo, disk, groups) <= disk.Keys
    && (forall b :: b in FreeBlocks(geo, disk, groups) ==> b < 0x1_0000_0000)
  }

  /** Only bitmaps differ. */
  ghost predicate OnlyMetas(disk: Disk, disk': Disk, metas: set<nat>) {
    disk'.Keys == disk.Keys && forall x :: x in disk && x !in metas ==> disk'[x] == disk[x]
  }

  /** Only bitmaps and the block `b` differ. */
  ghost predicate OnlyMetasAnd(disk: Disk, disk': Disk, metas: set<nat>, b: nat) {
    disk'.Keys == disk.Keys && forall x :: x in disk && x !in metas && x != b ==> disk'[x] == disk[x]
  }

  lemma {:induction false} FreeAfter(geo: Geometry, disk: Disk, groups: seq<Group>, loc: Loc)
    requires VolumeOk(geo, disk, groups) && Eligible(geo, groups, Blocks, loc) && !IsSet(geo, disk, groups, Blocks, loc)
    ensures var b := Number(geo, Blocks, loc);
            && b in FreeBlocks(geo, disk, groups)
            && FreeBlocks(geo, Marked(geo, disk, groups, Blocks, loc, true), Tallied(groups, Blocks, loc.group, -1))
                 == FreeBlocks(geo, disk, groups) - {b}
  {
    PoolShrinks(geo, disk, groups, Blocks, loc);
    var pool := Pool(geo, disk, groups, Blocks);
    var pool' := Pool(geo, Marked(geo, disk, groups, Blocks, loc, true), Tallied(groups, Blocks, loc.group, -1), Blocks);
    forall l | l in pool && l != loc ensures Number(geo, Blocks, l) != Number(geo, Blocks, loc) {
      NumberUnique(geo, Blocks, l, loc);
    }
    hide Pool, Number, Marked, Tallied, Eligible, IsSet, VolumeOk;
  }

  lemma {:induction false} SameMetas(geo: Geometry, groups: seq<Group>, k: Kind, g: nat, d: int)
    ensures Metas(geo, Tallied(groups, k, g, d)) == Metas(geo, groups)
  {
    var groups' := Tallied(groups, k, g, d);
    forall l: Kind, h: nat | h < |groups|
      ensures BitmapOf(l, groups'[h]) == BitmapOf(l, groups[h]) && HasBitmap(geo, groups', l, h) == HasBitmap(geo, groups, l, h) {
    }
    hide HasBitmap, BitmapOf, Tallied;
  }

  lemma {:induction false} SearchSucceeds(geo: Geometry, disk: Disk, groups: seq<Group>)
    requires FreeBlocks(geo, disk, groups) != {}
    ensures Search(geo, disk, groups, Blocks, 0).Some?
  {
    SearchFinds(geo, disk, groups, Blocks, 0);
    var b :| b in FreeBlocks(geo, disk, groups);
    var l :| l in Pool(geo, disk, groups, Blocks) && Number(geo, Blocks, l) == b;
  }

  lemma {:induction false} MarkedMetas(geo: Geometry, disk: Disk, groups: seq<Group>, loc: Loc)
    requires VolumeOk(geo, disk, groups) && HasBitmap(geo, groups, Blocks, loc.group) && loc.bit < MaxBits(geo, Blocks)
    ensures OnlyMetas(disk, Marked(geo, disk, groups, Blocks, loc, true), Metas(geo, groups))
  {
    assert BitmapOf(Blocks, groups[loc.group]) in Metas(geo, groups);
  }

  /** `ext2_alloc_block` while there is space: a block that was free, and only bitmaps change. */
  method AllocBlock(vol: Volume) returns (b: nat)
    requires FsOk(vol.geo, vol.disk, vol.groups) && FreeBlocks(vol.geo, vol.disk, vol.groups) != {}
    modifies vol
    ensures FsOk(vol.geo, vol.disk, vol.groups) && Metas(vol.geo, vol.groups) == Metas(vol.geo, old(vol.groups))
    ensures b in FreeBlocks(vol.geo, old(vol.disk), old(vol.groups)) && b != 0 && b in vol.disk && b < 0x1_0000_0000
    ensures FreeBlocks(vol.geo, vol.disk, vol.groups) == FreeBlocks(vol.geo, old(vol.disk), old(vol.groups)) - {b}
    ensures OnlyMetas(old(vol.disk), vol.disk, Metas(vol.geo, vol.groups))
  {
    hide Search, FreeBlocks, Metas, Pool, Marked, Tallied, Number;
    ghost var geo, disk, groups := vol.geo, vol.disk, vol.groups;
    SearchSucceeds(geo, disk, groups);
    SearchFinds(geo, disk, groups, Blocks, 0);
    ghost var loc := Search(geo, disk, groups, Blocks, 0).value;
    FreeAfter(geo, disk, groups, loc);
    SameMetas(geo, groups, Blocks, loc.group, -1);
    MarkedMetas(geo, disk, groups, loc);
    b := vol.Alloc(Blocks);
  }

  // ------------------------------------------------------------------ an open inode

  /** The fields of `ext2_inode_t` that the block map and the file operations use. */
  class Inode {
    var size: nat
    /** In units of 512 bytes, 32 bits wide. */
    var blocks: nat
    var ptr: seq<nat>

    constructor (size: nat, blocks: nat, ptr: seq<nat>)
      ensures this.size == size && this.blocks == blocks && this.ptr == ptr
    {
      this.size, this.blocks, this.ptr := size, blocks, ptr;
    }
  }

  /** The blocks of the disk that are in use, other than the bitmaps and block 0. */
  ghost function Owned(geo: Geometry, disk: Disk, groups: seq<Group>): set<nat> {
    disk.Keys - FreeBlocks(geo, disk, groups) - Metas(geo, groups) - {0}
  }

  function Entries(geo: Geometry): nat {
    geo.blockSize / 4
  }

  /** Table contents that are still in a buffer, by block. */
  type Pending = map<nat, Block>

  ghost predicate PendingOk(geo: Geometry, disk: Disk, groups: seq<Group>, pend: Pending) {
    forall b :: b in pend ==> b in Owned(geo, disk, groups) && |pend[b]| == geo.blockSize
  }

  /** The file's tree is on the disk as it will be once the buffers are written back. */
  ghost predicate FileOk(geo: Geometry, disk: Disk, groups: seq<Group>, ptr: seq<nat>, pend: Pending) {
    && FsOk(geo, disk, groups) && PendingOk(geo, disk, groups, pend)
    && TreeOk(disk + pend, ptr, Entries(geo), Owned(geo, disk, groups))
  }

  function Add32(a: nat, b: nat): nat {
    (a + b) % 0x1_0000_0000
  }

  lemma {:induction false} Add32Twice(a: nat, b: nat, c: nat)
    ensures Add32(Add32(a, b), c) == Add32(a, b + c)
  {
  }

  function BlankBlock(n: nat): (b: Block)
    ensures |b| == n && forall i :: 0 <= i < n ==> b[i] == 0
  {
    seq(n, _ => 0)
  }

  lemma {:induction false} BlankWords(disk: Disk, b: nat, n: nat)
    requires b in disk && disk[b] == BlankBlock(n)
    ensures Blank(disk, b)
  {
    forall i: nat ensures Word(disk, b, i) == 0 {
      if 4 * i + 4 <= n { ZeroWord(disk[b][4 * i..4 * i + 4]); }
    }
  }

  lemma {:induction false} ZeroWord(s: seq<byte>)
    requires forall i :: 0 <= i < |s| ==> s[i] == 0
    ensures FromLittleEndian(s) == 0
  {
    if s != [] { ZeroWord(s[1..]); }
  }

  /** Writing a block that is no bitmap leaves the allocator alone. */
  lemma {:induction false} WriteKeeps(geo: Geometry, disk: Disk, groups: seq<Group>, b: nat, data: Block)
    requires FsOk(geo, disk, groups) && b in disk && b !in Metas(geo, groups) && |data| == geo.blockSize
    ensures FsOk(geo, disk[b := data], groups)
    ensures FreeBlocks(geo, disk[b := data], groups) == FreeBlocks(geo, disk, groups)
    ensures Owned(geo, disk[b := data], groups) == Owned(geo, disk, groups)
  {
    var disk' := disk[b := data];
    forall l: Loc ensures IsSet(geo, disk', groups, Blocks, l) == IsSet(geo, disk, groups, Blocks, l) {
      if HasBitmap(geo, groups, Blocks, l.group) { assert BitmapOf(Blocks, groups[l.group]) in Metas(geo, groups); }
    }
    SamePool(geo, disk, disk', groups);
    assert VolumeOk(geo, disk', groups);
    hide FreeBlocks, Metas, VolumeOk;
  }

  lemma {:induction false} SamePool(geo: Geometry, disk: Disk, disk': Disk, groups: seq<Group>)
    requires forall l: Loc :: IsSet(geo, disk', groups, Blocks, l) == IsSet(geo, disk, groups, Blocks, l)
    ensures FreeBlocks(geo, disk', groups) == FreeBlocks(geo, disk, groups)
  {
    hide IsSet, Eligible, MaxBits, GroupCount;
    assert Pool(geo, disk', groups, Blocks) == Pool(geo, disk, groups, Blocks);
  }

  /** The macro `ALLOC_AND_CLEAR`: a zeroed block that was free, counted in the inode. */
  method AllocAndClear(vol: Volume, ino: Inode) returns (b: nat)
    requires FsOk(vol.geo, vol.disk, vol.groups) && FreeBlocks(vol.geo, vol.disk, vol.groups) != {}
    modifies vol, ino`blocks
    ensures FsOk(vol.geo, vol.disk, vol.groups) && Metas(vol.geo, vol.groups) == Metas(vol.geo, old(vol.groups))
    ensures b in FreeBlocks(vol.geo, old(vol.disk), old(vol.groups)) && b != 0 && b < 0x1_0000_0000
    ensures FreeBlocks(vol.geo, vol.disk, vol.groups) == FreeBlocks(vol.geo, old(vol.disk), old(vol.groups)) - {b}
    ensures OnlyMetasAnd(old(vol.disk), vol.disk, Metas(vol.geo, vol.groups), b)
    ensures b in vol.disk && vol.disk[b] == BlankBlock(vol.geo.blockSize)
    ensures ino.blocks == Add32(old(ino.blocks), vol.geo.blockSize / 512)
  {
    hide FreeBlocks, Metas, VolumeOk;
    b := AllocBlock(vol);
    WriteKeeps(vol.geo, vol.disk, vol.groups, b, BlankBlock(vol.geo.blockSize));
    vol.disk := vol.disk[b := BlankBlock(vol.geo.blockSize)];
    ino.blocks := Add32(ino.blocks, vol.geo.blockSize / 512);
  }

  // -------------------------------------------------------------- ext2_get_bmap

  /** The block number the map holds for a logical block: 0 for a hole. */
  ghost function Bmap(geo: Geometry, disk: Disk, ptr: seq<nat>, l: nat): nat {
    At(disk, ptr, PosOf(Entries(geo), l))
  }

  lemma {:induction false} AtDeep(disk: Disk, ptr: seq<nat>, k: nat, a: nat, b: nat, c: nat)
    requires k < |ptr|
    ensures At(disk, ptr, Root(k)) == ptr[k]
    ensures At(disk, ptr, Entry(Root(k), a)) == if ptr[k] == 0 then 0 else Word(disk, ptr[k], a)
    ensures var t := At(disk, ptr, Entry(Root(k), a));
            At(disk, ptr, Entry(Entry(Root(k), a), b)) == if t == 0 then 0 else Word(disk, t, b)
    ensures var t := At(disk, ptr, Entry(Entry(Root(k), a), b));
            At(disk, ptr, Entry(Entry(Entry(Root(k), a), b), c)) == if t == 0 then 0 else Word(disk, t, c)
  {
  }

  /** Entry `i` of the table in block `b`; 0 when there is no table. */
  function Follow(disk: Disk, b: nat, i: nat): nat {
    if b == 0 || b !in disk then 0 else U32(disk[b], 4 * i)
  }

  /** The map, number by number: 12 direct pointers, then the entries of the table that pointer 12 names. */
  lemma {:induction false} BmapNear(geo: Geometry, disk: Disk, ptr: seq<nat>, l: nat, n: nat)
    requires |ptr| == 15 && n == geo.blockSize / 4
    ensures l < 12 ==> Bmap(geo, disk, ptr, l) == ptr[l]
    ensures 12 <= l < 12 + n ==> Bmap(geo, disk, ptr, l) == Follow(disk, ptr[12], l - 12)
  {
    hide Quo, Rem, At, Word, Follow;
    if l < 12 {
      AtDeep(disk, ptr, l, 0, 0, 0);
    } else {
      AtDeep(disk, ptr, 12, l - 12, 0, 0);
      FollowIs(disk, ptr[12], l - 12);
    }
  }

  lemma {:induction false} FollowIs(disk: Disk, b: nat, i: nat)
    ensures Follow(disk, b, i) == if b == 0 then 0 else Word(disk, b, i)
  {
  }

  /** Then those of the tables that the one of pointer 13 names. */
  lemma {:induction false} BmapDouble(geo: Geometry, disk: Disk, ptr: seq<nat>, l: nat, n: nat, j: nat, i: nat)
    requires |ptr| == 15 && n == geo.blockSize / 4 && j < n && i < n && l == 12 + n + j * n + i
    ensures Bmap(geo, disk, ptr, l) == Follow(disk, Follow(disk, ptr[13], j), i)
  {
    hide At, Word, Follow, PosOf;
    PosDouble(n, l, j, i);
    AtDeep(disk, ptr, 13, j, i, 0);
    FollowIs(disk, ptr[13], j);
    FollowIs(disk, Follow(disk, ptr[13], j), i);
  }

  /** Then those of the tables that those of the one of pointer 14 name. */
  lemma {:induction false} BmapTriple(geo: Geometry, disk: Disk, ptr: seq<nat>, l: nat, n: nat, k: nat, j: nat, i: nat)
    requires |ptr| == 15 && n == geo.blockSize / 4 && k < n && j < n && i < n && l == 12 + n + n * n + (k * n + j) * n + i
    ensures Bmap(geo, disk, ptr, l) == Follow(disk, Follow(disk, Follow(disk, ptr[14], k), j), i)
  {
    hide At, Word, Follow, PosOf;
    PosTriple(n, l, k, j, i);
    AtDeep(disk, ptr, 14, k, j, i);
    FollowIs(disk, ptr[14], k);
    FollowIs(disk, Follow(disk, ptr[14], k), j);
    FollowIs(disk, Follow(disk, Follow(disk, ptr[14], k), j), i);
  }

  /** `ext2_get_bmap`, for blocks of at most 4096 bytes. */
  method GetBmap(vol: Volume, ino: Inode, logical: nat) returns (phys: nat)
    requires vol.geo.blockSize <= 4096 && |ino.ptr| == POINTERS
    ensures phys == Bmap(vol.geo, vol.disk, ino.ptr, logical)
  {
    hide At, Word, Sq, Cube, Quo, Rem;
    var n := Entries(vol.geo);
    AtDeep(vol.disk, ino.ptr, 0, 0, 0, 0);
    if logical < DIRECT {
      AtDeep(vol.disk, ino.ptr, logical, 0, 0, 0);
      return ino.ptr[logical];
    }
    var l := logical - DIRECT;
    if l < n {
      AtDeep(vol.disk, ino.ptr, 12, l, 0, 0);
      if ino.ptr[12] == 0 {
        return 0;
      }
      return Word(vol.disk, ino.ptr[12], l);
    }
    l := l - n;
    if l < Sq(n) {
      AtDeep(vol.disk, ino.ptr, 13, Quo(l, n), Rem(l, n), 0);
      if ino.ptr[13] == 0 {
        return 0;
      }
      var indirect := Word(vol.disk, ino.ptr[13], Quo(l, n));
      if indirect == 0 {
        return 0;
      }
      return Word(vol.disk, indirect, Rem(l, n));
    }
    l := l - Sq(n);
    if l < Cube(n) {
      AtDeep(vol.disk, ino.ptr, 14, Quo(l, Sq(n)), Rem(Quo(l, n), n), Rem(l, n));
      if ino.ptr[14] == 0 {
        return 0;
      }
      var double := Word(vol.disk, ino.ptr[14], Quo(l, Sq(n)));
      if double == 0 {
        return 0;
      }
      var indirect := Word(vol.disk, double, Rem(Quo(l, n), n));
      if indirect == 0 {
        return 0;
      }
      return Word(vol.disk, indirect, Rem(l, n));
    }
    NoPlace(vol.disk, ino.ptr);
    return 0;
  }

  lemma {:induction false} NoPlace(disk: Disk, ptr: seq<nat>)
    requires |ptr| == POINTERS
    ensures At(disk, ptr, Root(POINTERS)) == 0
  {
  }

  // -------------------------------------------------------------- ext2_set_bmap

  /** With `e` a freshly cleared block, the tree and the pending buffers are as they were, and `e` can go anywhere. */
  lemma {:induction false} FreshBlock(geo: Geometry, disk: Disk, groups: seq<Group>, disk': Disk, groups': seq<Group>,
                                      ptr: seq<nat>, pend: Pending, e: nat)
    requires FileOk(geo, disk, groups, ptr, pend) && FsOk(geo, disk', groups') && Metas(geo, groups') == Metas(geo, groups)
    requires e in FreeBlocks(geo, disk, groups) && FreeBlocks(geo, disk', groups') == FreeBlocks(geo, disk, groups) - {e}
    requires OnlyMetasAnd(disk, disk', Metas(geo, groups), e) && e in disk' && |disk'[e]| == geo.blockSize
    requires e != 0 && e < 0x1_0000_0000
    ensures FileOk(geo, disk', groups', ptr, pend) && e !in pend
    ensures Owned(geo, disk', groups') == Owned(geo, disk, groups) + {e} && e !in Owned(geo, disk, groups)
    ensures forall p :: Place(p, Entries(geo)) ==> At(disk' + pend, ptr, p) == At(disk + pend, ptr, p)
    ensures forall c :: At(disk + pend, ptr, c) == 0 && Place(c, Entries(geo)) && (Level(c) > 0 ==> disk'[e] == BlankBlock(geo.blockSize)) ==>
              CanPut(disk' + pend, ptr, Entries(geo), Owned(geo, disk', groups'), c, e)
    ensures forall b :: b in Owned(geo, disk, groups) ==> (disk' + pend)[b] == (disk + pend)[b]
  {
    hide FreeBlocks, Metas, Blank, At, Place, Level, FsOk, VolumeOk, Owned, TreeOk, PendingOk;
    var own, own', n := Owned(geo, disk, groups), Owned(geo, disk', groups'), Entries(geo);
    OwnedAfter(geo, disk, groups, disk', groups', e);
    BufferedSame(geo, disk, groups, disk', groups', pend, e);
    if disk'[e] == BlankBlock(geo.blockSize) { BlankWords(disk' + pend, e, geo.blockSize); }
    SameTree(disk + pend, disk' + pend, ptr, n, own, own');
    NotInTree(disk + pend, ptr, n, own, e);
  }

  lemma {:induction false} NotInTree(disk: Disk, ptr: seq<nat>, n: nat, own: set<nat>, e: nat)
    requires TreeOk(disk, ptr, n, own) && e !in own && e != 0
    ensures forall p :: Place(p, n) ==> At(disk, ptr, p) != e
  {
    hide At, Place;
  }

  lemma {:induction false} OwnedAfter(geo: Geometry, disk: Disk, groups: seq<Group>, disk': Disk, groups': seq<Group>, e: nat)
    requires FsOk(geo, disk, groups) && Metas(geo, groups') == Metas(geo, groups) && disk'.Keys == disk.Keys
    requires e in FreeBlocks(geo, disk, groups) && FreeBlocks(geo, disk', groups') == FreeBlocks(geo, disk, groups) - {e}
    ensures Owned(geo, disk', groups') == Owned(geo, disk, groups) + {e} && e !in Owned(geo, disk, groups)
  {
    hide FreeBlocks, Metas, VolumeOk;
  }

  lemma {:induction false} BufferedSame(geo: Geometry, disk: Disk, groups: seq<Group>, disk': Disk, groups': seq<Group>, pend: Pending, e: nat)
    requires PendingOk(geo, disk, groups, pend) && OnlyMetasAnd(disk, disk', Metas(geo, groups), e)
    requires Owned(geo, disk', groups') == Owned(geo, disk, groups) + {e} && e !in Owned(geo, disk, groups) && FsOk(geo, disk', groups')
    requires e in disk' && |disk'[e]| == geo.blockSize
    ensures PendingOk(geo, disk', groups', pend) && e !in pend && (disk' + pend)[e] == disk'[e]
    ensures Owned(geo, disk', groups') <= (disk' + pend).Keys
    ensures forall b :: b in Owned(geo, disk', groups') ==> |(disk' + pend)[b]| == 4 * Entries(geo)
    ensures forall b :: b in Owned(geo, disk, groups) ==> b in disk + pend && b in disk' + pend && (disk' + pend)[b] == (disk + pend)[b]
  {
    hide FreeBlocks, Metas;
    assert forall b :: b in disk' ==> |disk'[b]| == geo.blockSize;
    hide VolumeOk;
  }

  function PerBlock(geo: Geometry): nat {
    geo.blockSize / 512
  }

  /** An open file as it will be once the buffers are written back, and the space around it. */
  datatype State = State(disk: Disk, ptr: seq<nat>, free: set<nat>, own: set<nat>, blocks: nat)

  ghost function Snap(vol: Volume, ino: Inode, pend: Pending): State reads vol, ino {
    State(vol.disk + pend, ino.ptr, FreeOfVol(vol), OwnedOf(vol), ino.blocks)
  }

  ghost function Held(s: State, p: Pos): nat {
    At(s.disk, s.ptr, p)
  }

  /** How many places on the way to `p`, and at `p`, are empty. */
  ghost function Gaps(s: State, p: Pos): nat
    decreases p, 1
  {
    TableGaps(s, p) + (if Held(s, p) == 0 then 1 else 0)
  }

  ghost function TableGaps(s: State, p: Pos): nat
    decreases p, 0
  {
    match p case Root(_) => 0 case Entry(t, _) => Gaps(s, t)
  }

  predicate OnWay(q: Pos, p: Pos) {
    q == p || (p.Entry? && OnWay(q, p.table))
  }

  /** What was there is still there, and what is new is made of blocks that were not in use. */
  ghost predicate Steady(s0: State, s: State, n: nat, c: Pos) {
    && (forall p :: Place(p, n) && p != c && (Level(p) <= 0 || Held(s0, p) != 0) ==> Held(s, p) == Held(s0, p))
    && (forall p :: Place(p, n) && p != c && Held(s, p) != Held(s0, p) ==> Held(s, p) !in s0.own)
  }

  /** Space taken: `f` blocks from the free ones, and `m` blocks in the inode's count. */
  ghost predicate Took(geo: Geometry, s0: State, s: State, f: nat, m: nat) {
    && s.free <= s0.free && |s.free| + f == |s0.free| && s0.own <= s.own && s.blocks == Add32(s0.blocks, m * PerBlock(geo))
  }

  /** What was taken is counted in units of 512 bytes, in 32 bits. */
  lemma {:induction false} TookCounted(geo: Geometry, s0: State, s: State, f: nat, m: nat)
    requires Took(geo, s0, s, f, m)
    ensures s.blocks == (s0.blocks + m * (geo.blockSize / 512)) % 0x1_0000_0000 && |s.free| == |s0.free| - f
  {
  }

  /** A block in use keeps its contents unless it is one of the file's tables. */
  ghost predicate DataKept(s0: State, s: State, n: nat) {
    forall b :: b in s0.own ==> b in s0.disk && b in s.disk && (s.disk[b] == s0.disk[b] || IsTable(s, n, b))
  }

  ghost predicate IsTable(s: State, n: nat, b: nat) {
    exists p :: Place(p, n) && Level(p) > 0 && Held(s, p) == b
  }

  /** The tables on the way to `t`, and at `t`, are there; each one that was missing took a block. */
  ghost predicate Paved(geo: Geometry, s0: State, s: State, t: Pos) {
    var n := Entries(geo);
    && Held(s, t) != 0 && Steady(s0, s, n, t) && (Held(s0, t) != 0 ==> Held(s, t) == Held(s0, t))
    && (Held(s, t) != Held(s0, t) ==> Held(s, t) !in s0.own)
    && (forall p :: Place(p, n) && !OnWay(p, t) ==> Held(s, p) == Held(s0, p))
    && Took(geo, s0, s, Gaps(s0, t), Gaps(s0, t)) && DataKept(s0, s, n)
  }

  /** What attaching block `v` at the data place `c` does: that place holds `v`, every other data place and every table
      that was there is as before, and exactly the blocks that were missing on the way are taken and counted. */
  ghost predicate Attached(geo: Geometry, s0: State, s: State, c: Pos, v: nat) {
    && Held(s, c) == v && Steady(s0, s, Entries(geo), c) && Took(geo, s0, s, TableGaps(s0, c), Gaps(s0, c)) && DataKept(s0, s, Entries(geo))
    && (forall p :: Place(p, Entries(geo)) && !OnWay(p, c) ==> Held(s, p) == Held(s0, p))
  }

  /** One more step, to a place `c`. */
  ghost predicate Stepped(geo: Geometry, s: State, s': State, c: Pos, f: nat, m: nat, changed: set<nat>) {
    && Took(geo, s, s', f, m) && (forall p :: Place(p, Entries(geo)) && p != c ==> Held(s', p) == Held(s, p))
    && s.disk.Keys <= s'.disk.Keys && s.own <= s.disk.Keys
    && forall b :: b in s.own && b !in changed ==> b in s.disk && b in s'.disk && s'.disk[b] == s.disk[b]
  }

  lemma {:induction false} PavedRoot(geo: Geometry, s0: State, s: State, k: nat)
    requires DIRECT <= k < POINTERS && Held(s, Root(k)) != 0 && (Held(s0, Root(k)) != 0 ==> Held(s, Root(k)) == Held(s0, Root(k)))
    requires Held(s0, Root(k)) == 0 ==> Held(s, Root(k)) !in s0.own
    requires Stepped(geo, s0, s, Root(k), Gaps(s0, Root(k)), Gaps(s0, Root(k)), {})
    ensures Paved(geo, s0, s, Root(k))
  {
    hide At, Place, Took, Held, Entries;
  }

  lemma {:induction false} OffWay(t: Pos, i: nat, p: Pos)
    ensures OnWay(t, Entry(t, i)) && (OnWay(p, t) ==> OnWay(p, Entry(t, i)) && p != Entry(t, i))
  {
    if OnWay(p, t) { Shorter(p, t); }
  }

  function Depth(p: Pos): nat {
    match p case Root(_) => 0 case Entry(t, _) => 1 + Depth(t)
  }

  lemma {:induction false} Shorter(p: Pos, t: Pos)
    requires OnWay(p, t)
    ensures Depth(p) <= Depth(t)
  {
    if p != t { Shorter(p, t.table); }
  }

  lemma {:induction false} StillTables(s: State, s': State, n: nat, b: nat)
    requires IsTable(s, n, b) && b != 0 && forall p :: Place(p, n) && Level(p) > 0 && Held(s, p) != 0 ==> Held(s', p) == Held(s, p)
    ensures IsTable(s', n, b)
  {
    hide At, Place, Held, Level;
    var p :| Place(p, n) && Level(p) > 0 && Held(s, p) == b;
    assert Held(s', p) == b;
  }

  /** Blocks in use stay data or tables over one more step. */
  lemma {:induction false} KeptStep(geo: Geometry, s0: State, s: State, s': State, c: Pos, f: nat, m: nat, t: Pos)
    requires DataKept(s0, s, Entries(geo)) && s0.own <= s.own && 0 !in s0.own && Stepped(geo, s, s', c, f, m, {Held(s, t)})
    requires Place(t, Entries(geo)) && Level(t) > 0 && t != c && (Level(c) > 0 && Held(s, c) != 0 ==> Held(s', c) == Held(s, c))
    ensures DataKept(s0, s', Entries(geo))
  {
    hide At, Place, Held, Level, Took, Entries, IsTable;
    var n := Entries(geo);
    forall b | b in s0.own ensures b in s0.disk && b in s'.disk && (s'.disk[b] == s0.disk[b] || IsTable(s', n, b)) {
      if IsTable(s, n, b) { StillTables(s, s', n, b); }
      if b == Held(s, t) { TableAt(s', n, t); }
    }
  }

  lemma {:induction false} TableAt(s: State, n: nat, t: Pos)
    requires Place(t, n) && Level(t) > 0
    ensures IsTable(s, n, Held(s, t))
  {
  }

  lemma {:induction false} TookTwice(geo: Geometry, s0: State, s: State, s': State, f: nat, m: nat, g: nat, n: nat)
    requires Took(geo, s0, s, f, m) && Took(geo, s, s', g, n)
    ensures Took(geo, s0, s', f + g, m + n)
  {
    Add32Twice(s0.blocks, m * PerBlock(geo), n * PerBlock(geo));
    assert (m + n) * PerBlock(geo) == m * PerBlock(geo) + n * PerBlock(geo);
  }

  lemma {:induction false} PavedEntry(geo: Geometry, s0: State, s: State, s': State, t: Pos, i: nat)
    requires var c := Entry(t, i); Paved(geo, s0, s, t) && Place(c, Entries(geo)) && Level(c) > 0 && 0 !in s0.own
    requires var c, m := Entry(t, i), if Held(s, Entry(t, i)) == 0 then 1 else 0;
             && Stepped(geo, s, s', c, m, m, {Held(s, t)}) && Held(s', c) != 0 && (Held(s, c) != 0 ==> Held(s', c) == Held(s, c))
             && (Held(s, c) == 0 ==> Held(s', c) !in s.own)
    ensures Paved(geo, s0, s', Entry(t, i))
  {
    var c, n := Entry(t, i), Entries(geo);
    var m := if Held(s, c) == 0 then 1 else 0;
    assert Place(t, n) && Level(t) > 0;
    NotItself(t, i);
    assert Held(s, c) == Held(s0, c);
    hide At, Place, Held, Entries, Level, Took, Gaps;
    KeptStep(geo, s0, s, s', c, m, m, t);
    TookTwice(geo, s0, s, s', Gaps(s0, t), Gaps(s0, t), m, m);
    GapsOne(s0, t, i);
    forall p ensures OnWay(p, t) ==> OnWay(p, c) && p != c { OffWay(t, i, p); }
    hide OnWay, DataKept;
    TookOwn(geo, s0, s, Gaps(s0, t), Gaps(s0, t));
  }

  lemma {:induction false} TookOwn(geo: Geometry, s0: State, s: State, f: nat, m: nat)
    requires Took(geo, s0, s, f, m)
    ensures s0.own <= s.own
  {
  }

  lemma {:induction false} GapsOne(s: State, t: Pos, i: nat)
    ensures Gaps(s, Entry(t, i)) == Gaps(s, t) + (if Held(s, Entry(t, i)) == 0 then 1 else 0)
    ensures TableGaps(s, Entry(t, i)) == Gaps(s, t)
  {
  }

  lemma {:induction false} NotItself(t: Pos, i: nat)
    ensures t != Entry(t, i) && !OnWay(Entry(t, i), t)
  {
    if OnWay(Entry(t, i), t) { Shorter(Entry(t, i), t); }
  }

  /** The data entry is put into the last table. */
  lemma {:induction false} AttachedEntry(geo: Geometry, s0: State, s: State, s': State, t: Pos, i: nat, v: nat)
    requires var c := Entry(t, i); Paved(geo, s0, s, t) && Place(c, Entries(geo)) && Level(c) == 0 && 0 !in s0.own
    requires var c := Entry(t, i);
             Stepped(geo, s, s', c, 0, if Held(s, c) == 0 then 1 else 0, {Held(s, t)}) && Held(s', c) == v
    ensures Attached(geo, s0, s', Entry(t, i), v)
  {
    var c, n := Entry(t, i), Entries(geo);
    var m := if Held(s, c) == 0 then 1 else 0;
    assert Place(t, n) && Level(t) > 0;
    NotItself(t, i);
    assert Held(s, c) == Held(s0, c);
    hide At, Place, Held, Entries, Level, Took, Gaps, OnWay;
    TookOwn(geo, s0, s, Gaps(s0, t), Gaps(s0, t));
    KeptStep(geo, s0, s, s', c, 0, m, t);
    TookTwice(geo, s0, s, s', Gaps(s0, t), Gaps(s0, t), 0, m);
    GapsOne(s0, t, i);
    hide DataKept;
  }

  /** What could be put before the tables were there can be put now. */
  lemma {:induction false} CanPutStill(geo: Geometry, s0: State, s: State, t: Pos, c: Pos, v: nat)
    requires Paved(geo, s0, s, t) && CanPut(s0.disk, s0.ptr, Entries(geo), s0.own, c, v) && Level(c) <= 0
    ensures CanPut(s.disk, s.ptr, Entries(geo), s.own, c, v)
  {
    TookOwn(geo, s0, s, Gaps(s0, t), Gaps(s0, t));
    hide At, Place, Level, Gaps, Took, DataKept, OnWay;
    forall p | Place(p, Entries(geo)) ensures Held(s, p) != v {
      assert Held(s0, p) == At(s0.disk, s0.ptr, p);
    }
  }

  // ---- the steps as methods

  ghost function FreeOfVol(vol: Volume): set<nat> reads vol {
    FreeBlocks(vol.geo, vol.disk, vol.groups)
  }

  ghost function OwnedOf(vol: Volume): set<nat> reads vol {
    Owned(vol.geo, vol.disk, vol.groups)
  }

  /** The file behind the open inode, with some of its tables still in buffers. */
  ghost predicate Open(vol: Volume, ino: Inode, pend: Pending) reads vol, ino {
    FileOk(vol.geo, vol.disk, vol.groups, ino.ptr, pend) && ino.blocks < 0x1_0000_0000
  }

  /** The place `c` holds a table: the one it held, or a new one that took a block. */
  ghost predicate Ensured(geo: Geometry, s: State, s': State, c: Pos, changed: set<nat>) {
    var m := if Held(s, c) == 0 then 1 else 0;
    && Stepped(geo, s, s', c, m, m, changed) && Held(s', c) != 0
    && (Held(s, c) != 0 ==> Held(s', c) == Held(s, c)) && (Held(s, c) == 0 ==> Held(s', c) !in s.own)
  }

  lemma {:induction false} NoneBuffered(disk: Disk)
    ensures disk + map[] == disk
  {
  }

  lemma {:induction false} OwnedOn(geo: Geometry, disk: Disk, groups: seq<Group>)
    ensures Owned(geo, disk, groups) <= disk.Keys
  {
  }

  lemma {:induction false} SteppedSame(geo: Geometry, s: State, c: Pos, changed: set<nat>)
    requires s.own <= s.disk.Keys && s.blocks < 0x1_0000_0000
    ensures Stepped(geo, s, s, c, 0, 0, changed)
  {
    hide Held;
  }

  /** A fresh block was put at `c` by changing the contents of `changed` alone. */
  lemma {:induction false} SteppedNew(geo: Geometry, s: State, s': State, c: Pos, e: nat, changed: set<nat>)
    requires e in s.free && s'.free == s.free - {e} && s'.own == s.own + {e} && s'.blocks == Add32(s.blocks, PerBlock(geo))
    requires s.disk.Keys <= s'.disk.Keys && s.own <= s.disk.Keys && forall b :: b in s.own && b !in changed ==> s'.disk[b] == s.disk[b]
    requires forall p :: Place(p, Entries(geo)) && p != c ==> Held(s', p) == Held(s, p)
    ensures Stepped(geo, s, s', c, 1, 1, changed)
  {
    hide Held, Place;
  }

  lemma {:induction false} SteppedLeaf(geo: Geometry, s: State, s': State, c: Pos, m: nat, changed: set<nat>)
    requires s'.free == s.free && s'.own == s.own && s.blocks < 0x1_0000_0000 && m <= 1
    requires s'.blocks == if m == 1 then Add32(s.blocks, PerBlock(geo)) else s.blocks
    requires s.disk.Keys <= s'.disk.Keys && s.own <= s.disk.Keys && forall b :: b in s.own && b !in changed ==> s'.disk[b] == s.disk[b]
    requires forall p :: Place(p, Entries(geo)) && p != c ==> Held(s', p) == Held(s, p)
    ensures Stepped(geo, s, s', c, 0, m, changed)
  {
    hide Held, Place;
  }

  lemma {:induction false} SnapOn(geo: Geometry, disk: Disk, groups: seq<Group>, pend: Pending)
    ensures Owned(geo, disk, groups) <= (disk + pend).Keys
  {
    hide FreeBlocks, Metas;
  }

  /** `if (inode->block[k] == 0) ALLOC_AND_CLEAR(inode->block[k])` */
  method EnsureRoot(vol: Volume, ino: Inode, k: nat)
    requires Open(vol, ino, map[]) && DIRECT <= k < POINTERS && |ino.ptr| == POINTERS
    requires ino.ptr[k] == 0 ==> FreeOfVol(vol) != {}
    modifies vol, ino`blocks, ino`ptr
    ensures Open(vol, ino, map[]) && |ino.ptr| == POINTERS && ino.ptr[k] == Held(Snap(vol, ino, map[]), Root(k))
    ensures Ensured(vol.geo, old(Snap(vol, ino, map[])), Snap(vol, ino, map[]), Root(k), {})
  {
    hide FreeBlocks, Metas, FsOk, TreeOk, Owned, PendingOk, CanPut, Stepped, Place;
    ghost var geo, s := vol.geo, Snap(vol, ino, map[]);
    SnapOn(geo, vol.disk, vol.groups, map[]);
    if ino.ptr[k] == 0 {
      Deep(k, 0, 0, 0, Entries(geo));
      var b := AllocAndClear(vol, ino);
      FreshBlock(geo, old(vol.disk), old(vol.groups), vol.disk, vol.groups, ino.ptr, map[], b);
      SnapOn(geo, vol.disk, vol.groups, map[]);
      PutRoot(vol.disk + map[], ino.ptr, Entries(geo), OwnedOf(vol), k, b);
      ino.ptr := ino.ptr[k := b];
      SteppedNew(geo, s, Snap(vol, ino, map[]), Root(k), b, {});
    } else {
      SteppedSame(geo, s, Root(k), {});
    }
  }

  /** `if (table[i] == 0) ALLOC_AND_CLEAR(table[i])`, for a table in a buffer. */
  method EnsureEntry(vol: Volume, ino: Inode, ghost t: Pos, ghost table: nat, buf: Block, i: nat, ghost pend: Pending)
    returns (buf': Block, e: nat, ghost pend': Pending)
    requires Open(vol, ino, pend) && table in pend && pend[table] == buf && table != 0
    requires Place(Entry(t, i), Entries(vol.geo)) && Level(Entry(t, i)) > 0 && Held(Snap(vol, ino, pend), t) == table
    requires Held(Snap(vol, ino, pend), Entry(t, i)) == 0 ==> FreeOfVol(vol) != {}
    modifies vol, ino`blocks
    ensures Open(vol, ino, pend') && pend' == pend[table := buf'] && e == Held(Snap(vol, ino, pend'), Entry(t, i))
    ensures Ensured(vol.geo, old(Snap(vol, ino, pend)), Snap(vol, ino, pend'), Entry(t, i), {table})
  {
    hide FreeBlocks, Metas, FsOk, TreeOk, Owned, PendingOk, CanPut, Place, Word, At, Level, Stepped;
    ghost var geo, s := vol.geo, Snap(vol, ino, pend);
    SnapOn(geo, vol.disk, vol.groups, pend);
    BufferedEntry(geo, vol.disk, vol.groups, ino.ptr, pend, t, i);
    e := U32(buf, 4 * i);
    if e == 0 {
      buf', e, pend' := NewEntry(vol, ino, t, table, buf, i, pend);
    } else {
      buf', pend' := buf, pend;
      assert pend' == pend[table := buf'];
      SteppedSame(geo, s, Entry(t, i), {table});
    }
  }

  method NewEntry(vol: Volume, ino: Inode, ghost t: Pos, ghost table: nat, buf: Block, i: nat, ghost pend: Pending)
    returns (buf': Block, e: nat, ghost pend': Pending)
    requires Open(vol, ino, pend) && table in pend && pend[table] == buf && table != 0
    requires Place(Entry(t, i), Entries(vol.geo)) && Level(Entry(t, i)) > 0 && Held(Snap(vol, ino, pend), t) == table
    requires Held(Snap(vol, ino, pend), Entry(t, i)) == 0 && FreeOfVol(vol) != {}
    modifies vol, ino`blocks
    ensures Open(vol, ino, pend') && pend' == pend[table := buf'] && e == Held(Snap(vol, ino, pend'), Entry(t, i))
    ensures Ensured(vol.geo, old(Snap(vol, ino, pend)), Snap(vol, ino, pend'), Entry(t, i), {table})
  {
    hide FreeBlocks, Metas, FsOk, TreeOk, Owned, PendingOk, CanPut, Place, Word, At, Level, Stepped;
    ghost var geo, s, ptr := vol.geo, Snap(vol, ino, pend), ino.ptr;
    SnapOn(geo, vol.disk, vol.groups, pend);
    BufferedEntry(geo, vol.disk, vol.groups, ptr, pend, t, i);
    e := AllocAndClear(vol, ino);
    FreshBlock(geo, old(vol.disk), old(vol.groups), vol.disk, vol.groups, ptr, pend, e);
    SnapOn(geo, vol.disk, vol.groups, pend);
    PutEntry(vol.disk + pend, ptr, Entries(geo), OwnedOf(vol), t, i, e);
    buf' := PutU32(buf, 4 * i, e);
    pend' := pend[table := buf'];
    BufferPut(geo, vol.disk, vol.groups, pend, table, i, e);
    SteppedNew(geo, s, Snap(vol, ino, pend'), Entry(t, i), e, {table});
  }

  /** The table of a place is a block in use, and its buffered words are the entries. */
  lemma {:induction false} BufferedEntry(geo: Geometry, disk: Disk, groups: seq<Group>, ptr: seq<nat>, pend: Pending, t: Pos, i: nat)
    requires FileOk(geo, disk, groups, ptr, pend) && Place(Entry(t, i), Entries(geo)) && At(disk + pend, ptr, t) != 0
    ensures var b := At(disk + pend, ptr, t);
            && Place(t, Entries(geo)) && b in Owned(geo, disk, groups) && b in disk + pend && |(disk + pend)[b]| == geo.blockSize
            && 4 * i + 4 <= geo.blockSize && At(disk + pend, ptr, Entry(t, i)) == U32((disk + pend)[b], 4 * i)
  {
    hide FreeBlocks, Metas;
    assert Place(t, Entries(geo));
  }

  lemma {:induction false} BufferPut(geo: Geometry, disk: Disk, groups: seq<Group>, pend: Pending, table: nat, i: nat, e: nat)
    requires PendingOk(geo, disk, groups, pend) && table in pend && 4 * i + 4 <= |pend[table]|
    ensures disk + pend[table := PutU32(pend[table], 4 * i, e)] == WithEntry(disk + pend, table, i, e)
    ensures PendingOk(geo, disk, groups, pend[table := PutU32(pend[table], 4 * i, e)])
  {
    hide FreeBlocks, Metas;
  }

  /** The last step of `ext2_set_bmap`: the data entry of a table on the disk, counted when it was empty. */
  method PutLeaf(vol: Volume, ino: Inode, ghost t: Pos, table: nat, i: nat, phys: nat, ghost pend: Pending)
    requires Open(vol, ino, pend) && table !in pend && table != 0 && Held(Snap(vol, ino, pend), t) == table
    requires Place(Entry(t, i), Entries(vol.geo)) && Level(Entry(t, i)) == 0
    requires CanPut(vol.disk + pend, ino.ptr, Entries(vol.geo), OwnedOf(vol), Entry(t, i), phys)
    modifies vol`disk, ino`blocks
    ensures Open(vol, ino, pend) && Held(Snap(vol, ino, pend), Entry(t, i)) == phys
    ensures var m := if Held(old(Snap(vol, ino, pend)), Entry(t, i)) == 0 then 1 else 0;
            Stepped(vol.geo, old(Snap(vol, ino, pend)), Snap(vol, ino, pend), Entry(t, i), 0, m, {table})
  {
    hide FreeBlocks, Metas, FsOk, TreeOk, Owned, CanPut, Place, Word, At, Level, Stepped, PendingOk;
    ghost var geo, s, ptr := vol.geo, Snap(vol, ino, pend), ino.ptr;
    SnapOn(geo, vol.disk, vol.groups, pend);
    BufferedEntry(geo, vol.disk, vol.groups, ptr, pend, t, i);
    OwnedOn(geo, vol.disk, vol.groups);
    var buf := vol.disk[table];
    OwnedWrite(geo, vol.disk, vol.groups, table, PutU32(buf, 4 * i, phys), pend);
    PutEntry(vol.disk + pend, ptr, Entries(geo), OwnedOf(vol), t, i, phys);
    LeafPut(vol.disk, pend, table, i, phys);
    if U32(buf, 4 * i) == 0 {
      ino.blocks := Add32(ino.blocks, PerBlock(vol.geo));
    }
    vol.disk := vol.disk[table := PutU32(buf, 4 * i, phys)];
    SteppedLeaf(geo, s, Snap(vol, ino, pend), Entry(t, i), if U32(buf, 4 * i) == 0 then 1 else 0, {table});
  }

  lemma {:induction false} LeafPut(disk: Disk, pend: Pending, table: nat, i: nat, v: nat)
    requires table in disk && table !in pend && 4 * i + 4 <= |disk[table]|
    ensures disk[table := PutU32(disk[table], 4 * i, v)] + pend == WithEntry(disk + pend, table, i, v)
  {
  }

  lemma {:induction false} OwnedWrite(geo: Geometry, disk: Disk, groups: seq<Group>, b: nat, data: Block, pend: Pending)
    requires FsOk(geo, disk, groups) && PendingOk(geo, disk, groups, pend) && b in Owned(geo, disk, groups) && |data| == geo.blockSize
    ensures FsOk(geo, disk[b := data], groups) && PendingOk(geo, disk[b := data], groups, pend)
    ensures FreeBlocks(geo, disk[b := data], groups) == FreeBlocks(geo, disk, groups)
    ensures Owned(geo, disk[b := data], groups) == Owned(geo, disk, groups)
  {
    hide FreeBlocks, Metas, FsOk;
    WriteKeeps(geo, disk, groups, b, data);
  }

  /** A buffer is written back. */
  method WriteBack(vol: Volume, ino: Inode, table: nat, buf: Block, ghost pend: Pending)
    requires Open(vol, ino, pend) && table in pend && pend[table] == buf
    modifies vol`disk
    ensures Open(vol, ino, pend - {table}) && Snap(vol, ino, pend - {table}) == old(Snap(vol, ino, pend))
  {
    hide FreeBlocks, Metas, FsOk, TreeOk, Owned;
    OwnedWrite(vol.geo, vol.disk, vol.groups, table, buf, pend);
    assert vol.disk[table := buf] + (pend - {table}) == vol.disk + pend;
    vol.disk := vol.disk[table := buf];
  }

  /** While the tables on the way are made, there is room for the ones still missing. */
  lemma {:induction false} RoomLeft(geo: Geometry, s0: State, s: State, t: Pos, i: nat)
    requires Paved(geo, s0, s, t) && Place(Entry(t, i), Entries(geo)) && Gaps(s0, Entry(t, i)) <= |s0.free|
    ensures Held(s, Entry(t, i)) == 0 ==> s.free != {}
  {
    NotItself(t, i);
    GapsOne(s0, t, i);
    hide Held, Place, Gaps, Steady, DataKept, OnWay;
  }

  lemma {:induction false} ZeroUnowned(geo: Geometry, disk: Disk, groups: seq<Group>)
    ensures 0 !in Owned(geo, disk, groups)
  {
  }

  lemma {:induction false} RoomForRoot(s: State, k: nat, free: set<nat>)
    requires Gaps(s, Root(k)) <= |free| && Held(s, Root(k)) == 0
    ensures free != {}
  {
  }

  /** The direct pointers. */
  method SetDirect(vol: Volume, ino: Inode, logical: nat, phys: nat)
    requires Open(vol, ino, map[]) && logical < DIRECT && |ino.ptr| == POINTERS
    requires CanPut(vol.disk + map[], ino.ptr, Entries(vol.geo), OwnedOf(vol), Root(logical), phys)
    modifies ino`blocks, ino`ptr
    ensures Open(vol, ino, map[]) && Attached(vol.geo, old(Snap(vol, ino, map[])), Snap(vol, ino, map[]), Root(logical), phys)
  {
    hide FreeBlocks, Metas, FsOk, TreeOk, Owned, CanPut, PendingOk, Stepped;
    ghost var geo, s := vol.geo, Snap(vol, ino, map[]);
    SnapOn(geo, vol.disk, vol.groups, map[]);
    PutRoot(vol.disk + map[], ino.ptr, Entries(geo), OwnedOf(vol), logical, phys);
    if ino.ptr[logical] == 0 {
      ino.blocks := Add32(ino.blocks, PerBlock(vol.geo));
    }
    ghost var m := if ino.ptr[logical] == 0 then 1 else 0;
    ino.ptr := ino.ptr[logical := phys];
    SteppedLeaf(geo, s, Snap(vol, ino, map[]), Root(logical), m, {});
    AttachedRoot(geo, s, Snap(vol, ino, map[]), logical, phys);
  }

  lemma {:induction false} AttachedRoot(geo: Geometry, s: State, s': State, k: nat, v: nat)
    requires Stepped(geo, s, s', Root(k), 0, if Held(s, Root(k)) == 0 then 1 else 0, {}) && Held(s', Root(k)) == v
    ensures Attached(geo, s, s', Root(k), v)
  {
    hide Held, Place, Took;
  }

  /** Through the single indirect table. */
  method SetSingle(vol: Volume, ino: Inode, i: nat, phys: nat)
    requires Open(vol, ino, map[]) && i < Entries(vol.geo) && |ino.ptr| == POINTERS
    requires CanPut(vol.disk + map[], ino.ptr, Entries(vol.geo), OwnedOf(vol), Entry(Root(12), i), phys)
    requires TableGaps(Snap(vol, ino, map[]), Entry(Root(12), i)) <= |FreeOfVol(vol)|
    modifies vol, ino`blocks, ino`ptr
    ensures Open(vol, ino, map[]) && Attached(vol.geo, old(Snap(vol, ino, map[])), Snap(vol, ino, map[]), Entry(Root(12), i), phys)
  {
    hide FreeBlocks, Metas, FileOk, Owned, CanPut, Stepped, Attached, Paved, Held, Place, Level, Gaps;
    ghost var geo, s0 := vol.geo, Snap(vol, ino, map[]);
    Deep(12, i, 0, 0, Entries(geo));
    ZeroUnowned(geo, vol.disk, vol.groups);
    GapsOne(s0, Root(12), i);
    Paving(vol, ino, 12);
    ghost var s := Snap(vol, ino, map[]);
    CanPutStill(geo, s0, s, Root(12), Entry(Root(12), i), phys);
    PutLeaf(vol, ino, Root(12), ino.ptr[12], i, phys, map[]);
    AttachedEntry(geo, s0, s, Snap(vol, ino, map[]), Root(12), i, phys);
  }

  /** The root table of an indirect tree is there. */
  method Paving(vol: Volume, ino: Inode, k: nat)
    requires Open(vol, ino, map[]) && DIRECT <= k < POINTERS && |ino.ptr| == POINTERS
    requires Gaps(Snap(vol, ino, map[]), Root(k)) <= |FreeOfVol(vol)|
    modifies vol, ino`blocks, ino`ptr
    ensures Open(vol, ino, map[]) && |ino.ptr| == POINTERS && ino.ptr[k] == Held(Snap(vol, ino, map[]), Root(k)) != 0
    ensures Paved(vol.geo, old(Snap(vol, ino, map[])), Snap(vol, ino, map[]), Root(k))
  {
    hide FreeBlocks, Metas, FileOk, Owned, Stepped, Paved, Gaps;
    ghost var s0 := Snap(vol, ino, map[]);
    if ino.ptr[k] == 0 { RoomForRoot(s0, k, FreeOfVol(vol)); }
    EnsureRoot(vol, ino, k);
    GapsRoot(s0, k);
    PavedRoot(vol.geo, s0, Snap(vol, ino, map[]), k);
  }

  lemma {:induction false} GapsRoot(s: State, k: nat)
    ensures Gaps(s, Root(k)) == if Held(s, Root(k)) == 0 then 1 else 0
  {
  }

  /** Through the double indirect table. */
  method SetDouble(vol: Volume, ino: Inode, d: nat, i: nat, phys: nat)
    requires Open(vol, ino, map[]) && d < Entries(vol.geo) && i < Entries(vol.geo) && |ino.ptr| == POINTERS
    requires CanPut(vol.disk + map[], ino.ptr, Entries(vol.geo), OwnedOf(vol), Entry(Entry(Root(13), d), i), phys)
    requires TableGaps(Snap(vol, ino, map[]), Entry(Entry(Root(13), d), i)) <= |FreeOfVol(vol)|
    modifies vol, ino`blocks, ino`ptr
    ensures Open(vol, ino, map[])
    ensures Attached(vol.geo, old(Snap(vol, ino, map[])), Snap(vol, ino, map[]), Entry(Entry(Root(13), d), i), phys)
  {
    hide FreeBlocks, Metas, FileOk, Owned, CanPut, Stepped, Attached, Paved, Held, Place, Level, Gaps, Ensured, OnTheWay;
    ghost var geo, s0, r, t := vol.geo, Snap(vol, ino, map[]), Root(13), Entry(Root(13), d);
    Deep(13, d, i, 0, Entries(geo));
    ZeroUnowned(geo, vol.disk, vol.groups);
    GapsOne(s0, r, d);
    GapsOne(s0, t, i);
    Paving(vol, ino, 13);
    var table := ino.ptr[13];
    var buf, e, pend := PaveEntry(vol, ino, r, table, d, map[], s0);
    ghost var s := Snap(vol, ino, pend);
    CanPutStill(geo, s0, s, t, Entry(t, i), phys);
    PutLeaf(vol, ino, t, e, i, phys, pend);
    AttachedEntry(geo, s0, s, Snap(vol, ino, pend), t, i, phys);
    WriteBack(vol, ino, table, buf, pend);
    assert pend - {table} == map[];
  }

  /** A table is read into a buffer, and its entry `i` is made sure of. */
  method PaveEntry(vol: Volume, ino: Inode, ghost t: Pos, table: nat, i: nat, ghost pend: Pending, ghost s0: State)
    returns (buf: Block, e: nat, ghost pend': Pending)
    requires Open(vol, ino, pend) && table !in pend && table != 0 && Held(Snap(vol, ino, pend), t) == table
    requires Place(Entry(t, i), Entries(vol.geo)) && Level(Entry(t, i)) > 0 && 0 !in s0.own
    requires Paved(vol.geo, s0, Snap(vol, ino, pend), t) && Gaps(s0, Entry(t, i)) <= |s0.free|
    requires Buffered(Snap(vol, ino, pend), Entries(vol.geo), t, pend)
    modifies vol, ino`blocks
    ensures Open(vol, ino, pend') && pend' == pend[table := buf] && e == Held(Snap(vol, ino, pend'), Entry(t, i)) != 0 && e !in pend'
    ensures Paved(vol.geo, s0, Snap(vol, ino, pend'), Entry(t, i))
    ensures Buffered(Snap(vol, ino, pend'), Entries(vol.geo), Entry(t, i), pend')
  {
    hide FreeBlocks, Metas, FsOk, TreeOk, Owned, CanPut, Took, Paved, Place, Level, Gaps, PendingOk, Buffered, At;
    ghost var geo, s := vol.geo, Snap(vol, ino, pend);
    assert Place(t, Entries(geo)) by { BufferedEntry(geo, vol.disk, vol.groups, ino.ptr, pend, t, i); }
    BufferRead(geo, vol.disk, vol.groups, ino.ptr, pend, t, i);
    RoomLeft(geo, s0, s, t, i);
    buf, e, pend' := EnsureEntry(vol, ino, t, table, vol.disk[table], i, pend[table := vol.disk[table]]);
    PavedEntry(geo, s0, s, Snap(vol, ino, pend'), t, i);
    BufferedStep(geo, s, Snap(vol, ino, pend'), t, i, pend, pend', table, OwnedOf(vol));
  }

  /** The blocks in buffers are tables on the way to `t`. */
  ghost predicate Buffered(s: State, n: nat, t: Pos, pend: Pending) {
    forall b :: b in pend ==> OnTheWay(s, n, t, b)
  }

  ghost predicate OnTheWay(s: State, n: nat, t: Pos, b: nat) {
    exists q :: Place(q, n) && OnWay(q, t) && Held(s, q) == b
  }

  lemma {:induction false} BufferRead(geo: Geometry, disk: Disk, groups: seq<Group>, ptr: seq<nat>, pend: Pending, t: Pos, i: nat)
    requires FileOk(geo, disk, groups, ptr, pend) && Place(Entry(t, i), Entries(geo)) && At(disk + pend, ptr, t) != 0
    requires At(disk + pend, ptr, t) !in pend
    ensures var b := At(disk + pend, ptr, t);
            && b in disk && FileOk(geo, disk, groups, ptr, pend[b := disk[b]]) && disk + pend[b := disk[b]] == disk + pend
  {
    BufferedEntry(geo, disk, groups, ptr, pend, t, i);
    var b := At(disk + pend, ptr, t);
    OwnedOn(geo, disk, groups);
    assert disk + pend[b := disk[b]] == disk + pend;
    hide FreeBlocks, Metas, FsOk, TreeOk, Owned, At;
  }

  lemma {:induction false} BufferedStep(geo: Geometry, s: State, s': State, t: Pos, i: nat, pend: Pending, pend': Pending, table: nat, own: set<nat>)
    requires Buffered(s, Entries(geo), t, pend) && pend'.Keys == pend.Keys + {table} && Held(s, t) == table && table != 0
    requires Place(t, Entries(geo)) && Place(Entry(t, i), Entries(geo)) && Held(s', Entry(t, i)) != 0
    requires TreeOk(s'.disk, s'.ptr, Entries(geo), own)
    requires forall p :: Place(p, Entries(geo)) && p != Entry(t, i) ==> Held(s', p) == Held(s, p)
    ensures Buffered(s', Entries(geo), Entry(t, i), pend') && Held(s', Entry(t, i)) !in pend'
  {
    var c, n := Entry(t, i), Entries(geo);
    NotItself(t, i);
    forall b | b in pend' ensures OnTheWay(s', n, c, b) && b != Held(s', c) {
      assert OnWay(t, t);
      if b != table { assert OnTheWay(s, n, t, b); }
      var q :| Place(q, n) && OnWay(q, t) && Held(s, q) == b;
      OffWay(t, i, q);
      assert Held(s', q) == b;
      assert At(s'.disk, s'.ptr, q) == b && At(s'.disk, s'.ptr, c) == Held(s', c);
    }
  }

  /** Through the triple indirect table. */
  method SetTriple(vol: Volume, ino: Inode, t: nat, d: nat, i: nat, phys: nat)
    requires Open(vol, ino, map[]) && t < Entries(vol.geo) && d < Entries(vol.geo) && i < Entries(vol.geo) && |ino.ptr| == POINTERS
    requires CanPut(vol.disk + map[], ino.ptr, Entries(vol.geo), OwnedOf(vol), Entry(Entry(Entry(Root(14), t), d), i), phys)
    requires TableGaps(Snap(vol, ino, map[]), Entry(Entry(Entry(Root(14), t), d), i)) <= |FreeOfVol(vol)|
    modifies vol, ino`blocks, ino`ptr
    ensures Open(vol, ino, map[])
    ensures Attached(vol.geo, old(Snap(vol, ino, map[])), Snap(vol, ino, map[]), Entry(Entry(Entry(Root(14), t), d), i), phys)
  {
    hide FreeBlocks, Metas, FileOk, Owned, CanPut, Stepped, Attached, Paved, Held, Place, Level, Gaps, Ensured, OnTheWay;
    ghost var geo, s0, r, p, q := vol.geo, Snap(vol, ino, map[]), Root(14), Entry(Root(14), t), Entry(Entry(Root(14), t), d);
    Deep(14, t, d, i, Entries(geo));
    ZeroUnowned(geo, vol.disk, vol.groups);
    GapsOne(s0, r, t);
    GapsOne(s0, p, d);
    GapsOne(s0, q, i);
    Paving(vol, ino, 14);
    var table := ino.ptr[14];
    var buf, e, pend := PaveEntry(vol, ino, r, table, t, map[], s0);
    var buf2, e2, pend2 := PaveEntry(vol, ino, p, e, d, pend, s0);
    ghost var s := Snap(vol, ino, pend2);
    CanPutStill(geo, s0, s, q, Entry(q, i), phys);
    PutLeaf(vol, ino, q, e2, i, phys, pend2);
    AttachedEntry(geo, s0, s, Snap(vol, ino, pend2), q, i, phys);
    assert e != table;
    WriteBack(vol, ino, e, buf2, pend2);
    assert pend2 - {e} == map[table := buf];
    WriteBack(vol, ino, table, buf, map[table := buf]);
    assert map[table := buf] - {table} == map[];
  }

  /** `ext2_set_bmap`: the logical block maps to `phys`; every other logical block, and every byte of data, is as
      before; the inode's count grows by exactly the blocks that were attached. */
  method SetBmap(vol: Volume, ino: Inode, logical: nat, phys: nat)
    requires Open(vol, ino, map[]) && |ino.ptr| == POINTERS && Entries(vol.geo) > 0
    requires phys != 0 && logical < Capacity(Entries(vol.geo)) ==>
               && CanPut(vol.disk + map[], ino.ptr, Entries(vol.geo), OwnedOf(vol), PosOf(Entries(vol.geo), logical), phys)
               && TableGaps(Snap(vol, ino, map[]), PosOf(Entries(vol.geo), logical)) <= |FreeOfVol(vol)|
    modifies vol, ino`blocks, ino`ptr
    ensures Open(vol, ino, map[])
    ensures if phys == 0 || logical >= Capacity(Entries(vol.geo)) then Snap(vol, ino, map[]) == old(Snap(vol, ino, map[]))
            else Attached(vol.geo, old(Snap(vol, ino, map[])), Snap(vol, ino, map[]), PosOf(Entries(vol.geo), logical), phys)
  {
    hide FreeBlocks, Metas, FileOk, Owned, CanPut, Attached, Held, Place, Level, Gaps, Sq, Cube, Quo, Rem, Mix;
    if phys == 0 {
      return;
    }
    var n := Entries(vol.geo);
    if logical < DIRECT {
      SetDirect(vol, ino, logical, phys);
      return;
    }
    var l := logical - DIRECT;
    if l < n {
      SetSingle(vol, ino, l, phys);
      return;
    }
    l := l - n;
    if l < Sq(n) {
      TwoDigits(l, n);
      SetDouble(vol, ino, Quo(l, n), Rem(l, n), phys);
      return;
    }
    l := l - Sq(n);
    if l < Cube(n) {
      ThreeDigits(l, n);
      SetTriple(vol, ino, Quo(l, Sq(n)), Rem(Quo(l, n), n), Rem(l, n), phys);
    }
  }

  /** After setting a logical block, reading it gives what was set, and reading any other gives what it gave before. */
  lemma {:induction false} SetThenGet(geo: Geometry, s: State, s': State, l: nat, v: nat, m: nat)
    requires Entries(geo) > 0 && l < Capacity(Entries(geo)) && m < Capacity(Entries(geo))
    requires Attached(geo, s, s', PosOf(Entries(geo), l), v)
    ensures Bmap(geo, s'.disk, s'.ptr, m) == if m == l then v else Bmap(geo, s.disk, s.ptr, m)
  {
    var n := Entries(geo);
    hide At, Place, Level, PosOf, Gaps;
    PosOfPlace(n, m);
    if PosOf(n, l) == PosOf(n, m) { PosOfUnique(n, l, m); }
    assert Held(s', PosOf(n, m)) == At(s'.disk, s'.ptr, PosOf(n, m)) && Held(s, PosOf(n, m)) == At(s.disk, s.ptr, PosOf(n, m));
  }
}
