/** The bitmap allocators of src/kernel/kern_ext2.c: `ext2_alloc_inode`, `ext2_alloc_block`, `ext2_release_inode`. */
module Bitmaps {
  import opened Bytes
  import opened Options

  type Block = seq<byte>
  type Disk = map<nat, Block>

  // ------------------------------------------------------------------- bits

  /** `b & (1 << k)` */
  predicate Bit(b: nat, k: nat) {
    if k == 0 then b % 2 == 1 else Bit(b / 2, k - 1)
  }

  /** `b | (1 << k)` and `b & ~(1 << k)` */
  function SetTo(b: nat, k: nat, v: bool): nat {
    if k == 0 then b / 2 * 2 + (if v then 1 else 0) else b % 2 + 2 * SetTo(b / 2, k - 1, v)
  }

  function Pow2(k: nat): nat {
    if k == 0 then 1 else 2 * Pow2(k - 1)
  }

  lemma {:induction false} BitOfSet(b: nat, k: nat, v: bool, j: nat)
    ensures Bit(SetTo(b, k, v), j) == if j == k then v else Bit(b, j)
  {
    if k > 0 {
      assert SetTo(b, k, v) / 2 == SetTo(b / 2, k - 1, v);
      if j > 0 { BitOfSet(b / 2, k - 1, v, j - 1); }
    }
  }

  lemma {:induction false} SetRange(b: nat, k: nat, v: bool, m: nat)
    requires b < Pow2(m) && k < m
    ensures SetTo(b, k, v) < Pow2(m)
  {
    if k > 0 { SetRange(b / 2, k - 1, v, m - 1); }
  }

  lemma {:induction false} SetBack(b: nat, k: nat, v: bool)
    ensures SetTo(SetTo(b, k, v), k, Bit(b, k)) == b
  {
    if k > 0 {
      assert SetTo(b, k, v) / 2 == SetTo(b / 2, k - 1, v);
      SetBack(b / 2, k - 1, v);
    }
  }

  function SetByte(b: byte, k: nat, v: bool): byte
    requires k < 8
  {
    assert b < Pow2(8) by { assert Pow2(8) == 256; }
    SetRange(b, k, v, 8);
    assert Pow2(8) == 256;
    SetTo(b, k, v)
  }

  /** The bits of a byte, the least one first. */
  lemma {:induction false} ByteBits(b: byte)
    ensures b as nat == (if Bit(b, 0) then 1 else 0) + (if Bit(b, 1) then 2 else 0) + (if Bit(b, 2) then 4 else 0) + (if Bit(b, 3) then 8 else 0)
                      + (if Bit(b, 4) then 16 else 0) + (if Bit(b, 5) then 32 else 0) + (if Bit(b, 6) then 64 else 0) + (if Bit(b, 7) then 128 else 0)
  {
    Halves(b, 4);
    Halves(b / 16, 4);
    BitHigh(b, 4);
  }

  lemma {:induction false} Halves(b: nat, n: nat)
    requires n == 4
    ensures b % 16 == (if Bit(b, 0) then 1 else 0) + (if Bit(b, 1) then 2 else 0) + (if Bit(b, 2) then 4 else 0) + (if Bit(b, 3) then 8 else 0)
  {
    assert Bit(b, 1) == (b / 2 % 2 == 1) && Bit(b, 2) == Bit(b / 2, 1) == (b / 2 / 2 % 2 == 1);
    assert Bit(b, 3) == Bit(b / 2, 2) == Bit(b / 2 / 2, 1) == (b / 2 / 2 / 2 % 2 == 1);
  }

  lemma {:induction false} BitHigh(b: nat, n: nat)
    requires n == 4
    ensures forall k :: 0 <= k < 4 ==> Bit(b, 4 + k) == Bit(b / 16, k)
  {
    forall k | 0 <= k < 4 ensures Bit(b, 4 + k) == Bit(b / 16, k) {
      assert Bit(b, 4 + k) == Bit(b / 2, 3 + k) == Bit(b / 2 / 2, 2 + k) == Bit(b / 2 / 2 / 2, 1 + k) == Bit(b / 2 / 2 / 2 / 2, k);
    }
  }

  predicate BitAt(s: Block, i: nat) {
    i / 8 < |s| && Bit(s[i / 8], i % 8)
  }

  function WithBit(s: Block, i: nat, v: bool): (r: Block)
    requires i / 8 < |s|
    ensures |r| == |s|
  {
    s[i / 8 := SetByte(s[i / 8], i % 8, v)]
  }

  lemma {:induction false} BitOfWith(s: Block, i: nat, v: bool, j: nat)
    requires i / 8 < |s|
    ensures BitAt(WithBit(s, i, v), j) == if j == i then v else BitAt(s, j)
  {
    if i / 8 == j / 8 {
      BitOfSet(s[i / 8], i % 8, v, j % 8);
      assert j % 8 == i % 8 ==> j == i;
    }
  }

  lemma {:induction false} WithBitBack(s: Block, i: nat, v: bool)
    requires i / 8 < |s|
    ensures WithBit(WithBit(s, i, v), i, BitAt(s, i)) == s
  {
    SetBack(s[i / 8], i % 8, v);
  }

  /** How many of the first `n` bits are set. */
  ghost function CountBits(s: Block, n: nat): (c: nat)
    ensures c <= n
  {
    if n == 0 then 0 else CountBits(s, n - 1) + (if BitAt(s, n - 1) then 1 else 0)
  }

  lemma {:induction false} CountOfWith(s: Block, i: nat, v: bool, n: nat)
    requires i / 8 < |s|
    ensures CountBits(WithBit(s, i, v), n) ==
              CountBits(s, n) + if i < n && v && !BitAt(s, i) then 1 else if i < n && !v && BitAt(s, i) then -1 else 0
  {
    if n > 0 {
      CountOfWith(s, i, v, n - 1);
      BitOfWith(s, i, v, n - 1);
    }
  }

  /** The first clear bit from `lo` on, or `hi`. */
  ghost function FirstClear(s: Block, lo: nat, hi: nat): (b: nat)
    ensures b < hi ==> lo <= b && !BitAt(s, b)
    ensures forall j :: lo <= j < b && j < hi ==> BitAt(s, j)
    decreases hi - lo
  {
    if lo >= hi || !BitAt(s, lo) then lo else FirstClear(s, lo + 1, hi)
  }

  // -------------------------------------------------------------- the volume

  /** The superblock fields the allocators use. */
  datatype Geometry = Geometry(blockSize: nat, totalBlocks: nat, blocksPerGroup: nat, inodesPerGroup: nat, firstInode: nat)

  /** An entry of the block group descriptor table; the counts are 16 bits wide. */
  datatype Group = Group(blockBitmap: nat, inodeBitmap: nat, freeBlocks: nat, freeInodes: nat)

  datatype Kind = Blocks | Inodes

  /** A bit of the bitmaps of one kind. */
  datatype Loc = Loc(group: nat, bit: nat)

  function BitmapOf(k: Kind, g: Group): nat {
    if k.Blocks? then g.blockBitmap else g.inodeBitmap
  }

  function FreeOf(k: Kind, g: Group): nat {
    if k.Blocks? then g.freeBlocks else g.freeInodes
  }

  function WithFree(k: Kind, g: Group, n: nat): Group {
    if k.Blocks? then g.(freeBlocks := n) else g.(freeInodes := n)
  }

  function PerGroup(geo: Geometry, k: Kind): nat {
    if k.Blocks? then geo.blocksPerGroup else geo.inodesPerGroup
  }

  function MaxBits(geo: Geometry, k: Kind): nat {
    if PerGroup(geo, k) > geo.blockSize * 8 then geo.blockSize * 8 else PerGroup(geo, k)
  }

  /** The first bit looked at: reserved inodes are skipped, in 32-bit arithmetic. */
  function StartBit(geo: Geometry, k: Kind, g: nat): nat {
    if k.Inodes? && g == 0 then (geo.firstInode + 0xFFFF_FFFF) % 0x1_0000_0000 else 0
  }

  /** The groups the allocators look at. */
  function GroupCount(geo: Geometry): nat {
    if geo.blocksPerGroup == 0 then 0
    else var n := (geo.totalBlocks + geo.blocksPerGroup - 1) / geo.blocksPerGroup; if n > 256 then 256 else n
  }

  predicate HasBitmap(geo: Geometry, groups: seq<Group>, k: Kind, g: nat) {
    g < GroupCount(geo) && g < |groups| && BitmapOf(k, groups[g]) != 0
  }

  ghost predicate BitmapsApart(geo: Geometry, groups: seq<Group>) {
    forall k: Kind, l: Kind, g: nat, h: nat :: HasBitmap(geo, groups, k, g) && HasBitmap(geo, groups, l, h) && (k != l || g != h) ==>
      BitmapOf(k, groups[g]) != BitmapOf(l, groups[h])
  }

  /** Blocks have the volume's size, and the bitmaps are on the disk and apart from each other. */
  ghost predicate VolumeOk(geo: Geometry, disk: Disk, groups: seq<Group>) {
    && geo.blockSize > 0 && geo.blocksPerGroup > 0 && geo.inodesPerGroup > 0 && GroupCount(geo) <= |groups|
    && (forall b :: b in disk ==> |disk[b]| == geo.blockSize)
    && (forall k: Kind, g :: 0 <= g < GroupCount(geo) && BitmapOf(k, groups[g]) != 0 ==> BitmapOf(k, groups[g]) in disk)
    && (forall k: Kind, g :: 0 <= g < |groups| ==> FreeOf(k, groups[g]) < 0x1_0000)
    && BitmapsApart(geo, groups)
  }

  /** The bitmap of a group, or an empty one. */
  function BitmapAt(geo: Geometry, disk: Disk, groups: seq<Group>, k: Kind, g: nat): Block {
    if HasBitmap(geo, groups, k, g) && BitmapOf(k, groups[g]) in disk then disk[BitmapOf(k, groups[g])] else []
  }

  /** The number the bit stands for may be handed out. */
  predicate Eligible(geo: Geometry, groups: seq<Group>, k: Kind, loc: Loc) {
    HasBitmap(geo, groups, k, loc.group) && StartBit(geo, k, loc.group) <= loc.bit < MaxBits(geo, k)
  }

  predicate IsSet(geo: Geometry, disk: Disk, groups: seq<Group>, k: Kind, loc: Loc) {
    BitAt(BitmapAt(geo, disk, groups, k, loc.group), loc.bit)
  }

  predicate Before(a: Loc, b: Loc) {
    a.group < b.group || (a.group == b.group && a.bit < b.bit)
  }

  /** The first eligible clear bit from group `g` on. */
  ghost function Search(geo: Geometry, disk: Disk, groups: seq<Group>, k: Kind, g: nat): Option<Loc>
    decreases GroupCount(geo) - g
  {
    if g >= GroupCount(geo) then None
    else
      var b := FirstClear(BitmapAt(geo, disk, groups, k, g), StartBit(geo, k, g), MaxBits(geo, k));
      if HasBitmap(geo, groups, k, g) && b < MaxBits(geo, k) then Some(Loc(g, b)) else Search(geo, disk, groups, k, g + 1)
  }

  /** The eligible bits, in numbers: of the first 256 groups at most, as many as the volume has, those with a bitmap; of a
      bitmap, as many bits as a group has and the block holds, for inodes past the reserved ones of the first group. */
  lemma {:induction false} EligibleIs(geo: Geometry, groups: seq<Group>, k: Kind, loc: Loc)
    requires geo.blocksPerGroup > 0 && GroupCount(geo) <= |groups|
    ensures Eligible(geo, groups, k, loc) <==>
              && loc.group < 256 && loc.group * geo.blocksPerGroup < geo.totalBlocks
              && (if k.Blocks? then groups[loc.group].blockBitmap != 0 else groups[loc.group].inodeBitmap != 0)
              && loc.bit < (if k.Blocks? then geo.blocksPerGroup else geo.inodesPerGroup) && loc.bit < geo.blockSize * 8
              && (k.Inodes? && loc.group == 0 ==> loc.bit >= (geo.firstInode - 1) % 0x1_0000_0000)
  {
    GroupsAre(geo, loc.group);
    assert (geo.firstInode + 0xFFFF_FFFF) % 0x1_0000_0000 == (geo.firstInode - 1) % 0x1_0000_0000;
  }

  lemma {:induction false} GroupsAre(geo: Geometry, g: nat)
    requires geo.blocksPerGroup > 0
    ensures g < GroupCount(geo) <==> g < 256 && g * geo.blocksPerGroup < geo.totalBlocks
  {
    var b, t := geo.blocksPerGroup, geo.totalBlocks;
    QuoIsDiv(t + b - 1, b);
    QuoRem(t + b - 1, b);
    var n := Quo(t + b - 1, b);
    if g < n {
      MulMono(g + 1, n, b);
      assert (g + 1) * b == g * b + b;
    } else {
      MulMono(n, g, b);
    }
  }

  /** The search finds the lowest eligible clear bit, and none only when every eligible bit is set. */
  lemma {:induction false} SearchFinds(geo: Geometry, disk: Disk, groups: seq<Group>, k: Kind, g: nat)
    ensures var r := Search(geo, disk, groups, k, g);
            && (r.Some? ==> r.value.group >= g && Eligible(geo, groups, k, r.value) && !IsSet(geo, disk, groups, k, r.value))
            && (forall l: Loc :: l.group >= g && Eligible(geo, groups, k, l) && (r == None || Before(l, r.value)) ==>
                  IsSet(geo, disk, groups, k, l))
    decreases GroupCount(geo) - g
  {
    if g < GroupCount(geo) { SearchFinds(geo, disk, groups, k, g + 1); }
  }

  /** The disk with one bit changed. */
  ghost function Marked(geo: Geometry, disk: Disk, groups: seq<Group>, k: Kind, loc: Loc, v: bool): Disk {
    var s := BitmapAt(geo, disk, groups, k, loc.group);
    if loc.group < |groups| && loc.bit / 8 < |s| then disk[BitmapOf(k, groups[loc.group]) := WithBit(s, loc.bit, v)] else disk
  }

  /** The descriptors with one group's free count moved by `d`, in 16 bits. */
  ghost function Tallied(groups: seq<Group>, k: Kind, g: nat, d: int): seq<Group> {
    if g < |groups| then groups[g := WithFree(k, groups[g], (FreeOf(k, groups[g]) + d) % 0x1_0000)] else groups
  }

  /** Marking a bit changes that bit of that bitmap, and no other bit of any bitmap. */
  lemma {:induction false} MarkedBit(geo: Geometry, disk: Disk, groups: seq<Group>, k: Kind, loc: Loc, v: bool, l: Kind, at: Loc)
    requires VolumeOk(geo, disk, groups) && HasBitmap(geo, groups, k, loc.group) && loc.bit < MaxBits(geo, k)
    ensures loc.bit / 8 < |BitmapAt(geo, disk, groups, k, loc.group)|
    ensures IsSet(geo, Marked(geo, disk, groups, k, loc, v), groups, l, at) ==
              if l == k && at == loc then v else IsSet(geo, disk, groups, l, at)
  {
    var s := BitmapAt(geo, disk, groups, k, loc.group);
    assert |s| == geo.blockSize;
    BitOfWith(s, loc.bit, v, at.bit);
    if at.group != loc.group || l != k {
      if HasBitmap(geo, groups, l, at.group) {
        assert BitmapOf(l, groups[at.group]) != BitmapOf(k, groups[loc.group]);
      }
    }
  }

  lemma {:induction false} MarkedOk(geo: Geometry, disk: Disk, groups: seq<Group>, k: Kind, loc: Loc, v: bool, d: int)
    requires VolumeOk(geo, disk, groups) && HasBitmap(geo, groups, k, loc.group) && loc.bit < MaxBits(geo, k)
    ensures VolumeOk(geo, Marked(geo, disk, groups, k, loc, v), Tallied(groups, k, loc.group, d))
    ensures forall g, l: Kind :: 0 <= g < |groups| ==> BitmapOf(l, Tallied(groups, k, loc.group, d)[g]) == BitmapOf(l, groups[g])
  {
    var groups' := Tallied(groups, k, loc.group, d);
    forall l: Kind, h | 0 <= h < |groups|
      ensures BitmapOf(l, groups'[h]) == BitmapOf(l, groups[h]) && HasBitmap(geo, groups', l, h) == HasBitmap(geo, groups, l, h)
      ensures FreeOf(l, groups'[h]) < 0x1_0000
    {
      assert FreeOf(l, groups[h]) < 0x1_0000;
    }
  }

  /** The descriptors' free counts do not matter to the bitmaps. */
  lemma {:induction false} TalliedBits(geo: Geometry, disk: Disk, groups: seq<Group>, k: Kind, g: nat, d: int, l: Kind, at: Loc)
    ensures IsSet(geo, disk, Tallied(groups, k, g, d), l, at) == IsSet(geo, disk, groups, l, at)
    ensures Eligible(geo, Tallied(groups, k, g, d), l, at) == Eligible(geo, groups, l, at)
  {
  }

  /** A group's free count plus its set bits, in 16 bits. */
  ghost function Balance(geo: Geometry, disk: Disk, groups: seq<Group>, k: Kind, g: nat): nat {
    if g < |groups| then Sum(FreeOf(k, groups[g]), BitmapAt(geo, disk, groups, k, g), MaxBits(geo, k)) else 0
  }

  ghost function Sum(free: nat, s: Block, n: nat): nat {
    (free + CountBits(s, n)) % 0x1_0000
  }

  lemma {:induction false} SumStep(free: nat, s: Block, i: nat, v: bool, n: nat)
    requires i / 8 < |s| && i < n && BitAt(s, i) != v
    ensures Sum((free + (if v then -1 else 1)) % 0x1_0000, WithBit(s, i, v), n) == Sum(free, s, n)
  {
    CountOfWith(s, i, v, n);
    BalanceStep(free, CountBits(s, n), if v then -1 else 1);
    hide CountBits, WithBit, BitAt;
  }

  /** Setting a clear bit and counting down, or clearing a set one and counting up, keeps every group's balance. */
  lemma {:induction false} BalanceKept(geo: Geometry, disk: Disk, groups: seq<Group>, k: Kind, loc: Loc, v: bool, l: Kind, g: nat)
    requires VolumeOk(geo, disk, groups) && HasBitmap(geo, groups, k, loc.group) && loc.bit < MaxBits(geo, k)
    requires IsSet(geo, disk, groups, k, loc) != v
    ensures Balance(geo, Marked(geo, disk, groups, k, loc, v), Tallied(groups, k, loc.group, if v then -1 else 1), l, g)
         == Balance(geo, disk, groups, l, g)
  {
    hide Sum, BitmapAt, WithBit, VolumeOk, Marked, MaxBits, BitAt, PerGroup, GroupCount;
    var d := if v then -1 else 1;
    MarkedBitmap(geo, disk, groups, k, loc, v, d, l, g);
    if g == loc.group && l == k {
      SumStep(FreeOf(k, groups[g]), BitmapAt(geo, disk, groups, k, g), loc.bit, v, MaxBits(geo, k));
    }
  }

  lemma {:induction false} MarkedBitmap(geo: Geometry, disk: Disk, groups: seq<Group>, k: Kind, loc: Loc, v: bool, d: int, l: Kind, g: nat)
    requires VolumeOk(geo, disk, groups) && HasBitmap(geo, groups, k, loc.group) && loc.bit < MaxBits(geo, k)
    ensures loc.bit / 8 < |BitmapAt(geo, disk, groups, k, loc.group)|
    ensures BitmapAt(geo, Marked(geo, disk, groups, k, loc, v), Tallied(groups, k, loc.group, d), l, g) ==
              if g == loc.group && l == k then WithBit(BitmapAt(geo, disk, groups, k, g), loc.bit, v) else BitmapAt(geo, disk, groups, l, g)
  {
    assert |BitmapAt(geo, disk, groups, k, loc.group)| == geo.blockSize;
    assert HasBitmap(geo, Tallied(groups, k, loc.group, d), l, g) == HasBitmap(geo, groups, l, g);
    if (g != loc.group || l != k) && HasBitmap(geo, groups, l, g) {
      assert BitmapOf(l, groups[g]) != BitmapOf(k, groups[loc.group]);
    }
    hide WithBit, MaxBits;
  }

  lemma {:induction false} BalanceStep(free: nat, used: nat, d: int)
    requires -1 <= d <= 1
    ensures ((free + d) % 0x1_0000 + (used - d)) % 0x1_0000 == (free + used) % 0x1_0000
  {
  }

  /** The numbers that may still be handed out. */
  ghost function Pool(geo: Geometry, disk: Disk, groups: seq<Group>, k: Kind): set<Loc> {
    set g, b | 0 <= g < GroupCount(geo) && 0 <= b < MaxBits(geo, k)
               && Eligible(geo, groups, k, Loc(g, b)) && !IsSet(geo, disk, groups, k, Loc(g, b)) :: Loc(g, b)
  }

  /** What is handed out leaves the pool, and nothing else does: no number is handed out twice. */
  lemma {:induction false} PoolShrinks(geo: Geometry, disk: Disk, groups: seq<Group>, k: Kind, loc: Loc)
    requires VolumeOk(geo, disk, groups) && Eligible(geo, groups, k, loc) && !IsSet(geo, disk, groups, k, loc)
    ensures loc in Pool(geo, disk, groups, k)
    ensures Pool(geo, Marked(geo, disk, groups, k, loc, true), Tallied(groups, k, loc.group, -1), k) == Pool(geo, disk, groups, k) - {loc}
  {
    var disk', groups' := Marked(geo, disk, groups, k, loc, true), Tallied(groups, k, loc.group, -1);
    forall l: Loc ensures IsSet(geo, disk', groups', k, l) == (l == loc || IsSet(geo, disk, groups, k, l))
                          && Eligible(geo, groups', k, l) == Eligible(geo, groups, k, l) {
      MarkedBit(geo, disk, groups, k, loc, true, k, l);
      TalliedBits(geo, disk', groups, k, loc.group, -1, k, l);
    }
    hide Marked, Tallied, Eligible, IsSet;
  }

  /** Releasing what was just handed out restores the disk and the descriptors. */
  lemma {:induction false} ReleaseUndoes(geo: Geometry, disk: Disk, groups: seq<Group>, k: Kind, loc: Loc)
    requires VolumeOk(geo, disk, groups) && Eligible(geo, groups, k, loc) && !IsSet(geo, disk, groups, k, loc)
    ensures var disk', groups' := Marked(geo, disk, groups, k, loc, true), Tallied(groups, k, loc.group, -1);
            && Marked(geo, disk', groups', k, loc, false) == disk
            && Tallied(groups', k, loc.group, 1) == groups
  {
    var s := BitmapAt(geo, disk, groups, k, loc.group);
    assert |s| == geo.blockSize;
    WithBitBack(s, loc.bit, true);
    assert FreeOf(k, groups[loc.group]) < 0x1_0000;
    var disk', groups' := Marked(geo, disk, groups, k, loc, true), Tallied(groups, k, loc.group, -1);
    assert BitmapAt(geo, disk', groups', k, loc.group) == WithBit(s, loc.bit, true);
    assert Marked(geo, disk', groups', k, loc, false) == disk;
    assert Tallied(groups', k, loc.group, 1) == groups;
  }

  function Number(geo: Geometry, k: Kind, loc: Loc): nat {
    loc.group * PerGroup(geo, k) + loc.bit + (if k.Inodes? then 1 else 0)
  }

  /** Different bits stand for different numbers. */
  lemma {:induction false} NumberUnique(geo: Geometry, k: Kind, a: Loc, b: Loc)
    requires a.bit < MaxBits(geo, k) && b.bit < MaxBits(geo, k)
    ensures Number(geo, k, a) == Number(geo, k, b) ==> a == b
    ensures var i := Number(geo, k, a) - (if k.Inodes? then 1 else 0);
            PerGroup(geo, k) > 0 && i / PerGroup(geo, k) == a.group && i % PerGroup(geo, k) == a.bit
  {
    var per := PerGroup(geo, k);
    BlockUnique(a.group * per + a.bit, a.group, per);
    BlockUnique(b.group * per + b.bit, b.group, per);
    BlockOf(a.group * per + a.bit, per);
  }

  /** A result of 0 means that no eligible bit was clear, exactly when bit 0 of group 0 is not the one to hand out. */
  lemma {:induction false} ZeroMeansNone(geo: Geometry, disk: Disk, groups: seq<Group>)
    requires VolumeOk(geo, disk, groups)
    ensures var r := Search(geo, disk, groups, Blocks, 0);
            var p := if r.Some? then Number(geo, Blocks, r.value) else 0;
            (p == 0 ==> r == None) <==> (HasBitmap(geo, groups, Blocks, 0) ==> IsSet(geo, disk, groups, Blocks, Loc(0, 0)))
  {
    SearchFinds(geo, disk, groups, Blocks, 0);
    var r := Search(geo, disk, groups, Blocks, 0);
    assert MaxBits(geo, Blocks) > 0;
    if r.Some? {
      NumberUnique(geo, Blocks, r.value, Loc(0, 0));
      assert Eligible(geo, groups, Blocks, Loc(0, 0)) <==> HasBitmap(geo, groups, Blocks, 0);
      assert Before(Loc(0, 0), r.value) || r.value == Loc(0, 0);
    } else {
      assert Eligible(geo, groups, Blocks, Loc(0, 0)) <==> HasBitmap(geo, groups, Blocks, 0);
    }
  }

  /** A volume of one group, whose bitmaps are in blocks 1 and 2, with every bit clear. */
  function BlankVolume(): (v: (Geometry, Disk, seq<Group>)) {
    var blank := seq(2048, i => 0);
    (Geometry(2048, 64, 64, 64, 11), map[1 := blank, 2 := blank], [Group(1, 2, 64, 64)])
  }

  /** Where block 0 is handed out, the result says that no block was free. */
  lemma {:induction false} BlockZeroGiven()
    ensures var (geo, disk, groups) := BlankVolume();
            && VolumeOk(geo, disk, groups) && Search(geo, disk, groups, Blocks, 0) == Some(Loc(0, 0))
            && Number(geo, Blocks, Loc(0, 0)) == 0
  {
    var (geo, disk, groups) := BlankVolume();
    assert !BitAt(BitmapAt(geo, disk, groups, Blocks, 0), 0);
  }

  /** `ext2_alloc_block` on it returns 0, although it took the bit. */
  method AllocZero() returns (no: nat, free: nat, taken: bool)
    ensures no == 0 && free == 63 && taken
  {
    BlockZeroGiven();
    var (geo, disk, groups) := BlankVolume();
    var volume := new Volume(geo, disk, groups);
    no := volume.Alloc(Blocks);
    MarkedBit(geo, disk, groups, Blocks, Loc(0, 0), true, Blocks, Loc(0, 0));
    free := volume.groups[0].freeBlocks;
    taken := BitAt(volume.disk[1], 0);
  }

  // ------------------------------------------------------------ the operations

  /** The bit of an inode number. */
  function InodeLoc(geo: Geometry, no: nat): Loc {
    if no == 0 || geo.inodesPerGroup == 0 then Loc(0, 0) else Loc((no - 1) / geo.inodesPerGroup, (no - 1) % geo.inodesPerGroup)
  }

  /** The inode that was allocated is the one that is released. */
  lemma {:induction false} ReleasedIsAllocated(geo: Geometry, loc: Loc)
    requires loc.bit < MaxBits(geo, Inodes)
    ensures Number(geo, Inodes, loc) != 0 && InodeLoc(geo, Number(geo, Inodes, loc)) == loc
  {
    NumberUnique(geo, Inodes, loc, loc);
  }

  class Volume {
    const geo: Geometry
    /** The disk as `ext2_read_block` and `ext2_write_block` present it. */
    var disk: Disk
    /** `bgdt_cache` */
    var groups: seq<Group>

    ghost predicate Valid() reads this {
      VolumeOk(geo, disk, groups)
    }

    constructor (geo: Geometry, disk: Disk, groups: seq<Group>)
      requires VolumeOk(geo, disk, groups)
      ensures this.geo == geo && this.disk == disk && this.groups == groups && Valid()
    {
      this.geo, this.disk, this.groups := geo, disk, groups;
    }

    /** The loop over the bits of one bitmap. */
    static method ScanBits(s: Block, start: nat, max: nat) returns (bit: nat)
      requires max <= 8 * |s|
      ensures bit == FirstClear(s, start, max)
    {
      bit := start;
      while bit < max && BitAt(s, bit)
        invariant FirstClear(s, start, max) == FirstClear(s, bit, max)
      {
        bit := bit + 1;
      }
    }

    /** Setting the bit that was found. */
    method Take(k: Kind, loc: Loc)
      requires Valid() && HasBitmap(geo, groups, k, loc.group) && loc.bit < MaxBits(geo, k)
      modifies this
      ensures Valid()
      ensures disk == Marked(geo, old(disk), old(groups), k, loc, true) && groups == Tallied(old(groups), k, loc.group, -1)
    {
      MarkedOk(geo, disk, groups, k, loc, true, -1);
      var g := loc.group;
      disk := disk[BitmapOf(k, groups[g]) := WithBit(disk[BitmapOf(k, groups[g])], loc.bit, true)];
      groups := groups[g := WithFree(k, groups[g], (FreeOf(k, groups[g]) - 1) % 0x1_0000)];
    }

    /** `ext2_alloc_inode` and `ext2_alloc_block`, which run the same search: the lowest eligible clear bit is set
        and its group's free count goes down. */
    method Alloc(k: Kind) returns (no: nat)
      requires Valid()
      modifies this
      ensures Valid()
      ensures match Search(geo, old(disk), old(groups), k, 0)
              case None => no == 0 && disk == old(disk) && groups == old(groups)
              case Some(loc) =>
                && no == Number(geo, k, loc) && disk == Marked(geo, old(disk), old(groups), k, loc, true)
                && groups == Tallied(old(groups), k, loc.group, -1)
    {
      hide Marked, Tallied, FirstClear, BitmapsApart;
      var n := GroupCount(geo);
      var g := 0;
      while g < n
        invariant g <= n && disk == old(disk) && groups == old(groups)
        invariant Search(geo, disk, groups, k, 0) == Search(geo, disk, groups, k, g)
      {
        if BitmapOf(k, groups[g]) != 0 {
          var bit := ScanBits(disk[BitmapOf(k, groups[g])], StartBit(geo, k, g), MaxBits(geo, k));
          if bit < MaxBits(geo, k) {
            Take(k, Loc(g, bit));
            return Number(geo, k, Loc(g, bit));
          }
        }
        g := g + 1;
      }
      return 0;
    }

    /** `ext2_release_inode` */
    method ReleaseInode(no: nat)
      requires Valid()
      requires no != 0 ==> InodeLoc(geo, no).group < GroupCount(geo) && InodeLoc(geo, no).bit < MaxBits(geo, Inodes)
      modifies this
      ensures Valid()
      ensures if no == 0 || BitmapOf(Inodes, old(groups)[InodeLoc(geo, no).group]) == 0 then disk == old(disk) && groups == old(groups)
              else && disk == Marked(geo, old(disk), old(groups), Inodes, InodeLoc(geo, no), false)
                   && groups == Tallied(old(groups), Inodes, InodeLoc(geo, no).group, 1)
    {
      if no == 0 {
        return;
      }
      var loc := InodeLoc(geo, no);
      var g, bit := loc.group, loc.bit;
      if groups[g].inodeBitmap != 0 {
        MarkedOk(geo, disk, groups, Inodes, Loc(g, bit), false, 1);
        disk := disk[groups[g].inodeBitmap := WithBit(disk[groups[g].inodeBitmap], bit, false)];
        groups := groups[g := groups[g].(freeInodes := (groups[g].freeInodes + 1) % 0x1_0000)];
      }
    }
  }
}
