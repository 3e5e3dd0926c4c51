/** A file as a sequence of bytes over its block map, and the space that writing takes. */
module FileBytes {
  import opened Bytes
  import opened Options
  import opened Bitmaps
  import opened BlockTree
  import opened BlockMap

  /** The data block that logical block `l` maps to; empty where it maps to none. */
  ghost function BlockAt(geo: Geometry, s: State, l: nat): Block {
    var b := Held(s, PosOf(Entries(geo), l));
    if b != 0 && b in s.disk then s.disk[b] else []
  }

  ghost function ByteAt(geo: Geometry, s: State, i: nat): byte {
    if geo.blockSize == 0 then 0
    else var b := BlockAt(geo, s, Quo(i, geo.blockSize)); if Rem(i, geo.blockSize) < |b| then b[Rem(i, geo.blockSize)] else 0
  }

  /** Byte `i` of the file lies in block `i / blockSize` of its map, at `i % blockSize`. */
  lemma {:induction false} ByteAtIs(geo: Geometry, s: State, i: nat)
    requires geo.blockSize > 0
    ensures var b := Bmap(geo, s.disk, s.ptr, i / geo.blockSize);
            b != 0 && b in s.disk && |s.disk[b]| == geo.blockSize ==> ByteAt(geo, s, i) == s.disk[b][i % geo.blockSize]
  {
    QuoIsDiv(i, geo.blockSize);
    hide Quo, Rem;
  }

  /** The bytes of the file from `a` up to `b`. */
  ghost function BytesOf(geo: Geometry, s: State, a: nat, b: nat): (r: seq<byte>)
    ensures |r| == if a <= b then b - a else 0
    ensures forall i :: 0 <= i < |r| ==> r[i] == ByteAt(geo, s, a + i)
  {
    if b <= a then [] else seq<byte>(b - a, i requires 0 <= i < b - a => ByteAt(geo, s, a + i))
  }

  ghost predicate IsMapped(geo: Geometry, s: State, l: nat) {
    Held(s, PosOf(Entries(geo), l)) != 0
  }

  /** A file without holes. */
  ghost predicate Dense(geo: Geometry, s: State, size: nat) {
    forall l: nat :: l * geo.blockSize < size ==> IsMapped(geo, s, l)
  }

  /** No block is mapped beyond the end of the file. */
  ghost predicate Tight(geo: Geometry, s: State, size: nat) {
    forall l: nat :: l * geo.blockSize >= size && l < Capacity(Entries(geo)) ==> !IsMapped(geo, s, l)
  }

  /** Whatever bound the mapped blocks kept to, they keep to it or to `end`. */
  ghost predicate KeepsTight(geo: Geometry, s: State, s': State, end: nat) {
    forall e: nat :: Tight(geo, s, e) ==> Tight(geo, s', Max(e, end))
  }

  // ----------------------------------------------------------------- space

  /** The place is on the way to one of the logical blocks from `first` up to `l`. */
  ghost predicate Passed(n: nat, first: nat, l: nat, p: Pos) {
    exists m :: first <= m < l && OnWay(p, PosOf(n, m))
  }

  /** The blocks to attach at `p` and on the way there, not counting what the blocks from `first` on need already. */
  ghost function Cost(s: State, n: nat, first: nat, l: nat, p: Pos): nat {
    (if Held(s, p) == 0 && !Passed(n, first, l, p) then 1 else 0) + (if p.Entry? then Cost(s, n, first, l, p.table) else 0)
  }

  /** The blocks to attach so that the logical blocks from `l` up to `hi` are mapped, once those from `first` up to `l` are. */
  ghost function Need(s: State, n: nat, first: nat, l: nat, hi: nat): nat
    decreases hi - l
  {
    if l >= hi then 0 else Cost(s, n, first, l, PosOf(n, l)) + Need(s, n, first, l + 1, hi)
  }

  /** From `s` to `s'`, exactly the empty places on the way to `c` are filled. */
  ghost predicate Filled(s: State, s': State, n: nat, c: Pos) {
    && (forall p :: Place(p, n) ==> (Held(s', p) == 0 <==> Held(s, p) == 0 && !OnWay(p, c)))
    && (forall p :: Place(p, n) && Held(s, p) != 0 ==> Held(s', p) == Held(s, p))
  }

  lemma {:induction false} HeldWay(s: State, p: Pos, c: Pos)
    requires OnWay(p, c) && Held(s, c) != 0
    ensures Held(s, p) != 0
  {
    if p != c { HeldWay(s, p, c.table); }
  }

  lemma {:induction false} CostFirst(s: State, n: nat, first: nat, p: Pos)
    ensures Cost(s, n, first, first, p) == Gaps(s, p)
  {
    if p.Entry? {
      CostFirst(s, n, first, p.table);
      GapsOne(s, p.table, p.i);
    } else {
      GapsRoot(s, p.k);
    }
  }

  lemma {:induction false} NoGaps(s: State, p: Pos)
    requires Held(s, p) != 0
    ensures Gaps(s, p) == 0
  {
    if p.Entry? { NoGaps(s, p.table); GapsOne(s, p.table, p.i); } else { GapsRoot(s, p.k); }
  }

  lemma {:induction false} CostNext(s: State, s': State, n: nat, first: nat, l: nat, p: Pos)
    requires Filled(s, s', n, PosOf(n, first)) && Place(p, n) && first < l
    ensures Cost(s', n, first + 1, l, p) == Cost(s, n, first, l, p)
  {
    hide PosOf, Held, OnWay;
    assert Passed(n, first, l, p) <==> Passed(n, first + 1, l, p) || OnWay(p, PosOf(n, first)) by {
      if Passed(n, first, l, p) {
        var m :| first <= m < l && OnWay(p, PosOf(n, m));
        assert m == first || first + 1 <= m;
      }
    }
    if p.Entry? { CostNext(s, s', n, first, l, p.table); }
  }

  /** Once the first block is mapped, the rest need what they needed. */
  lemma {:induction false} NeedNext(s: State, s': State, n: nat, first: nat, l: nat, hi: nat)
    requires Filled(s, s', n, PosOf(n, first)) && first < l && hi <= Capacity(n) && n > 0
    ensures Need(s', n, first + 1, l, hi) == Need(s, n, first, l, hi)
    decreases hi - l
  {
    if l < hi {
      PosOfPlace(n, l);
      CostNext(s, s', n, first, l, PosOf(n, l));
      hide PosOf, Capacity, Filled, Cost, Place;
      NeedNext(s, s', n, first, l + 1, hi);
    }
  }

  lemma {:induction false} NeedFirst(s: State, n: nat, first: nat, hi: nat)
    requires first < hi
    ensures Need(s, n, first, first, hi) == Gaps(s, PosOf(n, first)) + Need(s, n, first, first + 1, hi)
  {
    CostFirst(s, n, first, PosOf(n, first));
  }

  // ------------------------------------------------------- writing a data block

  /** Writing a data block changes no place. */
  lemma {:induction false} DataWriteAt(disk: Disk, ptr: seq<nat>, n: nat, own: set<nat>, c: Pos, data: Block, p: Pos)
    requires TreeOk(disk, ptr, n, own) && Place(c, n) && Level(c) == 0 && At(disk, ptr, c) != 0 && Place(p, n)
    ensures At(disk[At(disk, ptr, c) := data], ptr, p) == At(disk, ptr, p)
  {
    if p.Entry? {
      DataWriteAt(disk, ptr, n, own, c, data, p.table);
      assert p.table != c;
    }
  }

  lemma {:induction false} DataWrite(geo: Geometry, disk: Disk, groups: seq<Group>, ptr: seq<nat>, c: Pos, data: Block)
    requires FileOk(geo, disk, groups, ptr, map[]) && |data| == geo.blockSize
    requires Place(c, Entries(geo)) && Level(c) == 0 && At(disk, ptr, c) != 0
    ensures var b := At(disk, ptr, c);
            && b in Owned(geo, disk, groups) && FileOk(geo, disk[b := data], groups, ptr, map[])
            && FreeBlocks(geo, disk[b := data], groups) == FreeBlocks(geo, disk, groups)
            && Owned(geo, disk[b := data], groups) == Owned(geo, disk, groups)
            && forall p :: Place(p, Entries(geo)) ==> At(disk[b := data], ptr, p) == At(disk, ptr, p)
  {
    var b, n, own := At(disk, ptr, c), Entries(geo), Owned(geo, disk, groups);
    NoneBuffered(disk);
    NoneBuffered(disk[b := data]);
    assert TreeOk(disk, ptr, n, own);
    OwnedWrite(geo, disk, groups, b, data, map[]);
    forall p | Place(p, n) ensures At(disk[b := data], ptr, p) == At(disk, ptr, p) { DataWriteAt(disk, ptr, n, own, c, data, p); }
    hide FreeBlocks, Metas, At, Place, Level, Owned, FsOk;
  }

  // -------------------------------------------------------- what mapping a block does

  /** Blocks in use keep their contents, unless they are this file's. */
  ghost predicate OthersKept(s0: State, s: State, n: nat) {
    forall b :: b in s0.own ==> b in s0.disk && b in s.disk && (s.disk[b] == s0.disk[b] || Reached(s, n, b))
  }

  ghost predicate Reached(s: State, n: nat, b: nat) {
    exists p :: Place(p, n) && Held(s, p) == b
  }

  /** The file's logical block `l` is mapped; the other blocks and all data are as before, and the space that was
      missing on the way was taken. */
  ghost predicate NowMapped(geo: Geometry, s0: State, s: State, l: nat) {
    var n, c := Entries(geo), PosOf(Entries(geo), l);
    && Held(s, c) != 0 && Filled(s0, s, n, c) && Took(geo, s0, s, Gaps(s0, c), Gaps(s0, c)) && OthersKept(s0, s, n)
    && (forall m: nat :: m < Capacity(n) && (m != l || Held(s0, c) != 0) && IsMapped(geo, s0, m) ==> BlockAt(geo, s, m) == BlockAt(geo, s0, m))
    && (forall m: nat :: m < Capacity(n) && m != l ==> IsMapped(geo, s, m) == IsMapped(geo, s0, m))
  }

  lemma {:induction false} AlreadyMapped(geo: Geometry, s: State, l: nat)
    requires IsMapped(geo, s, l) && s.own <= s.disk.Keys && s.blocks < 0x1_0000_0000
    ensures NowMapped(geo, s, s, l)
  {
    var c := PosOf(Entries(geo), l);
    NoGaps(s, c);
    forall p | OnWay(p, c) ensures Held(s, p) != 0 { HeldWay(s, p, c); }
    hide Held, PosOf, Place, OnWay, Gaps;
  }

  /** The block of a data place is a data block. */
  lemma {:induction false} DataBlock(geo: Geometry, s: State, l: nat)
    requires TreeOk(s.disk, s.ptr, Entries(geo), s.own) && l < Capacity(Entries(geo)) && IsMapped(geo, s, l) && Entries(geo) > 0
    ensures Held(s, PosOf(Entries(geo), l)) in s.own && !IsTable(s, Entries(geo), Held(s, PosOf(Entries(geo), l)))
  {
    var n, c := Entries(geo), PosOf(Entries(geo), l);
    PosOfPlace(n, l);
    hide PosOf, At, Place, Level;
    var b := Held(s, c);
    assert At(s.disk, s.ptr, c) == b;
    forall p | Place(p, n) && Level(p) > 0 ensures Held(s, p) != b {
      assert p != c && At(s.disk, s.ptr, p) == Held(s, p);
    }
  }

  /** After a fresh block `v` was allocated (from `s0` to `s1`) and attached (to `s`), the logical block is mapped to it. */
  lemma {:induction false} FreshlyMapped(geo: Geometry, s0: State, s1: State, s: State, l: nat, v: nat)
    requires l < Capacity(Entries(geo)) && Entries(geo) > 0 && v != 0 && !IsMapped(geo, s0, l)
    requires v in s0.free && s1.free == s0.free - {v} && s1.own == s0.own + {v} && s1.blocks == s0.blocks < 0x1_0000_0000
    requires forall b :: b in s0.own ==> b in s0.disk && b in s1.disk && s1.disk[b] == s0.disk[b]
    requires forall p :: Place(p, Entries(geo)) ==> Held(s1, p) == Held(s0, p)
    requires Attached(geo, s1, s, PosOf(Entries(geo), l), v)
    requires TreeOk(s0.disk, s0.ptr, Entries(geo), s0.own) && TreeOk(s.disk, s.ptr, Entries(geo), s.own)
    ensures NowMapped(geo, s0, s, l) && Held(s, PosOf(Entries(geo), l)) == v
  {
    var n, c := Entries(geo), PosOf(Entries(geo), l);
    PosOfPlace(n, l);
    hide TreeOk;
    FreshFilled(geo, s0, s1, s, c, v);
    FreshGaps(geo, s0, s1, s, c, v);
    FreshOthers(geo, s0, s1, s, n);
    FreshBlocks(geo, s0, s1, s, l, v);
  }

  lemma {:induction false} FreshFilled(geo: Geometry, s0: State, s1: State, s: State, c: Pos, v: nat)
    requires Place(c, Entries(geo)) && v != 0 && Held(s0, c) == 0 && forall p :: Place(p, Entries(geo)) ==> Held(s1, p) == Held(s0, p)
    requires Attached(geo, s1, s, c, v)
    ensures Filled(s0, s, Entries(geo), c)
  {
    hide Held, Place, Level, Took, Gaps, DataKept;
    forall p | Place(p, Entries(geo)) && OnWay(p, c) ensures Held(s, p) != 0 { HeldWay(s, p, c); }
  }

  lemma {:induction false} SameGaps(s0: State, s1: State, n: nat, c: Pos)
    requires Place(c, n) && forall p :: Place(p, n) ==> Held(s1, p) == Held(s0, p)
    ensures Gaps(s1, c) == Gaps(s0, c)
  {
    if c.Entry? {
      SameGaps(s0, s1, n, c.table);
      GapsOne(s0, c.table, c.i);
      GapsOne(s1, c.table, c.i);
    } else {
      GapsRoot(s0, c.k);
      GapsRoot(s1, c.k);
    }
  }

  lemma {:induction false} FreshGaps(geo: Geometry, s0: State, s1: State, s: State, c: Pos, v: nat)
    requires v in s0.free && s1.free == s0.free - {v} && s1.own == s0.own + {v} && s1.blocks == s0.blocks && Held(s0, c) == 0
    requires Place(c, Entries(geo)) && Attached(geo, s1, s, c, v) && forall p :: Place(p, Entries(geo)) ==> Held(s1, p) == Held(s0, p)
    ensures Took(geo, s0, s, Gaps(s0, c), Gaps(s0, c))
  {
    SameGaps(s0, s1, Entries(geo), c);
    assert Gaps(s1, c) == TableGaps(s1, c) + 1;
    hide Held, Gaps, TableGaps, Place, DataKept, Steady;
  }

  lemma {:induction false} FreshOthers(geo: Geometry, s0: State, s1: State, s: State, n: nat)
    requires DataKept(s1, s, n) && s0.own <= s1.own
    requires forall b :: b in s0.own ==> b in s0.disk && b in s1.disk && s1.disk[b] == s0.disk[b]
    ensures OthersKept(s0, s, n)
  {
    hide Held, Place, Level;
    forall b | b in s0.own && IsTable(s, n, b) ensures Reached(s, n, b) {}
  }

  lemma {:induction false} FreshBlocks(geo: Geometry, s0: State, s1: State, s: State, l: nat, v: nat)
    requires l < Capacity(Entries(geo)) && Entries(geo) > 0 && !IsMapped(geo, s0, l) && s0.own <= s1.own
    requires forall b :: b in s0.own ==> b in s0.disk && b in s1.disk && s1.disk[b] == s0.disk[b]
    requires forall p :: Place(p, Entries(geo)) ==> Held(s1, p) == Held(s0, p)
    requires Attached(geo, s1, s, PosOf(Entries(geo), l), v)
    requires TreeOk(s0.disk, s0.ptr, Entries(geo), s0.own) && TreeOk(s.disk, s.ptr, Entries(geo), s.own)
    ensures forall m: nat :: m < Capacity(Entries(geo)) && m != l ==> IsMapped(geo, s, m) == IsMapped(geo, s0, m)
    ensures forall m: nat :: m < Capacity(Entries(geo)) && m != l && IsMapped(geo, s0, m) ==> BlockAt(geo, s, m) == BlockAt(geo, s0, m)
  {
    forall m: nat | m < Capacity(Entries(geo)) && m != l
      ensures IsMapped(geo, s, m) == IsMapped(geo, s0, m) && (IsMapped(geo, s0, m) ==> BlockAt(geo, s, m) == BlockAt(geo, s0, m))
    {
      OtherBlock(geo, s0, s1, s, l, v, m);
    }
  }

  lemma {:induction false} OtherBlock(geo: Geometry, s0: State, s1: State, s: State, l: nat, v: nat, m: nat)
    requires l < Capacity(Entries(geo)) && m < Capacity(Entries(geo)) && m != l && Entries(geo) > 0 && s0.own <= s1.own
    requires forall b :: b in s0.own ==> b in s0.disk && b in s1.disk && s1.disk[b] == s0.disk[b]
    requires forall p :: Place(p, Entries(geo)) ==> Held(s1, p) == Held(s0, p)
    requires Attached(geo, s1, s, PosOf(Entries(geo), l), v)
    requires TreeOk(s0.disk, s0.ptr, Entries(geo), s0.own) && TreeOk(s.disk, s.ptr, Entries(geo), s.own)
    ensures IsMapped(geo, s, m) == IsMapped(geo, s0, m) && (IsMapped(geo, s0, m) ==> BlockAt(geo, s, m) == BlockAt(geo, s0, m))
  {
    var n := Entries(geo);
    PosOfPlace(n, m);
    if PosOf(n, m) == PosOf(n, l) { PosOfUnique(n, m, l); }
    hide PosOf, At, Place, Level, Held, Capacity, Took, Gaps, TableGaps;
    assert Held(s, PosOf(n, m)) == Held(s0, PosOf(n, m));
    if IsMapped(geo, s0, m) {
      DataBlock(geo, s0, m);
      DataBlock(geo, s, m);
    }
  }

  // ----------------------------------------------------------- what writing a chunk does

  function Max(a: nat, b: nat): nat {
    if a < b then b else a
  }

  /** The state with the data block of logical block `l` overwritten. */
  ghost function Overwritten(geo: Geometry, s: State, l: nat, data: Block): State {
    s.(disk := s.disk[Held(s, PosOf(Entries(geo), l)) := data])
  }

  lemma {:induction false} OverwrittenBlocks(geo: Geometry, s: State, l: nat, data: Block, m: nat)
    requires TreeOk(s.disk, s.ptr, Entries(geo), s.own) && IsMapped(geo, s, l) && l < Capacity(Entries(geo)) && m < Capacity(Entries(geo))
    requires Entries(geo) > 0 && forall p :: Place(p, Entries(geo)) ==> Held(Overwritten(geo, s, l, data), p) == Held(s, p)
    ensures IsMapped(geo, Overwritten(geo, s, l, data), m) == IsMapped(geo, s, m)
    ensures BlockAt(geo, Overwritten(geo, s, l, data), m) == if m == l then data else BlockAt(geo, s, m)
  {
    var n := Entries(geo);
    PosOfPlace(n, m);
    PosOfPlace(n, l);
    if PosOf(n, m) == PosOf(n, l) { PosOfUnique(n, m, l); }
    assert Held(s, PosOf(n, m)) == At(s.disk, s.ptr, PosOf(n, m)) && Held(s, PosOf(n, l)) == At(s.disk, s.ptr, PosOf(n, l));
    hide PosOf, At, Place, Level, Capacity;
  }

  /** The contents a chunk is written into: the block's, or zeros when it is new. */
  ghost function Base(geo: Geometry, s: State, l: nat): Block {
    if IsMapped(geo, s, l) then BlockAt(geo, s, l) else BlankBlock(geo.blockSize)
  }

  /** A chunk of one block is written at `pos`: from `s0`, with block `l` mapped in `s1`, to `s2`. */
  ghost predicate Chunk(geo: Geometry, s0: State, s1: State, s2: State, size: nat, pos: nat, l: nat, d: seq<byte>) {
    && geo.blockSize > 0 && Entries(geo) > 0 && l < Capacity(Entries(geo)) && l == Quo(pos, geo.blockSize)
    && Rem(pos, geo.blockSize) + |d| <= geo.blockSize && |Base(geo, s0, l)| == geo.blockSize
    && NowMapped(geo, s0, s1, l) && Dense(geo, s0, size) && pos <= size
    && (forall m: nat :: m < Capacity(Entries(geo)) ==>
          BlockAt(geo, s2, m) == if m == l then Splice(Base(geo, s0, l), Rem(pos, geo.blockSize), d) else BlockAt(geo, s1, m))
  }

  /** The file's bytes become the old ones with the chunk spliced in. */
  lemma {:induction false} ChunkBytes(geo: Geometry, s0: State, s1: State, s2: State, size: nat, pos: nat, l: nat, d: seq<byte>, i: nat)
    requires Chunk(geo, s0, s1, s2, size, pos, l, d) && i < Max(size, pos + |d|) && Quo(i, geo.blockSize) < Capacity(Entries(geo))
    ensures ByteAt(geo, s2, i) == if pos <= i < pos + |d| then d[i - pos] else ByteAt(geo, s0, i)
  {
    hide Capacity, BlockAt, IsMapped, NowMapped, Dense, Splice, Base, ByteAt, BlankBlock;
    if Quo(i, geo.blockSize) == l {
      ChunkHere(geo, s0, s1, s2, size, pos, l, d, i);
    } else {
      ChunkElsewhere(geo, s0, s1, s2, size, pos, l, d, i);
    }
  }

  lemma {:induction false} ChunkHere(geo: Geometry, s0: State, s1: State, s2: State, size: nat, pos: nat, l: nat, d: seq<byte>, i: nat)
    requires Chunk(geo, s0, s1, s2, size, pos, l, d) && i < Max(size, pos + |d|) && Quo(i, geo.blockSize) == l
    ensures ByteAt(geo, s2, i) == if pos <= i < pos + |d| then d[i - pos] else ByteAt(geo, s0, i)
  {
    hide Capacity, BlockAt, IsMapped, NowMapped, Dense, Splice, Base, ByteAt, BlankBlock;
    var bs := geo.blockSize;
    ChunkPlace(bs, pos, |d|, i);
    ByteIs(geo, s2, i);
    ByteIs(geo, s0, i);
    DenseAt(geo, s0, size, l);
    SpliceAt(Base(geo, s0, l), Rem(pos, bs), d, Rem(i, bs));
    BaseIs(geo, s0, l);
    if !IsMapped(geo, s0, l) { ChunkNew(bs, size, pos, |d|, i); }
  }

  lemma {:induction false} ChunkElsewhere(geo: Geometry, s0: State, s1: State, s2: State, size: nat, pos: nat, l: nat, d: seq<byte>, i: nat)
    requires Chunk(geo, s0, s1, s2, size, pos, l, d) && i < Max(size, pos + |d|) && Quo(i, geo.blockSize) < Capacity(Entries(geo))
    requires Quo(i, geo.blockSize) != l
    ensures ByteAt(geo, s2, i) == if pos <= i < pos + |d| then d[i - pos] else ByteAt(geo, s0, i)
  {
    hide Capacity, BlockAt, IsMapped, NowMapped, Dense, Splice, Base, ByteAt, BlankBlock;
    var m := Quo(i, geo.blockSize);
    OldPlace(geo.blockSize, size, pos, |d|, i);
    ByteIs(geo, s2, i);
    ByteIs(geo, s0, i);
    OtherKept(geo, s0, s1, l, m);
    DenseByte(geo, s0, size, i);
  }

  lemma {:induction false} OldPlace(bs: nat, size: nat, pos: nat, k: nat, i: nat)
    requires bs > 0 && Rem(pos, bs) + k <= bs && pos <= size && i < Max(size, pos + k) && Quo(i, bs) != Quo(pos, bs)
    ensures !(pos <= i < pos + k) && i < size
  {
    ChunkPlace(bs, pos, k, i);
  }

  lemma {:induction false} DenseByte(geo: Geometry, s: State, size: nat, i: nat)
    requires Dense(geo, s, size) && i < size && geo.blockSize > 0
    ensures IsMapped(geo, s, Quo(i, geo.blockSize))
  {
    QuoRem(i, geo.blockSize);
    hide IsMapped;
  }

  lemma {:induction false} ByteIs(geo: Geometry, s: State, i: nat)
    requires geo.blockSize > 0
    ensures var b, j := BlockAt(geo, s, Quo(i, geo.blockSize)), Rem(i, geo.blockSize); ByteAt(geo, s, i) == if j < |b| then b[j] else 0
  {
  }

  lemma {:induction false} BaseIs(geo: Geometry, s: State, l: nat)
    ensures IsMapped(geo, s, l) ==> Base(geo, s, l) == BlockAt(geo, s, l)
  {
  }

  lemma {:induction false} SpliceAt(s: Block, at: nat, d: seq<byte>, j: nat)
    requires at + |d| <= |s|
    ensures |Splice(s, at, d)| == |s| && (j < |s| ==> Splice(s, at, d)[j] == if at <= j < at + |d| then d[j - at] else s[j])
  {
  }

  lemma {:induction false} DenseAt(geo: Geometry, s: State, size: nat, l: nat)
    requires Dense(geo, s, size)
    ensures l * geo.blockSize < size ==> IsMapped(geo, s, l)
  {
  }

  lemma {:induction false} OtherKept(geo: Geometry, s0: State, s1: State, l: nat, m: nat)
    requires NowMapped(geo, s0, s1, l)
    ensures m < Capacity(Entries(geo)) && m != l ==> IsMapped(geo, s1, m) == IsMapped(geo, s0, m)
    ensures m < Capacity(Entries(geo)) && m != l && IsMapped(geo, s0, m) ==> BlockAt(geo, s1, m) == BlockAt(geo, s0, m)
    ensures IsMapped(geo, s1, l)
    ensures l < Capacity(Entries(geo)) && IsMapped(geo, s0, l) ==> BlockAt(geo, s1, l) == BlockAt(geo, s0, l)
  {
  }

  /** Where byte `i` lies relative to a chunk of `k` bytes at `pos`. */
  lemma {:induction false} ChunkPlace(bs: nat, pos: nat, k: nat, i: nat)
    requires bs > 0 && Rem(pos, bs) + k <= bs
    ensures Quo(i, bs) == Quo(pos, bs) ==> i - pos == Rem(i, bs) - Rem(pos, bs)
    ensures pos <= i < pos + k ==> Quo(i, bs) == Quo(pos, bs)
  {
    QuoRem(i, bs);
    QuoRem(pos, bs);
    if pos <= i < pos + k { QuoUnique(i, Quo(pos, bs), bs); }
  }

  lemma {:induction false} ChunkNew(bs: nat, size: nat, pos: nat, k: nat, i: nat)
    requires bs > 0 && pos <= size <= Quo(pos, bs) * bs && i < Max(size, pos + k) && Quo(i, bs) == Quo(pos, bs)
    ensures pos <= i < pos + k
  {
    QuoRem(i, bs);
    QuoRem(pos, bs);
  }

  lemma {:induction false} ChunkDense(geo: Geometry, s0: State, s1: State, s2: State, size: nat, pos: nat, l: nat, k: nat)
    requires geo.blockSize > 0 && l < Capacity(Entries(geo)) && l == Quo(pos, geo.blockSize) && 0 < k && Rem(pos, geo.blockSize) + k <= geo.blockSize
    requires NowMapped(geo, s0, s1, l) && Dense(geo, s0, size) && pos <= size && Max(size, pos + k) <= Capacity(Entries(geo)) * geo.blockSize
    requires forall m: nat :: m < Capacity(Entries(geo)) ==> IsMapped(geo, s2, m) == IsMapped(geo, s1, m)
    ensures Dense(geo, s2, Max(size, pos + k)) && KeepsTight(geo, s0, s2, pos + k)
  {
    hide Capacity, BlockAt, IsMapped, NowMapped;
    var bs, cap, size' := geo.blockSize, Capacity(Entries(geo)), Max(size, pos + k);
    QuoRem(pos, bs);
    forall m: nat ensures m * bs < size' ==> m < cap && (m == l || m * bs < size) {
      BlockEnd(bs, cap, size, pos, k, m);
    }
    OtherKept(geo, s0, s1, l, l + 1);
    forall m: nat | m < cap && m != l ensures IsMapped(geo, s1, m) == IsMapped(geo, s0, m) { OtherKept(geo, s0, s1, l, m); }
    ChunkTight(geo, s0, s2, pos, l, k);
  }

  lemma {:induction false} ChunkTight(geo: Geometry, s0: State, s2: State, pos: nat, l: nat, k: nat)
    requires l * geo.blockSize <= pos && 0 < k
    requires forall m: nat :: m < Capacity(Entries(geo)) && m != l ==> IsMapped(geo, s2, m) == IsMapped(geo, s0, m)
    ensures KeepsTight(geo, s0, s2, pos + k)
  {
    hide Capacity, IsMapped;
    forall e: nat | Tight(geo, s0, e) ensures Tight(geo, s2, Max(e, pos + k)) {
      forall m: nat | m * geo.blockSize >= Max(e, pos + k) && m < Capacity(Entries(geo)) ensures !IsMapped(geo, s2, m) {
        assert m != l;
      }
    }
  }

  lemma {:induction false} TightMore(geo: Geometry, s: State, pos: nat)
    ensures KeepsTight(geo, s, s, pos)
  {
    hide Capacity, IsMapped;
  }

  lemma {:induction false} TightTwice(geo: Geometry, s0: State, s1: State, s2: State, a: nat, b: nat)
    requires KeepsTight(geo, s0, s1, a) && KeepsTight(geo, s1, s2, b) && a <= b
    ensures KeepsTight(geo, s0, s2, b)
  {
    hide Tight;
    forall e: nat | Tight(geo, s0, e) ensures Tight(geo, s2, Max(e, b)) {
      assert Max(Max(e, a), b) == Max(e, b);
    }
  }

  lemma {:induction false} BlockEnd(bs: nat, cap: nat, size: nat, pos: nat, k: nat, m: nat)
    requires bs > 0 && Rem(pos, bs) + k <= bs && pos <= size && Max(size, pos + k) <= cap * bs
    ensures m * bs < Max(size, pos + k) ==> m < cap && (m == Quo(pos, bs) || m * bs < size)
  {
    QuoRem(pos, bs);
    Before(bs, m, cap);
    Before(bs, m, Quo(pos, bs));
    hide Quo, Rem;
  }

  /** Blocks are in the order of their numbers. */
  lemma {:induction false} Before(bs: nat, m: nat, l: nat)
    ensures m < l ==> m * bs + bs <= l * bs
    ensures m >= l ==> m * bs >= l * bs
    ensures m > l ==> m * bs >= l * bs + bs
  {
    if m < l { MulMono(m + 1, l, bs); } else { MulMono(l, m, bs); }
    if m > l { MulMono(l + 1, m, bs); }
  }
}
