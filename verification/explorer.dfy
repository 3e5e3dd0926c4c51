/** The explicit-stack directory iterator of src/kernel/kern_ext2.c, against the recursion it stands for. */
module Explorer {
  import opened Bytes
  import opened Options
  import D = Directory
  import T = BlockTree
  import M = Bitmaps
  import B = BlockMap

  const MAX_FRAMES: nat := 16
  const FT_REG: byte := 1
  const FT_DIR: byte := 2
  const FT_SYMLINK: byte := 7

  /** The fields of an inode the iterator looks at. */
  datatype Meta = Meta(mode: nat, size: nat, ptr: seq<nat>)

  /** A finite disk: blocks, and the inodes `ext2_get_inode` finds. */
  datatype Store = Store(blockSize: nat, disk: M.Disk, inodes: map<nat, Meta>)

  datatype Found = Found(inode: nat, fileType: byte, isDir: bool, depth: nat, name: seq<byte>)

  datatype Frame = Frame(inode: nat, block: nat, offset: nat)

  function BlockCount(st: Store, m: Meta): nat {
    if st.blockSize == 0 then 0 else Quo(m.size + st.blockSize - 1, st.blockSize)
  }

  /** `ext2_get_bmap` */
  function BlockId(st: Store, m: Meta, l: nat): nat {
    T.At(st.disk, m.ptr, T.PosOf(st.blockSize / 4, l))
  }

  function ContentOf(st: Store, b: nat): D.Block {
    if b in st.disk then st.disk[b] else []
  }

  /** A file system without file types in its entries: the type is the inode's. */
  function TypeOf(st: Store, inode: nat, entryType: byte): byte {
    if entryType != 0 || inode !in st.inodes then entryType
    else
      var kind := st.inodes[inode].mode / 0x1000 % 0x10;
      if kind == 4 then FT_DIR else if kind == 8 then FT_REG else if kind == 10 then FT_SYMLINK else 0
  }

  predicate Dots(d: D.Block, off: nat) {
    || (D.NameLen(d, off) == 1 && D.ByteOf(d, off + 8) == 46)
    || (D.NameLen(d, off) == 2 && D.ByteOf(d, off + 8) == 46 && D.ByteOf(d, off + 9) == 46)
  }

  /** The record at `off` is reported: it is live, not "." or "..", and not a directory on the current path. */
  predicate Reported(d: D.Block, off: nat, path: seq<nat>) {
    D.InodeOf(d, off) != 0 && !Dots(d, off) && D.InodeOf(d, off) !in path
  }

  predicate Malformed(st: Store, d: D.Block, off: nat) {
    D.RecLen(d, off) < D.HEADER || off + D.RecLen(d, off) > st.blockSize
  }

  function Report(st: Store, d: D.Block, off: nat, depth: nat): Found {
    var t := TypeOf(st, D.InodeOf(d, off), D.ByteOf(d, off + 7));
    Found(D.InodeOf(d, off), t, t == FT_DIR, depth, D.NameOf(d, off))
  }

  /** Whether the walk goes into what it just reported. */
  predicate Descends(st: Store, d: D.Block, off: nat, depth: nat) {
    Report(st, d, off, depth).isDir && depth < MAX_FRAMES - 1
  }

  function Last(path: seq<nat>): nat {
    if path == [] then 0 else path[|path| - 1]
  }

  /** The blocks left in the directory at the end of the path; none when its inode does not exist. */
  function Left(st: Store, path: seq<nat>, b: nat): nat {
    if path == [] || Last(path) !in st.inodes || b >= BlockCount(st, st.inodes[Last(path)]) then 0
    else BlockCount(st, st.inodes[Last(path)]) - b
  }

  /** The pre-order walk of the rest of a directory: from offset `off` of its block `b`, with the directories on the way
      to it, itself last, in `path`. A malformed record ends its directory. */
  function Walk(st: Store, path: seq<nat>, b: nat, off: nat): seq<Found>
    decreases MAX_FRAMES - |path|, Left(st, path, b), st.blockSize - off
  {
    if path == [] || |path| > MAX_FRAMES || Left(st, path, b) == 0 then []
    else
      var id := BlockId(st, st.inodes[Last(path)], b);
      var d := ContentOf(st, id);
      if id == 0 || off >= st.blockSize then Walk(st, path, b + 1, 0)
      else if Malformed(st, d, off) then []
      else
        var next := off + D.RecLen(d, off);
        if !Reported(d, off, path) then Walk(st, path, b, next)
        else
          [Report(st, d, off, |path| - 1)]
          + (if Descends(st, d, off, |path| - 1) then Walk(st, path + [D.InodeOf(d, off)], 0, 0) else [])
          + Walk(st, path, b, next)
  }

  function Inodes(fs: seq<Frame>): seq<nat> {
    if fs == [] then [] else Inodes(fs[..|fs| - 1]) + [fs[|fs| - 1].inode]
  }

  /** What the iterator with these frames has still to report. */
  function Remaining(st: Store, fs: seq<Frame>): seq<Found> {
    if fs == [] then []
    else
      var top := fs[|fs| - 1];
      Walk(st, Inodes(fs), top.block, top.offset) + Remaining(st, fs[..|fs| - 1])
  }

  lemma {:induction false} InodesLength(fs: seq<Frame>)
    ensures |Inodes(fs)| == |fs| && (fs != [] ==> Last(Inodes(fs)) == fs[|fs| - 1].inode)
    ensures forall i :: 0 <= i < |fs| ==> Inodes(fs)[i] == fs[i].inode
  {
    if fs != [] { InodesLength(fs[..|fs| - 1]); }
  }

  /** The iterator never reports anything deeper than level 15, nor above the directory it started in. */
  lemma {:induction false} DepthBounded(st: Store, path: seq<nat>, b: nat, off: nat)
    ensures forall i :: 0 <= i < |Walk(st, path, b, off)| ==> |path| - 1 <= Walk(st, path, b, off)[i].depth <= MAX_FRAMES - 1
    decreases MAX_FRAMES - |path|, Left(st, path, b), st.blockSize - off
  {
    hide D.RecLen, Reported, Report, Descends, ContentOf, BlockId, D.InodeOf;
    if path != [] && |path| <= MAX_FRAMES && Left(st, path, b) > 0 {
      var id := BlockId(st, st.inodes[Last(path)], b);
      var d := ContentOf(st, id);
      DepthBounded(st, path, b + 1, 0);
      if id != 0 && off < st.blockSize && !Malformed(st, d, off) {
        DepthBounded(st, path, b, off + D.RecLen(d, off));
        DepthStep(st, d, off, |path| - 1);
        if Descends(st, d, off, |path| - 1) { DepthBounded(st, path + [D.InodeOf(d, off)], 0, 0); }
      }
    }
  }

  lemma {:induction false} DepthStep(st: Store, d: D.Block, off: nat, depth: nat)
    ensures Report(st, d, off, depth).depth == depth && (Descends(st, d, off, depth) ==> depth < MAX_FRAMES - 1)
  {
  }

  /** The blocks of a directory are as many as hold its size. */
  lemma {:induction false} BlocksAre(st: Store, m: Meta)
    requires st.blockSize > 0
    ensures BlockCount(st, m) * st.blockSize >= m.size && (BlockCount(st, m) > 0 ==> (BlockCount(st, m) - 1) * st.blockSize < m.size)
  {
    var n := BlockCount(st, m);
    QuoRem(m.size + st.blockSize - 1, st.blockSize);
    assert n > 0 ==> (n - 1) * st.blockSize == n * st.blockSize - st.blockSize;
  }

  /** They are the ones the block map names. */
  lemma {:induction false} BlockIdIs(st: Store, m: Meta, l: nat, geo: M.Geometry)
    requires geo.blockSize == st.blockSize
    ensures BlockId(st, m, l) == B.Bmap(geo, st.disk, m.ptr, l)
  {
  }

  // ----------------------------------------------------- the walk, entry by entry

  /** The live entries of the blocks of a directory from block `b` on, in order. */
  function EntriesFrom(st: Store, m: Meta, b: nat): seq<D.DirEntry>
    decreases BlockCount(st, m) - b
  {
    if b >= BlockCount(st, m) then []
    else (if BlockId(st, m, b) == 0 then [] else D.Entries(ContentOf(st, BlockId(st, m, b)), 0)) + EntriesFrom(st, m, b + 1)
  }

  function EntriesOf(st: Store, inode: nat): seq<D.DirEntry> {
    if inode in st.inodes then EntriesFrom(st, st.inodes[inode], 0) else []
  }

  /** The blocks of the directory are whole, and records tile them. */
  predicate TiledDir(st: Store, inode: nat) {
    inode in st.inodes ==> forall b: nat :: b < BlockCount(st, st.inodes[inode]) && BlockId(st, st.inodes[inode], b) != 0 ==>
      |ContentOf(st, BlockId(st, st.inodes[inode], b))| == st.blockSize && D.Tiled(ContentOf(st, BlockId(st, st.inodes[inode], b)), 0)
  }

  /** An entry the walk reports: not "." or "..", and not a directory on the path to it. */
  predicate Wanted(e: D.DirEntry, path: seq<nat>) {
    e.name != [46] && e.name != [46, 46] && e.inode !in path
  }

  function ItemOf(st: Store, e: D.DirEntry, depth: nat): Found {
    var t := TypeOf(st, e.inode, e.fileType);
    Found(e.inode, t, t == FT_DIR, depth, e.name)
  }

  /** The items of a directory's own level. */
  function Own(st: Store, path: seq<nat>, es: seq<D.DirEntry>): seq<Found> {
    if es == [] then []
    else (if Wanted(es[0], path) then [ItemOf(st, es[0], if path == [] then 0 else |path| - 1)] else []) + Own(st, path, es[1..])
  }

  /** Items of one level, each directory above depth 15 followed by the walk below it. */
  function Joined(st: Store, path: seq<nat>, items: seq<Found>): seq<Found> {
    if items == [] then []
    else
      [items[0]] + (if items[0].fileType == 2 && |path| <= 15 then Walk(st, path + [items[0].inode], 0, 0) else [])
      + Joined(st, path, items[1..])
  }

  /** The walk of a directory whose blocks are tiled: its own entries, each followed by the walk below it. */
  lemma {:induction false} WalkIs(st: Store, path: seq<nat>)
    requires path != [] && |path| <= MAX_FRAMES && TiledDir(st, Last(path))
    ensures Walk(st, path, 0, 0) == Joined(st, path, Own(st, path, EntriesOf(st, Last(path))))
  {
    if Last(path) in st.inodes {
      WalkBlocks(st, path, 0);
    } else {
      WalkOver(st, path, 0, 0);
    }
  }

  lemma {:induction false} WalkBlocks(st: Store, path: seq<nat>, b: nat)
    requires path != [] && |path| <= MAX_FRAMES && TiledDir(st, Last(path)) && Last(path) in st.inodes
    ensures Walk(st, path, b, 0) == Joined(st, path, Own(st, path, EntriesFrom(st, st.inodes[Last(path)], b)))
    decreases Left(st, path, b)
  {
    hide BlockId, ContentOf, D.Tiled, D.Entries, Joined, Own, Walk;
    var m := st.inodes[Last(path)];
    if b >= BlockCount(st, m) {
      WalkOver(st, path, b, 0);
      NothingOwned(st, path);
    } else {
      var d := ContentOf(st, BlockId(st, m, b));
      WalkBlocks(st, path, b + 1);
      if BlockId(st, m, b) == 0 {
        StepBlock(st, path, b, 0);
        assert [] + EntriesFrom(st, m, b + 1) == EntriesFrom(st, m, b + 1);
      } else {
        WalkBlock(st, path, b, 0);
        OwnJoin(st, path, D.Entries(d, 0), EntriesFrom(st, m, b + 1));
        JoinedJoin(st, path, Own(st, path, D.Entries(d, 0)), Own(st, path, EntriesFrom(st, m, b + 1)));
      }
    }
  }

  lemma {:induction false} NothingOwned(st: Store, path: seq<nat>)
    ensures Joined(st, path, Own(st, path, [])) == []
  {
  }

  /** The rest of a tiled block, then the following blocks. */
  lemma {:induction false} WalkBlock(st: Store, path: seq<nat>, b: nat, off: nat)
    requires path != [] && |path| <= MAX_FRAMES && InBlock(st, path, b) && BlockId(st, st.inodes[Last(path)], b) != 0
    requires var d := ContentOf(st, BlockId(st, st.inodes[Last(path)], b)); |d| == st.blockSize && D.Tiled(d, off) && off <= |d|
    ensures var d := ContentOf(st, BlockId(st, st.inodes[Last(path)], b));
            Walk(st, path, b, off) == Joined(st, path, Own(st, path, D.Entries(d, off))) + Walk(st, path, b + 1, 0)
    decreases st.blockSize - off
  {
    hide BlockId, ContentOf, D.RecLen, Walk, Joined, Own;
    var d := ContentOf(st, BlockId(st, st.inodes[Last(path)], b));
    if off == |d| {
      StepBlock(st, path, b, off);
      NothingOwned(st, path);
    } else {
      WalkBlock(st, path, b, off + D.RecLen(d, off));
      WalkRecord(st, path, b, off);
    }
  }

  lemma {:induction false} WalkRecord(st: Store, path: seq<nat>, b: nat, off: nat)
    requires path != [] && |path| <= MAX_FRAMES && InBlock(st, path, b) && BlockId(st, st.inodes[Last(path)], b) != 0
    requires var d := ContentOf(st, BlockId(st, st.inodes[Last(path)], b));
             && |d| == st.blockSize && D.Record(d, off)
             && Walk(st, path, b, off + D.RecLen(d, off))
                == Joined(st, path, Own(st, path, D.Entries(d, off + D.RecLen(d, off)))) + Walk(st, path, b + 1, 0)
    ensures var d := ContentOf(st, BlockId(st, st.inodes[Last(path)], b));
            Walk(st, path, b, off) == Joined(st, path, Own(st, path, D.Entries(d, off))) + Walk(st, path, b + 1, 0)
  {
    hide BlockId, ContentOf, D.RecLen, D.EntryAt, D.InodeOf, Walk, Joined, Own, Wanted, Report, Descends, Reported, D.Entries;
    var d := ContentOf(st, BlockId(st, st.inodes[Last(path)], b));
    var next := off + D.RecLen(d, off);
    var rest := D.Entries(d, next);
    D.EntriesStep(d, off);
    EntryWanted(st, d, off, path);
    if D.InodeOf(d, off) == 0 {
      StepSkip(st, path, b, off);
      assert [] + rest == rest;
    } else {
      var e := D.EntryAt(d, off);
      OwnFirst(st, path, e, rest);
      if Wanted(e, path) {
        StepReport(st, path, b, off);
        JoinedFirst(st, path, ItemOf(st, e, |path| - 1), Own(st, path, rest));
      } else {
        StepSkip(st, path, b, off);
        assert [] + Own(st, path, rest) == Own(st, path, rest);
      }
    }
  }

  /** What a record says is what its entry says. */
  lemma {:induction false} EntryWanted(st: Store, d: D.Block, off: nat, path: seq<nat>)
    requires D.Record(d, off) && |d| == st.blockSize && path != []
    ensures !Malformed(st, d, off)
    ensures D.InodeOf(d, off) != 0 ==> (Reported(d, off, path) <==> Wanted(D.EntryAt(d, off), path))
    ensures D.InodeOf(d, off) == 0 ==> !Reported(d, off, path)
    ensures Report(st, d, off, |path| - 1) == ItemOf(st, D.EntryAt(d, off), |path| - 1)
    ensures Descends(st, d, off, |path| - 1) <==> ItemOf(st, D.EntryAt(d, off), |path| - 1).fileType == 2 && |path| <= 15
    ensures D.EntryAt(d, off).inode == D.InodeOf(d, off)
  {
    hide D.RecLen, D.InodeOf, TypeOf;
    if D.InodeOf(d, off) != 0 {
      var name := D.NameOf(d, off);
      assert |name| == D.NameLen(d, off) && name == d[off + 8..off + 8 + |name|];
      assert name == [46] <==> |name| == 1 && name[0] == 46;
      assert name == [46, 46] <==> |name| == 2 && name[0] == 46 && name[1] == 46;
    }
  }

  lemma {:induction false} OwnFirst(st: Store, path: seq<nat>, e: D.DirEntry, rest: seq<D.DirEntry>)
    requires path != []
    ensures Own(st, path, [e] + rest) == (if Wanted(e, path) then [ItemOf(st, e, |path| - 1)] else []) + Own(st, path, rest)
  {
    assert ([e] + rest)[1..] == rest;
  }

  lemma {:induction false} JoinedFirst(st: Store, path: seq<nat>, item: Found, rest: seq<Found>)
    ensures Joined(st, path, [item] + rest) ==
              [item] + (if item.fileType == 2 && |path| <= 15 then Walk(st, path + [item.inode], 0, 0) else []) + Joined(st, path, rest)
  {
    hide Walk;
    assert ([item] + rest)[1..] == rest;
  }

  lemma {:induction false} OwnJoin(st: Store, path: seq<nat>, a: seq<D.DirEntry>, b: seq<D.DirEntry>)
    ensures Own(st, path, a + b) == Own(st, path, a) + Own(st, path, b)
  {
    hide Wanted, ItemOf;
    if a == [] {
      assert a + b == b;
    } else {
      assert (a + b)[1..] == a[1..] + b;
      OwnJoin(st, path, a[1..], b);
    }
  }

  lemma {:induction false} JoinedJoin(st: Store, path: seq<nat>, a: seq<Found>, b: seq<Found>)
    ensures Joined(st, path, a + b) == Joined(st, path, a) + Joined(st, path, b)
  {
    hide Walk;
    if a == [] {
      assert a + b == b;
    } else {
      assert (a + b)[1..] == a[1..] + b;
      JoinedJoin(st, path, a[1..], b);
    }
  }

  /** The items of a level are, in order, the entries that are neither "." nor ".." nor on the path, each with its inode
      and name. The type is the entry's, or when it has none, the one that the mode of its inode gives. */
  lemma {:induction false} OwnItems(st: Store, path: seq<nat>, es: seq<D.DirEntry>) returns (pos: seq<nat>)
    requires path != []
    ensures |pos| == |Own(st, path, es)|
    ensures forall k :: 0 <= k < |pos| ==> pos[k] < |es|
    ensures forall a, b :: 0 <= a < b < |pos| ==> pos[a] < pos[b]
    ensures forall j: nat :: j < |es| ==> (j in pos <==> es[j].name != [46] && es[j].name != [46, 46] && es[j].inode !in path)
    ensures forall k :: 0 <= k < |pos| ==>
              var item, e := Own(st, path, es)[k], es[pos[k]];
              && item.inode == e.inode && item.name == e.name && item.depth == |path| - 1
              && (item.isDir <==> item.fileType == 2) && (e.fileType != 0 || e.inode !in st.inodes ==> item.fileType == e.fileType)
              && (e.fileType == 0 && e.inode in st.inodes ==>
                    var kind := st.inodes[e.inode].mode / 4096 % 16;
                    item.fileType == if kind == 4 then 2 else if kind == 8 then 1 else if kind == 10 then 7 else 0)
  {
    pos := OwnPlaces(st, path, es);
    hide Own;
  }

  lemma {:induction false} OwnPlaces(st: Store, path: seq<nat>, es: seq<D.DirEntry>) returns (pos: seq<nat>)
    requires path != []
    ensures |pos| == |Own(st, path, es)|
    ensures forall k :: 0 <= k < |pos| ==> pos[k] < |es| && Own(st, path, es)[k] == ItemOf(st, es[pos[k]], |path| - 1)
    ensures forall a, b :: 0 <= a < b < |pos| ==> pos[a] < pos[b]
    ensures forall j: nat :: j < |es| ==> (j in pos <==> Wanted(es[j], path))
  {
    pos := [];
    if es != [] {
      hide Own, ItemOf, Wanted;
      var init, e := es[..|es| - 1], es[|es| - 1];
      pos := OwnPlaces(st, path, init);
      OwnLast(st, path, init, e);
      assert es == init + [e];
      if Wanted(e, path) { pos := pos + [|es| - 1]; }
    }
  }

  lemma {:induction false} OwnLast(st: Store, path: seq<nat>, init: seq<D.DirEntry>, e: D.DirEntry)
    requires path != []
    ensures Own(st, path, init + [e]) == Own(st, path, init) + (if Wanted(e, path) then [ItemOf(st, e, |path| - 1)] else [])
  {
    hide ItemOf, Wanted;
    OwnJoin(st, path, init, [e]);
    assert [e][1..] == [];
  }

  /** Nothing is reported that is dead or on the path to it. */
  lemma {:induction false} NotOnPath(st: Store, path: seq<nat>, b: nat, off: nat)
    ensures forall i :: 0 <= i < |Walk(st, path, b, off)| ==> Walk(st, path, b, off)[i].inode != 0 && Walk(st, path, b, off)[i].inode !in path
    decreases MAX_FRAMES - |path|, Left(st, path, b), st.blockSize - off
  {
    hide D.RecLen, ContentOf, BlockId, D.InodeOf, Dots, TypeOf, D.NameOf;
    if path != [] && |path| <= MAX_FRAMES && Left(st, path, b) > 0 {
      var id := BlockId(st, st.inodes[Last(path)], b);
      var d := ContentOf(st, id);
      NotOnPath(st, path, b + 1, 0);
      if id != 0 && off < st.blockSize && !Malformed(st, d, off) {
        NotOnPath(st, path, b, off + D.RecLen(d, off));
        if Descends(st, d, off, |path| - 1) {
          NotOnPath(st, path + [D.InodeOf(d, off)], 0, 0);
          assert forall x :: x in path ==> x in path + [D.InodeOf(d, off)];
        }
      }
    }
  }

  /** The directories of `dirs` are tiled, and every directory entered from one of them is another one. */
  ghost predicate TiledBelow(st: Store, dirs: set<nat>) {
    forall i :: i in dirs ==> TiledDir(st, i) && forall k :: 0 <= k < |EntriesOf(st, i)| ==>
      TypeOf(st, EntriesOf(st, i)[k].inode, EntriesOf(st, i)[k].fileType) == 2 ==> EntriesOf(st, i)[k].inode in dirs
  }

  /** No "." and no ".." anywhere. */
  lemma {:induction false} NoDots(st: Store, path: seq<nat>, dirs: set<nat>)
    requires path != [] && Last(path) in dirs && TiledBelow(st, dirs)
    ensures forall i :: 0 <= i < |Walk(st, path, 0, 0)| ==> Walk(st, path, 0, 0)[i].name != [46] && Walk(st, path, 0, 0)[i].name != [46, 46]
    decreases MAX_FRAMES - |path|, 1, 0
  {
    if |path| <= MAX_FRAMES {
      hide Walk, Joined, Own;
      WalkIs(st, path);
      var es := EntriesOf(st, Last(path));
      assert TiledDir(st, Last(path));
      NoDotsJoined(st, path, dirs, es);
    }
  }

  lemma {:induction false} NoDotsJoined(st: Store, path: seq<nat>, dirs: set<nat>, es: seq<D.DirEntry>)
    requires path != [] && |path| <= MAX_FRAMES && TiledBelow(st, dirs)
    requires forall k :: 0 <= k < |es| ==> TypeOf(st, es[k].inode, es[k].fileType) == 2 ==> es[k].inode in dirs
    ensures var w := Joined(st, path, Own(st, path, es)); forall i :: 0 <= i < |w| ==> w[i].name != [46] && w[i].name != [46, 46]
    decreases MAX_FRAMES - |path|, 0, |es|
  {
    hide Walk, TypeOf, TiledBelow;
    if es != [] {
      NoDotsJoined(st, path, dirs, es[1..]);
      assert es == [es[0]] + es[1..];
      OwnFirst(st, path, es[0], es[1..]);
      var item := ItemOf(st, es[0], |path| - 1);
      if Wanted(es[0], path) {
        JoinedFirst(st, path, item, Own(st, path, es[1..]));
        if item.fileType == 2 && |path| <= 15 { NoDots(st, path + [item.inode], dirs); }
      } else {
        assert [] + Own(st, path, es[1..]) == Own(st, path, es[1..]);
      }
    }
  }

  class Iterator {
    const st: Store
    /** `stack[0..stack_ptr]` */
    var frames: seq<Frame>
    var buf: D.Block
    var lastRead: nat

    ghost predicate Valid() reads this {
      |frames| <= MAX_FRAMES && st.blockSize > 0 && (lastRead != 0 ==> buf == ContentOf(st, lastRead))
    }

    /** `ext2_explorer_init` */
    constructor (st: Store, start: nat)
      requires st.blockSize > 0
      ensures Valid() && this.st == st && Remaining(st, frames) == Walk(st, [start], 0, 0)
    {
      this.st, frames, buf, lastRead := st, [Frame(start, 0, 0)], [], 0;
      new;
      StartRemaining(st, start);
    }

    /** `ext2_explorer_next`: the next item of the walk, until there is none. */
    method Next() returns (found: Option<Found>)
      requires Valid()
      modifies this
      ensures Valid()
      ensures Remaining(st, old(frames)) == match found case None => [] case Some(r) => [r] + Remaining(st, frames)
      ensures found == None ==> frames == []
    {
      hide Walk, BlockCount;
      while frames != []
        invariant Valid() && Remaining(st, frames) == Remaining(st, old(frames))
        decreases |frames|
      {
        InodesLength(frames);
        if frames[|frames| - 1].inode in st.inodes {
          found := Scan();
          if found.Some? {
            return;
          }
        } else {
          NoInode(st, frames);
        }
        frames := frames[..|frames| - 1];
      }
      return None;
    }

    /** The check for circular directories. */
    method OnPath(inode: nat) returns (yes: bool)
      ensures yes <==> inode in Inodes(frames)
    {
      InodesLength(frames);
      var i := 0;
      while i < |frames|
        invariant i <= |frames| && forall j :: 0 <= j < i ==> frames[j].inode != inode
      {
        if frames[i].inode == inode {
          assert Inodes(frames)[i] == inode;
          return true;
        }
        i := i + 1;
      }
      return false;
    }

    /** Advancing the top frame. */
    method SetTop(block: nat, offset: nat)
      requires Valid() && frames != []
      modifies `frames
      ensures Valid() && frames == old(frames)[|old(frames)| - 1 := Frame(old(frames)[|old(frames)| - 1].inode, block, offset)]
      ensures Inodes(frames) == Inodes(old(frames))
      ensures Remaining(st, frames) == Walk(st, Inodes(frames), block, offset) + Remaining(st, old(frames)[..|old(frames)| - 1])
    {
      NewTop(st, frames, block, offset);
      frames := frames[|frames| - 1 := Frame(frames[|frames| - 1].inode, block, offset)];
    }

    /** A well-formed record: the frame moves past it, and it is reported or skipped. */
    method Visit(block: nat, off: nat) returns (found: Option<Found>)
      requires Valid() && frames != [] && InBlock(st, Inodes(frames), block) && off < st.blockSize
      requires lastRead == BlockId(st, st.inodes[Last(Inodes(frames))], block) != 0 && !Malformed(st, buf, off)
      modifies `frames
      ensures Valid()
      ensures var rest := Remaining(st, old(frames)[..|old(frames)| - 1]);
              match found
              case Some(r) => Walk(st, Inodes(old(frames)), block, off) + rest == [r] + Remaining(st, frames)
              case None =>
                && frames == old(frames)[|old(frames)| - 1 := Frame(old(frames)[|old(frames)| - 1].inode, block, off + D.RecLen(buf, off))]
                && Inodes(frames) == Inodes(old(frames))
                && Walk(st, Inodes(frames), block, off + D.RecLen(buf, off)) == Walk(st, Inodes(old(frames)), block, off)
    {
      hide Walk, BlockCount, BlockId, Remaining, Inodes, D.RecLen, D.InodeOf, Report, Dots, Malformed;
      InodesLength(frames);
      SetTop(block, off + D.RecLen(buf, off));
      var circular := OnPath(D.InodeOf(buf, off));
      if D.InodeOf(buf, off) == 0 || Dots(buf, off) || circular {
        StepSkip(st, Inodes(frames), block, off);
        return None;
      }
      StepReport(st, Inodes(frames), block, off);
      found := Some(Report(st, buf, off, |frames| - 1));
      if Descends(st, buf, off, |frames| - 1) {
        Pushed(st, frames, D.InodeOf(buf, off));
        frames := frames + [Frame(D.InodeOf(buf, off), 0, 0)];
      }
    }

    /** The inner loop: the top frame's directory, up to the next item. When there is none, the frame is left for its
        caller to pop. */
    method Scan() returns (found: Option<Found>)
      requires Valid() && frames != [] && frames[|frames| - 1].inode in st.inodes
      modifies this
      ensures Valid()
      ensures found.Some? ==> Remaining(st, old(frames)) == [found.value] + Remaining(st, frames)
      ensures found == None ==> |frames| == |old(frames)| && Remaining(st, frames[..|frames| - 1]) == Remaining(st, old(frames))
    {
      hide Walk, BlockCount, BlockId, Remaining, Inodes, D.RecLen, D.InodeOf, Report, Dots, Reported;
      ghost var n, path := |frames|, Inodes(frames);
      ghost var below := Remaining(st, frames[..|frames| - 1]);
      InodesLength(frames);
      var top := frames[|frames| - 1];
      var inode := st.inodes[top.inode];
      var total := BlockCount(st, inode);
      TopIs(st, frames);
      while top.block < total
        invariant Valid() && |frames| == n && top == frames[n - 1] && Inodes(frames) == path && st.inodes[Last(path)] == inode
        invariant path != [] && |path| <= MAX_FRAMES && Last(path) in st.inodes
        invariant frames[..n - 1] == old(frames)[..n - 1]
        invariant Walk(st, path, top.block, top.offset) + below == Remaining(st, old(frames))
        decreases total - top.block, if st.blockSize > top.offset then st.blockSize - top.offset else 0
      {
        var id := BlockId(st, inode, top.block);
        if id == 0 {
          StepBlock(st, path, top.block, top.offset);
          SetTop(top.block + 1, 0);
          top := frames[|frames| - 1];
          continue;
        }
        if lastRead != id {
          buf, lastRead := ContentOf(st, id), id;
        }
        if top.offset >= st.blockSize {
          StepBlock(st, path, top.block, top.offset);
          SetTop(top.block + 1, 0);
          top := frames[|frames| - 1];
          continue;
        }
        if Malformed(st, buf, top.offset) {
          StepBad(st, path, top.block, top.offset);
          SetTop(total, top.offset);
          return None;
        }
        found := Visit(top.block, top.offset);
        if found.Some? {
          return;
        }
        top := frames[|frames| - 1];
      }
      WalkOver(st, path, top.block, top.offset);
      return None;
    }
  }

  lemma {:induction false} TopIs(st: Store, fs: seq<Frame>)
    requires fs != []
    ensures Remaining(st, fs) == Walk(st, Inodes(fs), fs[|fs| - 1].block, fs[|fs| - 1].offset) + Remaining(st, fs[..|fs| - 1])
  {
    hide Walk;
  }

  lemma {:induction false} NewTop(st: Store, fs: seq<Frame>, block: nat, offset: nat)
    requires fs != []
    ensures var fs' := fs[|fs| - 1 := Frame(fs[|fs| - 1].inode, block, offset)];
            && Inodes(fs') == Inodes(fs)
            && Remaining(st, fs') == Walk(st, Inodes(fs), block, offset) + Remaining(st, fs[..|fs| - 1])
  {
    hide Walk;
    var fs' := fs[|fs| - 1 := Frame(fs[|fs| - 1].inode, block, offset)];
    assert fs'[..|fs'| - 1] == fs[..|fs| - 1];
  }

  lemma {:induction false} Pushed(st: Store, fs: seq<Frame>, inode: nat)
    ensures Remaining(st, fs + [Frame(inode, 0, 0)]) == Walk(st, Inodes(fs) + [inode], 0, 0) + Remaining(st, fs)
  {
    hide Walk;
    var fs' := fs + [Frame(inode, 0, 0)];
    assert fs'[..|fs'| - 1] == fs;
  }

  // ---- one step of the walk

  predicate InBlock(st: Store, path: seq<nat>, b: nat) {
    path != [] && |path| <= MAX_FRAMES && Last(path) in st.inodes && b < BlockCount(st, st.inodes[Last(path)])
  }

  lemma {:induction false} StepBlock(st: Store, path: seq<nat>, b: nat, off: nat)
    requires InBlock(st, path, b) && (BlockId(st, st.inodes[Last(path)], b) == 0 || off >= st.blockSize)
    ensures Walk(st, path, b, off) == Walk(st, path, b + 1, 0)
  {
  }

  lemma {:induction false} StepBad(st: Store, path: seq<nat>, b: nat, off: nat)
    requires InBlock(st, path, b) && BlockId(st, st.inodes[Last(path)], b) != 0 && off < st.blockSize
    requires var d := ContentOf(st, BlockId(st, st.inodes[Last(path)], b)); D.RecLen(d, off) < 8 || off + D.RecLen(d, off) > st.blockSize
    ensures Walk(st, path, b, off) == []
  {
  }

  lemma {:induction false} StepSkip(st: Store, path: seq<nat>, b: nat, off: nat)
    requires InBlock(st, path, b) && BlockId(st, st.inodes[Last(path)], b) != 0 && off < st.blockSize
    requires var d := ContentOf(st, BlockId(st, st.inodes[Last(path)], b)); !Malformed(st, d, off) && !Reported(d, off, path)
    ensures var d := ContentOf(st, BlockId(st, st.inodes[Last(path)], b)); Walk(st, path, b, off) == Walk(st, path, b, off + D.RecLen(d, off))
  {
  }

  lemma {:induction false} StepReport(st: Store, path: seq<nat>, b: nat, off: nat)
    requires InBlock(st, path, b) && BlockId(st, st.inodes[Last(path)], b) != 0 && off < st.blockSize
    requires var d := ContentOf(st, BlockId(st, st.inodes[Last(path)], b)); !Malformed(st, d, off) && Reported(d, off, path)
    ensures var d := ContentOf(st, BlockId(st, st.inodes[Last(path)], b));
            Walk(st, path, b, off) == [Report(st, d, off, |path| - 1)]
              + ((if Descends(st, d, off, |path| - 1) then Walk(st, path + [D.InodeOf(d, off)], 0, 0) else [])
                 + Walk(st, path, b, off + D.RecLen(d, off)))
  {
    hide Report, D.RecLen, D.InodeOf;
  }

  /** Past its last block, a directory has nothing to report. */
  lemma {:induction false} WalkOver(st: Store, path: seq<nat>, b: nat, off: nat)
    requires path != [] ==> Last(path) !in st.inodes || b >= BlockCount(st, st.inodes[Last(path)])
    ensures Walk(st, path, b, off) == []
  {
    hide BlockCount;
  }

  lemma {:induction false} StartRemaining(st: Store, start: nat)
    ensures Remaining(st, [Frame(start, 0, 0)]) == Walk(st, [start], 0, 0)
  {
    var fs := [Frame(start, 0, 0)];
    assert fs[..0] == [] && Inodes(fs) == [start];
    hide Walk;
  }

  /** A frame whose inode does not exist has nothing to report. */
  lemma {:induction false} NoInode(st: Store, fs: seq<Frame>)
    requires fs != [] && fs[|fs| - 1].inode !in st.inodes
    ensures Remaining(st, fs[..|fs| - 1]) == Remaining(st, fs)
  {
    InodesLength(fs);
    hide BlockCount, Inodes;
    assert Walk(st, Inodes(fs), fs[|fs| - 1].block, fs[|fs| - 1].offset) == [];
  }

  /** A caller's loop over `ext2_explorer_next` sees exactly the walk, and ends on every disk, cyclic ones included. */
  method Explore(st: Store, start: nat) returns (items: seq<Found>)
    requires st.blockSize > 0
    ensures items == Walk(st, [start], 0, 0)
  {
    hide Walk, Remaining;
    var it := new Iterator(st, start);
    items := [];
    var more := true;
    while more
      invariant it.Valid() && it.st == st && fresh(it) && items + Remaining(st, it.frames) == Walk(st, [start], 0, 0)
      invariant !more ==> Remaining(st, it.frames) == []
      decreases |Remaining(st, it.frames)| + (if more then 1 else 0)
    {
      ghost var before := Remaining(st, it.frames);
      var found := it.Next();
      if found.Some? {
        assert items + before == (items + [found.value]) + Remaining(st, it.frames);
        items := items + [found.value];
      } else {
        NothingLeft(st);
        more := false;
      }
    }
  }

  lemma {:induction false} NothingLeft(st: Store)
    ensures Remaining(st, []) == []
  {
  }
}
