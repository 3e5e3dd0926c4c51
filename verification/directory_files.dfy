/** Directories on the volume: looking up and adding names over all blocks (src/kernel/kern_ext2.c). */
module DirectoryFiles {
  import opened Bytes
  import opened Options
  import opened BlockMap
  import opened BlockTree
  import opened FileBytes
  import D = Directory
  import F = Files
  import M = Bitmaps

  /** The live entries of logical block `l`, in order; none when it is a hole. */
  ghost function Live(geo: M.Geometry, s: State, l: nat): seq<D.DirEntry> {
    if IsMapped(geo, s, l) then D.Entries(BlockAt(geo, s, l), 0) else []
  }

  /** The live entries of the blocks from `l` up to `total`, in order. */
  ghost function Listing(geo: M.Geometry, s: State, l: nat, total: nat): seq<D.DirEntry>
    decreases total - l
  {
    if l >= total then [] else Live(geo, s, l) + Listing(geo, s, l + 1, total)
  }

  lemma {:induction false} ListingLive(geo: M.Geometry, s: State, l: nat, total: nat)
    ensures forall i :: 0 <= i < |Listing(geo, s, l, total)| ==> Listing(geo, s, l, total)[i].inode != 0
    decreases total - l
  {
    hide D.Entries, IsMapped, BlockAt;
    if l < total {
      D.AllLive(BlockAt(geo, s, l), 0);
      ListingLive(geo, s, l + 1, total);
    }
  }

  /** Looking through a block, then through the rest. */
  lemma {:induction false} FindNext(geo: M.Geometry, s: State, l: nat, total: nat, name: seq<byte>)
    requires l < total
    ensures var found := D.Find(Live(geo, s, l), name);
            D.Find(Listing(geo, s, l, total), name) == if found != 0 then found else D.Find(Listing(geo, s, l + 1, total), name)
  {
    hide D.Entries, D.Find, IsMapped, BlockAt;
    D.AllLive(BlockAt(geo, s, l), 0);
    D.FindJoin(Live(geo, s, l), Listing(geo, s, l + 1, total), name);
  }

  predicate IsDirectory(mode: nat) {
    mode / 0x1000 % 0x10 == 4
  }

  /** `ext2_find_child` */
  method FindChild(vol: M.Volume, ino: Inode, mode: nat, name: seq<byte>) returns (inode: nat)
    requires Open(vol, ino, map[]) && Entries(vol.geo) > 0 && |ino.ptr| == POINTERS && vol.geo.blockSize <= 4096
    ensures inode == if mode / 4096 % 16 == 4 then D.Find(Listing(vol.geo, F.Now(vol, ino), 0, F.BlocksUpTo(vol.geo.blockSize, ino.size)), name) else 0
  {
    hide FileOk, Held, PosOf, At, D.Find, D.Entries, BlockMap.Owned, M.FirstClear, Listing;
    if !IsDirectory(mode) {
      return 0;
    }
    ghost var s := F.Now(vol, ino);
    F.NowDisk(vol, ino);
    var total := F.BlocksUpTo(vol.geo.blockSize, ino.size);
    var b := 0;
    while b < total
      invariant D.Find(Listing(vol.geo, s, 0, total), name) == D.Find(Listing(vol.geo, s, b, total), name)
    {
      var phys := GetBmap(vol, ino, b);
      HeldIs(s, PosOf(Entries(vol.geo), b));
      FindNext(vol.geo, s, b, total, name);
      NothingFound(name);
      if phys != 0 {
        F.MappedData(vol, ino, b);
        var found := D.ScanBlock(vol.disk[phys], name);
        if found != 0 {
          return found;
        }
      }
      b := b + 1;
    }
    NothingListed(vol.geo, s, b, total, name);
    return 0;
  }

  lemma {:induction false} NothingFound(name: seq<byte>)
    ensures D.Find([], name) == 0
  {
  }

  lemma {:induction false} NothingListed(geo: M.Geometry, s: State, l: nat, total: nat, name: seq<byte>)
    requires l >= total
    ensures D.Find(Listing(geo, s, l, total), name) == 0
  {
  }

  lemma {:induction false} HeldIs(s: State, p: Pos)
    ensures Held(s, p) == At(s.disk, s.ptr, p)
  {
  }

  /** From `s` to `s'`, the last of `total` blocks has one more entry at its end, and the others are the same. */
  ghost predicate GainsEntry(geo: M.Geometry, s: State, s': State, total: nat, e: D.DirEntry) {
    && total > 0 && (forall l: nat :: l < total - 1 ==> IsMapped(geo, s', l) == IsMapped(geo, s, l) && BlockAt(geo, s', l) == BlockAt(geo, s, l))
    && IsMapped(geo, s, total - 1) && IsMapped(geo, s', total - 1)
    && D.Entries(BlockAt(geo, s', total - 1), 0) == D.Entries(BlockAt(geo, s, total - 1), 0) + [e]
  }

  /** An append adds the entry at the end of the listing. */
  lemma {:induction false} ListingGains(geo: M.Geometry, s: State, s': State, l: nat, total: nat, e: D.DirEntry)
    requires GainsEntry(geo, s, s', total, e) && l < total
    ensures Listing(geo, s', l, total) == Listing(geo, s, l, total) + [e]
    decreases total - l
  {
    hide D.Entries, IsMapped, BlockAt;
    if l < total - 1 {
      ListingGains(geo, s, s', l + 1, total, e);
    } else {
      assert Listing(geo, s, total, total) == Listing(geo, s', total, total) == [];
    }
  }

  /** The name that was added is found with its own inode exactly when the first earlier entry that matches it, if
      any, has that inode too; with an inode that is new to the directory, exactly when no earlier entry matches it. */
  lemma {:induction false} NewNameFound(geo: M.Geometry, s: State, s': State, total: nat, e: D.DirEntry)
    requires GainsEntry(geo, s, s', total, e)
    ensures var es := Listing(geo, s, 0, total);
            && (D.Find(Listing(geo, s', 0, total), e.name) == e.inode <==> forall i :: D.FirstMatch(es, e.name, i) ==> es[i].inode == e.inode)
            && ((forall i :: 0 <= i < |es| ==> es[i].inode != e.inode) ==>
                  (D.Find(Listing(geo, s', 0, total), e.name) == e.inode <==> forall i :: 0 <= i < |es| ==> !D.Matches(e.name, es[i].name)))
  {
    hide D.Entries, D.Find, IsMapped, BlockAt, D.Matches, D.FirstMatch;
    ListingGains(geo, s, s', 0, total, e);
    ListingLive(geo, s, 0, total);
    D.NewLast(Listing(geo, s, 0, total), e);
  }

  /** Any name is answered as before exactly when an earlier entry matches it or the new one does not. */
  lemma {:induction false} FindAfter(geo: M.Geometry, s: State, s': State, total: nat, e: D.DirEntry, name: seq<byte>)
    requires GainsEntry(geo, s, s', total, e) && e.inode != 0
    ensures var es, es' := Listing(geo, s, 0, total), Listing(geo, s', 0, total);
            && D.Find(es', name) == (if D.Find(es, name) != 0 then D.Find(es, name) else if D.Matches(name, e.name) then e.inode else 0)
            && (D.Find(es', name) == D.Find(es, name) <==>
                  (exists i :: 0 <= i < |es| && D.Matches(name, es[i].name)) || !D.Matches(name, e.name))
  {
    hide D.Entries, IsMapped, BlockAt, D.Matches;
    var es := Listing(geo, s, 0, total);
    ListingGains(geo, s, s', 0, total, e);
    ListingLive(geo, s, 0, total);
    D.FindJoin(es, [e], name);
    D.FindFirst(es, name);
    assert [e][1..] == [];
  }

  /** The last block is there and its last live record has room for a name of `k` bytes. */
  ghost predicate CanAppend(geo: M.Geometry, s: State, total: nat, k: nat)
    requires total > 0
  {
    IsMapped(geo, s, total - 1) && D.Room(BlockAt(geo, s, total - 1), D.Padded(D.HEADER + k)).Some?
  }

  /** No entry is live, or the length of the last live record holds its entry and one with a name of `k` bytes, each rounded
      up to a multiple of 4. */
  ghost predicate HasRoom(d: D.Block, k: nat) {
    D.Entries(d, 0) == [] || exists p: nat :: D.IsLast(d, 0, p) && U16(d, p + 4) >= D.Padded(8 + d[p + 6] as nat) + D.Padded(8 + k)
  }

  lemma {:induction false} HasRoomIs(geo: M.Geometry, s: State, total: nat, k: nat)
    requires total > 0 && IsMapped(geo, s, total - 1) && D.Tiled(BlockAt(geo, s, total - 1), 0)
    ensures CanAppend(geo, s, total, k) <==> HasRoom(BlockAt(geo, s, total - 1), k)
  {
    hide D.Entries, D.Tiled, D.Room, IsMapped, BlockAt;
    D.RoomIff(BlockAt(geo, s, total - 1), k);
  }

  /** Nothing but the contents of the data block of logical block `l` changes. */
  ghost predicate OnlyBlock(geo: M.Geometry, s: State, s': State, l: nat) {
    && s'.ptr == s.ptr && s'.free == s.free && s'.own == s.own && s'.blocks == s.blocks && s'.disk.Keys == s.disk.Keys
    && forall b :: b in s.disk && b != Held(s, PosOf(Entries(geo), l)) ==> s'.disk[b] == s.disk[b]
  }

  lemma {:induction false} SomeBlocks(bs: nat, size: nat)
    requires bs > 0 && size > 0
    ensures F.BlocksUpTo(bs, size) > 0
  {
    F.WholeBlocks(bs, size);
  }

  lemma {:induction false} MappedIs(geo: M.Geometry, s: State, l: nat)
    ensures IsMapped(geo, s, l) == (Held(s, PosOf(Entries(geo), l)) != 0)
  {
  }

  lemma {:induction false} NoAppend(geo: M.Geometry, s: State, total: nat, k: nat)
    requires total > 0
    ensures !IsMapped(geo, s, total - 1) ==> !CanAppend(geo, s, total, k)
  {
  }

  lemma {:induction false} BlockIs(geo: M.Geometry, s: State, total: nat, k: nat)
    requires total > 0 && IsMapped(geo, s, total - 1) && Held(s, PosOf(Entries(geo), total - 1)) in s.disk
    ensures BlockAt(geo, s, total - 1) == s.disk[Held(s, PosOf(Entries(geo), total - 1))]
    ensures CanAppend(geo, s, total, k) == D.Room(BlockAt(geo, s, total - 1), D.Padded(D.HEADER + k)).Some?
  {
  }

  lemma {:induction false} Gained(geo: M.Geometry, s: State, s': State, total: nat, e: D.DirEntry, d: D.Block)
    requires Entries(geo) > 0 && 0 < total <= Capacity(Entries(geo)) && IsMapped(geo, s, total - 1)
    requires TreeOk(s.disk, s.ptr, Entries(geo), s.own) && s' == Overwritten(geo, s, total - 1, d)
    requires Held(s, PosOf(Entries(geo), total - 1)) in s.disk
    requires forall p :: Place(p, Entries(geo)) ==> Held(s', p) == Held(s, p)
    ensures BlockAt(geo, s', total - 1) == d && OnlyBlock(geo, s, s', total - 1)
    ensures D.Entries(d, 0) == D.Entries(BlockAt(geo, s, total - 1), 0) + [e] ==> GainsEntry(geo, s, s', total, e)
  {
    forall l: nat | l < total ensures IsMapped(geo, s', l) == IsMapped(geo, s, l)
      && BlockAt(geo, s', l) == if l == total - 1 then d else BlockAt(geo, s, l) {
      OverwrittenBlocks(geo, s, total - 1, d, l);
    }
    hide BlockAt, IsMapped, D.Entries, Held, PosOf, Place, Capacity;
  }

  /** `ext2_add_dir_entry` for a parent whose first and last blocks are allocated. */
  method AddDirEntry(vol: M.Volume, table: F.InodeTable, no: nat, ino: Inode, e: D.DirEntry) returns (ok: bool)
    requires Open(vol, ino, map[]) && Entries(vol.geo) > 0 && |ino.ptr| == POINTERS && 512 <= vol.geo.blockSize <= 4096
    requires 0 < ino.size && F.BlocksUpTo(vol.geo.blockSize, ino.size) <= Capacity(Entries(vol.geo)) && 0 < e.inode < 0x1_0000_0000
    requires IsMapped(vol.geo, F.Now(vol, ino), 0)
    modifies vol`disk, table
    ensures Open(vol, ino, map[])
    ensures !ok ==> F.Now(vol, ino) == old(F.Now(vol, ino)) && table.inodes == old(table.inodes)
    ensures var total := F.BlocksUpTo(vol.geo.blockSize, ino.size);
            total > 0 && (ok ==> IsMapped(vol.geo, old(F.Now(vol, ino)), total - 1)
                                 && OnlyBlock(vol.geo, old(F.Now(vol, ino)), F.Now(vol, ino), total - 1))
    ensures var total, s := F.BlocksUpTo(vol.geo.blockSize, ino.size), old(F.Now(vol, ino));
            total > 0 && (ok && D.Tiled(BlockAt(vol.geo, s, total - 1), 0) ==>
              GainsEntry(vol.geo, s, F.Now(vol, ino), total, e) && D.Tiled(BlockAt(vol.geo, F.Now(vol, ino), total - 1), 0))
    ensures ok <==> 0 < |e.name| <= D.MAX_NAME && CanAppend(vol.geo, old(F.Now(vol, ino)), F.BlocksUpTo(vol.geo.blockSize, ino.size), |e.name|)
    ensures var total, s := F.BlocksUpTo(vol.geo.blockSize, ino.size), old(F.Now(vol, ino));
            total > 0 && (IsMapped(vol.geo, s, total - 1) && D.Tiled(BlockAt(vol.geo, s, total - 1), 0) ==>
              && (ok <==> 0 < |e.name| <= 250 && HasRoom(BlockAt(vol.geo, s, total - 1), |e.name|))
              && (ok ==> D.TakesRest(BlockAt(vol.geo, s, total - 1), BlockAt(vol.geo, F.Now(vol, ino), total - 1), e)))
  {
    hide FileOk, Held, PosOf, At, D.Entries, D.Tiled, D.Room, D.TakesRest, HasRoom, BlockMap.Owned, Capacity, Place, F.BlocksUpTo, BlockAt, IsMapped, GainsEntry, OnlyBlock, CanAppend;
    ghost var s := F.Now(vol, ino);
    var total := F.BlocksUpTo(vol.geo.blockSize, ino.size);
    SomeBlocks(vol.geo.blockSize, ino.size);
    if |e.name| == 0 || |e.name| > D.MAX_NAME {
      return false;
    }
    F.NowDisk(vol, ino);
    var phys := GetBmap(vol, ino, total - 1);
    HeldIs(s, PosOf(Entries(vol.geo), total - 1));
    MappedIs(vol.geo, s, total - 1);
    NoAppend(vol.geo, s, total, |e.name|);
    if IsMapped(vol.geo, s, total - 1) && D.Tiled(BlockAt(vol.geo, s, total - 1), 0) { HasRoomIs(vol.geo, s, total, |e.name|); }
    if phys == 0 {
      return false;
    }
    F.MappedData(vol, ino, total - 1);
    var d := vol.disk[phys];
    var d';
    ok, d' := D.AppendEntry(d, e);
    BlockIs(vol.geo, s, total, |e.name|);
    if !ok {
      return false;
    }
    F.OpenTree(vol, ino);
    F.Overwrite(vol, ino, total - 1, phys, d');
    Gained(vol.geo, s, F.Now(vol, ino), total, e, d');
    table.Write(no, ino);
  }
}
