/** The kernel heap of src/kernel/kern_vmm.c as a list of blocks in address order: first fit, splitting,
    growth by whole pages and coalescing, with the 64-bit arithmetic of the source. */
module HeapSpec {
  import opened Options

  const U64: nat := 0x1_0000_0000_0000_0000
  const KHEAP_START: nat := 0xFFFF_FFFF_8800_0000
  const PAGE_SIZE: nat := 0x1000
  const HEADER: nat := 32
  const MIN_SPLIT: nat := 16

  datatype Block = Block(addr: nat, size: nat, free: bool)

  /** The blocks, the end of the heap, and how many more pages the kernel can map there: those for which it has a
      frame, and frames for the page tables missing on the way. */
  datatype Heap = Heap(blocks: seq<Block>, end: nat, backed: nat)

  function NextAddr(b: Block): nat {
    b.addr + HEADER + b.size
  }

  /** Headers and payloads tile [start, end) in address order; sizes are multiples of 16. */
  ghost predicate Tiles(bs: seq<Block>, start: nat, end: nat) {
    if bs == [] then start == end
    else bs[0].addr == start && bs[0].size % 16 == 0 && Tiles(bs[1..], NextAddr(bs[0]), end)
  }

  ghost predicate Wf(h: Heap) {
    && h.blocks != [] && Tiles(h.blocks, KHEAP_START, h.end)
    && h.end < U64 && h.end % PAGE_SIZE == 0
  }

  lemma {:induction false} TilesConcat(xs: seq<Block>, ys: seq<Block>, start: nat, mid: nat, end: nat)
    requires Tiles(xs, start, mid)
    ensures Tiles(xs + ys, start, end) <==> Tiles(ys, mid, end)
  {
    if xs == [] {
      assert xs + ys == ys;
    } else {
      assert (xs + ys)[1..] == xs[1..] + ys;
      TilesConcat(xs[1..], ys, NextAddr(xs[0]), mid, end);
    }
  }

  /** Cutting a tiling at block `k`. */
  lemma {:induction false} TilesSplit(bs: seq<Block>, start: nat, end: nat, k: nat)
    requires Tiles(bs, start, end) && k <= |bs|
    ensures var mid := if k < |bs| then bs[k].addr else end;
            start <= mid <= end && Tiles(bs[..k], start, mid) && Tiles(bs[k..], mid, end)
    ensures k < |bs| ==> bs[k].size % 16 == 0 && NextAddr(bs[k]) <= end
  {
    if k == 0 {
      assert bs[..0] == [] && bs[0..] == bs;
      if bs != [] { TilesSpan(bs[1..], NextAddr(bs[0]), end); }
    } else {
      TilesSplit(bs[1..], NextAddr(bs[0]), end, k - 1);
      assert bs[1..][..k - 1] == bs[..k][1..] && bs[1..][k - 1..] == bs[k..];
    }
  }

  lemma {:induction false} TilesSpan(bs: seq<Block>, start: nat, end: nat)
    requires Tiles(bs, start, end)
    ensures start <= end
  {
    if bs != [] { TilesSpan(bs[1..], NextAddr(bs[0]), end); }
  }

  /** Blocks further along the list start after the header and payload of earlier ones. */
  lemma {:induction false} TilesOrdered(bs: seq<Block>, start: nat, end: nat, i: nat, j: nat)
    requires Tiles(bs, start, end) && i < j < |bs|
    ensures start <= bs[i].addr && NextAddr(bs[i]) <= bs[j].addr && NextAddr(bs[j]) <= end
    ensures j == i + 1 ==> NextAddr(bs[i]) == bs[j].addr
  {
    TilesSplit(bs, start, end, j);
    TilesSplit(bs, start, end, i);
    TilesSplit(bs[i..], bs[i].addr, end, j - i);
    TilesSplit(bs[i..][1..], NextAddr(bs[i]), end, j - i - 1);
  }

  /** A 16-byte aligned start keeps every header, and so every payload, 16-byte aligned. */
  lemma {:induction false} TilesAligned(bs: seq<Block>, start: nat, end: nat, k: nat)
    requires Tiles(bs, start, end) && k < |bs| && start % 16 == 0
    ensures bs[k].addr % 16 == 0
  {
    if k > 0 {
      TilesAligned(bs[1..], NextAddr(bs[0]), end, k - 1);
    }
  }

  // ------------------------------------------------------------------ allocation

  /** `align_size`, which wraps past the top of the 64-bit range. */
  function Align(size: nat): nat
    requires size < U64
  {
    if size % 16 == 0 then size else (size + (16 - size % 16)) % U64
  }

  lemma {:induction false} AlignHolds(size: nat)
    requires size < U64
    ensures Align(size) % 16 == 0 && Align(size) < U64
    ensures Align(size) >= size <==> size <= U64 - 16
    ensures size <= U64 - 16 ==> Align(size) < size + 16
  {
  }

  predicate Fits(b: Block, n: nat) {
    b.free && b.size >= n
  }

  /** The index of the first block that fits, or the number of blocks. */
  ghost function FirstFit(bs: seq<Block>, n: nat): (k: nat)
    ensures k <= |bs| && (k < |bs| ==> Fits(bs[k], n))
    ensures forall j :: 0 <= j < k ==> !Fits(bs[j], n)
  {
    if bs == [] || Fits(bs[0], n) then 0 else 1 + FirstFit(bs[1..], n)
  }

  /** Taking `n` bytes of a free block, leaving the rest as a free block when it can hold a header and 16 bytes. */
  function Carved(b: Block, n: nat): (r: seq<Block>)
    requires b.size >= n
  {
    if b.size >= n + HEADER + MIN_SPLIT
    then [Block(b.addr, n, false), Block(b.addr + HEADER + n, b.size - n - HEADER, true)]
    else [Block(b.addr, b.size, false)]
  }

  /** A free block is split exactly when the rest can hold a header of 32 bytes and a payload of 16; the rest lies behind. */
  lemma {:induction false} CarvedIs(b: Block, n: nat)
    requires b.size >= n
    ensures |Carved(b, n)| == 2 <==> b.size >= n + 48
    ensures Carved(b, n) != [] && Carved(b, n)[0].addr == b.addr && !Carved(b, n)[0].free
    ensures |Carved(b, n)| == 1 ==> Carved(b, n)[0].size == b.size
    ensures |Carved(b, n)| == 2 ==>
              var rest := Carved(b, n)[1];
              Carved(b, n)[0].size == n && rest.free && rest.addr == b.addr + 32 + n && rest.addr + 32 + rest.size == b.addr + 32 + b.size
  {
  }

  ghost function Carve(bs: seq<Block>, k: nat, n: nat): seq<Block>
    requires k < |bs| && bs[k].size >= n
  {
    bs[..k] + Carved(bs[k], n) + bs[k + 1..]
  }

  /** Where `heap_expand` wants the heap to end, in 64-bit arithmetic. */
  function TargetEnd(end: nat, needed: nat): nat {
    var t := (end + needed) % U64;
    if t % PAGE_SIZE == 0 then t else (t - t % PAGE_SIZE + PAGE_SIZE) % U64
  }

  /** How many pages `heap_expand` asks for. */
  function PagesWanted(end: nat, needed: nat): nat {
    var want := TargetEnd(end, needed) - end;
    if want <= 0 then 0 else (want + PAGE_SIZE - 1) / PAGE_SIZE
  }

  /** How many pages `heap_expand` maps: as many as it wants or as can be backed. */
  function PagesGained(h: Heap, needed: nat): (p: nat)
    ensures p <= h.backed
  {
    if PagesWanted(h.end, needed) <= h.backed then PagesWanted(h.end, needed) else h.backed
  }

  function Grow(h: Heap, pages: nat): Heap
    requires 0 < pages <= h.backed
  {
    Heap(h.blocks + [Block(h.end, pages * PAGE_SIZE - HEADER, true)], h.end + pages * PAGE_SIZE, h.backed - pages)
  }

  /** `kmalloc` for an aligned request: carve the first fit, else grow the heap and look again. */
  ghost function Malloc(h: Heap, n: nat): (r: (Heap, Option<nat>))
    decreases h.backed
  {
    var k := FirstFit(h.blocks, n);
    if k < |h.blocks| then (h.(blocks := Carve(h.blocks, k, n)), Some(h.blocks[k].addr + HEADER)) else
    var pages := PagesGained(h, (n + HEADER) % U64);
    if pages == 0 then (h, None) else Malloc(Grow(h, pages), n)
  }

  lemma {:induction false} CarveWf(h: Heap, k: nat, n: nat)
    requires Wf(h) && k < |h.blocks| && Fits(h.blocks[k], n) && n % 16 == 0
    ensures Wf(h.(blocks := Carve(h.blocks, k, n)))
  {
    hide Tiles;
    var bs := h.blocks;
    var b, mid := bs[k], Carved(bs[k], n);
    TilesSplit(bs, KHEAP_START, h.end, k);
    TilesHead(bs, k, h.end);
    CarvedTile(b, n);
    TilesConcat(mid, bs[k + 1..], b.addr, NextAddr(b), h.end);
    TilesConcat(bs[..k], mid + bs[k + 1..], KHEAP_START, b.addr, h.end);
    assert Carve(bs, k, n) == bs[..k] + (mid + bs[k + 1..]);
  }

  lemma {:induction false} TilesHead(bs: seq<Block>, k: nat, end: nat)
    requires k < |bs| && Tiles(bs[k..], bs[k].addr, end)
    ensures Tiles(bs[k + 1..], NextAddr(bs[k]), end) && bs[k].size % 16 == 0
  {
    assert bs[k..][1..] == bs[k + 1..];
  }

  lemma {:induction false} CarvedTile(b: Block, n: nat)
    requires b.size >= n && b.size % 16 == 0 && n % 16 == 0
    ensures Tiles(Carved(b, n), b.addr, NextAddr(b))
  {
    var mid := Carved(b, n);
    assert mid[1..] == [] || mid[1..][1..] == [];
  }

  /** The pages gained stay below the top of the address space; without a wrap they are just enough, or all
      that is left. */
  lemma {:induction false} PagesWithin(h: Heap, needed: nat)
    requires h.end < U64 && h.end % PAGE_SIZE == 0
    ensures PagesGained(h, needed) > 0 ==> h.end + PagesGained(h, needed) * PAGE_SIZE < U64
    ensures 0 < needed <= RoomAbove(h.end) ==>
              var want := (needed + PAGE_SIZE - 1) / PAGE_SIZE;
              PagesGained(h, needed) == if want <= h.backed then want else h.backed
  {
    hide TargetEnd;
    WantedBelow(h.end, needed);
    if 0 < needed <= RoomAbove(h.end) { WantedIs(h.end, needed); }
    var w, p := PagesWanted(h.end, needed), PagesGained(h, needed);
    assert p <= w && p * PAGE_SIZE <= w * PAGE_SIZE;
    hide PagesWanted, PagesGained;
  }

  lemma {:induction false} TargetAligned(end: nat, needed: nat)
    ensures TargetEnd(end, needed) % PAGE_SIZE == 0 && TargetEnd(end, needed) < U64
  {
    var t := (end + needed) % U64;
    var q, r := t / PAGE_SIZE, t % PAGE_SIZE;
    assert t == q * PAGE_SIZE + r && U64 == 0x10_0000_0000_0000 * PAGE_SIZE;
    if r != 0 {
      assert t - r + PAGE_SIZE == (q + 1) * PAGE_SIZE <= U64;
    }
  }

  /** The pages asked for reach the target. */
  lemma {:induction false} WantedBelow(end: nat, needed: nat)
    requires end < U64 && end % PAGE_SIZE == 0
    ensures PagesWanted(end, needed) > 0 ==> end + PagesWanted(end, needed) * PAGE_SIZE == TargetEnd(end, needed) < U64
  {
    TargetAligned(end, needed);
    hide TargetEnd;
    var e, t := end / PAGE_SIZE, TargetEnd(end, needed) / PAGE_SIZE;
    assert end == e * PAGE_SIZE && TargetEnd(end, needed) == t * PAGE_SIZE;
    if t > e { assert ((t - e) * PAGE_SIZE + PAGE_SIZE - 1) / PAGE_SIZE == t - e; }
  }

  lemma {:induction false} WantedIs(end: nat, needed: nat)
    requires end % PAGE_SIZE == 0 && 0 < needed <= RoomAbove(end)
    ensures PagesWanted(end, needed) == (needed + PAGE_SIZE - 1) / PAGE_SIZE
  {
    var e, q, r := end / PAGE_SIZE, needed / PAGE_SIZE, needed % PAGE_SIZE;
    assert end + needed == (e + q) * PAGE_SIZE + r && (end + needed) % U64 == end + needed;
    assert (end + needed) % PAGE_SIZE == r;
    if r == 0 {
      assert TargetEnd(end, needed) == end + needed && (needed + PAGE_SIZE - 1) / PAGE_SIZE == q;
    } else {
      assert TargetEnd(end, needed) == end + (q + 1) * PAGE_SIZE && (needed + PAGE_SIZE - 1) / PAGE_SIZE == q + 1;
    }
  }

  /** The largest growth that does not wrap past the top of the address space. */
  function RoomAbove(end: nat): int {
    U64 - PAGE_SIZE - end
  }

  lemma {:induction false} GrowWf(h: Heap, needed: nat)
    requires Wf(h) && PagesGained(h, needed) > 0
    ensures Wf(Grow(h, PagesGained(h, needed)))
  {
    PagesWithin(h, needed);
    GrowTiles(h, PagesGained(h, needed));
  }

  lemma {:induction false} GrowTiles(h: Heap, pages: nat)
    requires Wf(h) && 0 < pages <= h.backed && h.end + pages * PAGE_SIZE < U64
    ensures Wf(Grow(h, pages))
  {
    hide Tiles;
    PageArithmetic(h.end, pages);
    var b := Block(h.end, pages * PAGE_SIZE - HEADER, true);
    OneTile(b, h.end + pages * PAGE_SIZE);
    TilesConcat(h.blocks, [b], KHEAP_START, h.end, h.end + pages * PAGE_SIZE);
  }

  lemma {:induction false} PageArithmetic(end: nat, pages: nat)
    requires end % PAGE_SIZE == 0 && pages > 0
    ensures (end + pages * PAGE_SIZE) % PAGE_SIZE == 0
    ensures pages * PAGE_SIZE >= HEADER && (pages * PAGE_SIZE - HEADER) % 16 == 0
  {
    assert end + pages * PAGE_SIZE == (end / PAGE_SIZE + pages) * PAGE_SIZE;
    assert pages * PAGE_SIZE - HEADER == (pages * 256 - 2) * 16;
  }

  lemma {:induction false} OneTile(b: Block, end: nat)
    requires b.size % 16 == 0 && NextAddr(b) == end
    ensures Tiles([b], b.addr, end)
  {
    assert [b][1..] == [];
  }

  // ------------------------------------------------------------------ live blocks

  ghost function LiveOf(bs: seq<Block>): seq<Block> {
    if bs == [] then [] else (if bs[0].free then [] else [bs[0]]) + LiveOf(bs[1..])
  }

  lemma {:induction false} LiveConcat(xs: seq<Block>, ys: seq<Block>)
    ensures LiveOf(xs + ys) == LiveOf(xs) + LiveOf(ys)
  {
    if xs == [] {
      assert xs + ys == ys;
    } else {
      assert (xs + ys)[1..] == xs[1..] + ys;
      LiveConcat(xs[1..], ys);
    }
  }

  lemma {:induction false} LiveAround(bs: seq<Block>, k: nat, mid: seq<Block>)
    requires k < |bs|
    ensures LiveOf(bs) == LiveOf(bs[..k]) + LiveOf([bs[k]]) + LiveOf(bs[k + 1..])
    ensures LiveOf(bs[..k] + mid + bs[k + 1..]) == LiveOf(bs[..k]) + LiveOf(mid) + LiveOf(bs[k + 1..])
  {
    LiveConcat(bs[..k] + mid, bs[k + 1..]);
    LiveConcat(bs[..k], mid);
    LiveConcat(bs[..k] + [bs[k]], bs[k + 1..]);
    LiveConcat(bs[..k], [bs[k]]);
    assert bs[..k] + [bs[k]] + bs[k + 1..] == bs;
  }

  lemma {:induction false} CarvedLive(b: Block, n: nat)
    requires Fits(b, n)
    ensures LiveOf(Carved(b, n)) == [Carved(b, n)[0]] && LiveOf([b]) == []
    ensures Carved(b, n)[0].addr == b.addr && Carved(b, n)[0].size >= n
  {
    var m := Carved(b, n);
    assert [b][1..] == [];
    if |m| == 2 {
      assert m[1..] == [m[1]] && m[1..][1..] == [];
      assert LiveOf(m[1..]) == [];
    } else {
      assert m[1..] == [];
    }
  }

  /** Carving makes exactly one more block live: the one that is handed out. */
  lemma {:induction false} CarveLive(bs: seq<Block>, k: nat, n: nat)
    requires k < |bs| && Fits(bs[k], n)
    ensures var g := Carved(bs[k], n)[0];
            multiset(LiveOf(Carve(bs, k, n))) == multiset(LiveOf(bs)) + multiset{g}
  {
    CarvedLive(bs[k], n);
    LiveAround(bs, k, Carved(bs[k], n));
  }

  /** `g` is handed out: the live blocks are the old ones and `g`, which holds the request. */
  ghost predicate Granted(old': Heap, new': Heap, p: nat, n: nat, g: Block) {
    && g.addr + HEADER == p && !g.free && g.size >= n
    && multiset(LiveOf(new'.blocks)) == multiset(LiveOf(old'.blocks)) + multiset{g}
  }

  lemma {:induction false} MallocSound(h: Heap, n: nat) returns (g: Block)
    requires Wf(h) && n < U64 && n % 16 == 0
    ensures Wf(Malloc(h, n).0)
    ensures Malloc(h, n).1.Some? ==> Granted(h, Malloc(h, n).0, Malloc(h, n).1.value, n, g)
    ensures Malloc(h, n).1.None? ==> LiveOf(Malloc(h, n).0.blocks) == LiveOf(h.blocks)
    ensures Malloc(h, n).1.Some? && n == 0 ==> g.size == ZeroGrant(h)
    decreases h.backed
  {
    hide TargetEnd, Wf, Carve, LiveOf;
    var k := FirstFit(h.blocks, n);
    g := Block(0, 0, false);
    if k < |h.blocks| {
      g := CarveGranted(h, k, n);
    } else {
      var needed := (n + HEADER) % U64;
      var pages := PagesGained(h, needed);
      if pages > 0 {
        GrowWf(h, needed);
        GrowLive(h, pages);
        g := MallocSound(Grow(h, pages), n);
        ZeroGrantGrown(h, pages);
      }
    }
  }

  /** The payload that a request rounded to 0 is granted: none, unless the first free block is too small to split. */
  ghost function ZeroGrant(h: Heap): nat {
    var k := FirstFit(h.blocks, 0);
    if k < |h.blocks| && h.blocks[k].size < HEADER + MIN_SPLIT then h.blocks[k].size else 0
  }

  lemma {:induction false} ZeroGrantGrown(h: Heap, pages: nat)
    requires 0 < pages <= h.backed
    ensures FirstFit(h.blocks, 0) == |h.blocks| ==> ZeroGrant(Grow(h, pages)) == ZeroGrant(h) == 0
  {
    FirstFitSnoc(h.blocks, Block(h.end, pages * PAGE_SIZE - HEADER, true), 0);
  }

  /** Carving a block that fits grants it. */
  lemma {:induction false} CarveGranted(h: Heap, k: nat, n: nat) returns (g: Block)
    requires Wf(h) && k < |h.blocks| && Fits(h.blocks[k], n) && n % 16 == 0
    ensures Wf(h.(blocks := Carve(h.blocks, k, n)))
    ensures Granted(h, h.(blocks := Carve(h.blocks, k, n)), h.blocks[k].addr + HEADER, n, g)
    ensures g.size == if h.blocks[k].size >= n + HEADER + MIN_SPLIT then n else h.blocks[k].size
  {
    hide Tiles, LiveOf, Carve;
    CarveWf(h, k, n);
    CarvedLive(h.blocks[k], n);
    CarveLive(h.blocks, k, n);
    g := Carved(h.blocks[k], n)[0];
  }

  lemma {:induction false} GrowLive(h: Heap, pages: nat)
    requires 0 < pages <= h.backed
    ensures LiveOf(Grow(h, pages).blocks) == LiveOf(h.blocks)
  {
    var b := Block(h.end, pages * PAGE_SIZE - HEADER, true);
    LiveConcat(h.blocks, [b]);
    assert [b][1..] == [];
  }

  /** Two blocks of a well-formed heap do not overlap. */
  lemma {:induction false} BlocksDisjoint(h: Heap, i: nat, j: nat)
    requires Wf(h) && i < |h.blocks| && j < |h.blocks| && i != j
    ensures NextAddr(h.blocks[i]) <= h.blocks[j].addr || NextAddr(h.blocks[j]) <= h.blocks[i].addr
    ensures h.blocks[i] != h.blocks[j]
  {
    if i < j { TilesOrdered(h.blocks, KHEAP_START, h.end, i, j); } else { TilesOrdered(h.blocks, KHEAP_START, h.end, j, i); }
  }

  /** First fit is the lowest address that fits. */
  lemma {:induction false} FirstFitLowest(h: Heap, n: nat, j: nat)
    requires Wf(h) && j < |h.blocks| && Fits(h.blocks[j], n)
    ensures FirstFit(h.blocks, n) < |h.blocks|
    ensures Malloc(h, n).1 == Some(h.blocks[FirstFit(h.blocks, n)].addr + HEADER)
    ensures Malloc(h, n).1.value <= h.blocks[j].addr + HEADER
  {
    var k := FirstFit(h.blocks, n);
    if k < j { TilesOrdered(h.blocks, KHEAP_START, h.end, k, j); }
  }

  // ------------------------------------------------------------------ when an allocation fails

  ghost function FrameShort(h: Heap, n: nat): bool {
    n + HEADER > RoomAbove(h.end) || (n + HEADER + PAGE_SIZE - 1) / PAGE_SIZE > h.backed
  }

  /** An aligned request fails exactly when no block fits and the heap cannot grow by enough whole pages:
      too few that can be backed, or an end address that wraps past 2^64. */
  lemma {:induction false} MallocNullIff(h: Heap, n: nat)
    requires Wf(h) && n < U64 && n % 16 == 0
    ensures Malloc(h, n).1.None? <==> FirstFit(h.blocks, n) == |h.blocks| && FrameShort(h, n)
    decreases h.backed
  {
    hide Tiles, TargetEnd;
    TilesSpan(h.blocks, KHEAP_START, h.end);
    var needed := (n + HEADER) % U64;
    var pages := PagesGained(h, needed);
    if FirstFit(h.blocks, n) == |h.blocks| && pages > 0 {
      var h' := Grow(h, pages);
      GrowWf(h, needed);
      GrowFit(h, pages, n);
      GrowthSuffices(h, n);
      MallocNullIff(h', n);
    } else if FirstFit(h.blocks, n) == |h.blocks| {
      GrowthSuffices(h, n);
    }
  }

  lemma {:induction false} GrowthSuffices(h: Heap, n: nat)
    requires h.end < U64 && h.end % PAGE_SIZE == 0 && h.end >= KHEAP_START && n < U64 && n % 16 == 0
    ensures var pages := PagesGained(h, (n + HEADER) % U64);
            && (pages == 0 ==> FrameShort(h, n))
            && (pages > 0 ==> (pages * PAGE_SIZE - HEADER >= n <==> !FrameShort(h, n)))
            && (pages > 0 && FrameShort(h, n) ==> FrameShort(Grow(h, pages), n))
  {
    hide PagesGained;
    var pages := PagesGained(h, (n + HEADER) % U64);
    PagesWithin(h, (n + HEADER) % U64);
    if n + HEADER > RoomAbove(h.end) {
      BelowTop(h.end, pages);
    } else {
      assert (n + HEADER) % U64 == n + HEADER;
    }
  }

  lemma {:induction false} BelowTop(end: nat, pages: nat)
    requires end % PAGE_SIZE == 0 && end < U64
    ensures end + pages * PAGE_SIZE < U64 ==> pages * PAGE_SIZE <= RoomAbove(end)
  {
    var q := end / PAGE_SIZE;
    assert end + pages * PAGE_SIZE == (q + pages) * PAGE_SIZE;
  }

  lemma {:induction false} FirstFitSnoc(bs: seq<Block>, b: Block, n: nat)
    ensures FirstFit(bs + [b], n) == if FirstFit(bs, n) < |bs| || Fits(b, n) then FirstFit(bs, n) else |bs| + 1
  {
    if bs == [] {
      assert bs + [b] == [b] && [b][1..] == [];
    } else {
      assert (bs + [b])[1..] == bs[1..] + [b];
      FirstFitSnoc(bs[1..], b, n);
    }
  }

  lemma {:induction false} GrowFit(h: Heap, pages: nat, n: nat)
    requires 0 < pages <= h.backed && FirstFit(h.blocks, n) == |h.blocks|
    ensures var bs' := Grow(h, pages).blocks;
            FirstFit(bs', n) < |bs'| <==> pages * PAGE_SIZE - HEADER >= n
  {
    FirstFitSnoc(h.blocks, Block(h.end, pages * PAGE_SIZE - HEADER, true), n);
  }

  /** A concrete failure with memory to spare: asking for a little under 2 GiB wraps the target address. */
  lemma {:induction false} HugeRequestFails(h: Heap)
    requires Wf(h) && h.backed >= 0x10_0000 && forall k :: 0 <= k < |h.blocks| ==> h.blocks[k].size < 0x7800_0000
    ensures h.end + 0x7800_0000 >= U64 && Malloc(h, 0x7800_0000).1.None?
    ensures (0x7800_0000 + HEADER + PAGE_SIZE - 1) / PAGE_SIZE <= h.backed
  {
    TilesSpan(h.blocks, KHEAP_START, h.end);
    MallocNullIff(h, 0x7800_0000);
    var k := FirstFit(h.blocks, 0x7800_0000);
  }

  /** A request within 16 bytes of 2^64 is aligned to 0, so the block handed out need not hold it. */
  lemma {:induction false} TopRequestWraps()
    ensures Align(U64 - 1) == 0
  {
    AlignHolds(U64 - 1);
  }

  // ------------------------------------------------------------------ freeing

  /** The coalescing pass of `kfree`. */
  ghost function Coalesce(bs: seq<Block>): seq<Block>
    decreases |bs|
  {
    if |bs| < 2 then bs
    else if bs[0].free && bs[1].free
    then Coalesce([Block(bs[0].addr, bs[0].size + HEADER + bs[1].size, true)] + bs[2..])
    else [bs[0]] + Coalesce(bs[1..])
  }

  ghost predicate NoFreeNeighbours(bs: seq<Block>) {
    forall k :: 0 <= k < |bs| - 1 ==> !(bs[k].free && bs[k + 1].free)
  }

  function Freed(bs: seq<Block>, k: nat): seq<Block>
    requires k < |bs|
  {
    bs[k := bs[k].(free := true)]
  }

  ghost function Free(h: Heap, k: nat): Heap
    requires k < |h.blocks|
  {
    if h.blocks[k].free then h else h.(blocks := Coalesce(Freed(h.blocks, k)))
  }

  lemma {:induction false} CoalesceTiles(bs: seq<Block>, start: nat, end: nat)
    requires Tiles(bs, start, end)
    ensures Tiles(Coalesce(bs), start, end) && (bs != [] ==> Coalesce(bs) != [])
    decreases |bs|
  {
    if |bs| >= 2 {
      if bs[0].free && bs[1].free {
        var bs' := [Block(bs[0].addr, bs[0].size + HEADER + bs[1].size, true)] + bs[2..];
        assert bs[1..][1..] == bs[2..] && bs'[1..] == bs[2..];
        CoalesceTiles(bs', start, end);
      } else {
        CoalesceTiles(bs[1..], NextAddr(bs[0]), end);
      }
    }
  }

  /** Coalescing starts with a block at the same address that is free exactly when the first block was. */
  lemma {:induction false} CoalesceHead(bs: seq<Block>)
    requires bs != []
    ensures Coalesce(bs) != [] && Coalesce(bs)[0].addr == bs[0].addr && Coalesce(bs)[0].free == bs[0].free
    decreases |bs|
  {
    if |bs| >= 2 && bs[0].free && bs[1].free {
      CoalesceHead([Block(bs[0].addr, bs[0].size + HEADER + bs[1].size, true)] + bs[2..]);
    }
  }

  lemma {:induction false} CoalesceSeparates(bs: seq<Block>)
    ensures NoFreeNeighbours(Coalesce(bs))
    decreases |bs|
  {
    if |bs| >= 2 {
      if bs[0].free && bs[1].free {
        CoalesceSeparates([Block(bs[0].addr, bs[0].size + HEADER + bs[1].size, true)] + bs[2..]);
      } else {
        CoalesceSeparates(bs[1..]);
        CoalesceHead(bs[1..]);
        var r := Coalesce(bs[1..]);
        assert forall k :: 0 <= k < |r| - 1 ==> !(r[k].free && r[k + 1].free);
      }
    }
  }

  lemma {:induction false} CoalesceLive(bs: seq<Block>)
    ensures LiveOf(Coalesce(bs)) == LiveOf(bs)
    decreases |bs|
  {
    if |bs| >= 2 {
      if bs[0].free && bs[1].free {
        var bs' := [Block(bs[0].addr, bs[0].size + HEADER + bs[1].size, true)] + bs[2..];
        assert bs[1..][1..] == bs[2..] && bs'[1..] == bs[2..];
        CoalesceLive(bs');
      } else {
        CoalesceLive(bs[1..]);
        assert ([bs[0]] + Coalesce(bs[1..]))[1..] == Coalesce(bs[1..]);
      }
    }
  }

  /** Freeing a live block removes exactly it from the live blocks and leaves no two free neighbours. */
  lemma {:induction false} FreeSound(h: Heap, k: nat)
    requires Wf(h) && k < |h.blocks|
    ensures Wf(Free(h, k)) && (h.blocks[k].free ==> Free(h, k) == h)
    ensures !h.blocks[k].free ==>
              && NoFreeNeighbours(Free(h, k).blocks)
              && multiset(LiveOf(h.blocks)) == multiset(LiveOf(Free(h, k).blocks)) + multiset{h.blocks[k]}
  {
    if !h.blocks[k].free {
      var bs' := Freed(h.blocks, k);
      FreedTiles(h.blocks, KHEAP_START, h.end, k);
      CoalesceTiles(bs', KHEAP_START, h.end);
      CoalesceSeparates(bs');
      CoalesceLive(bs');
      FreedLive(h.blocks, k);
    }
  }

  lemma {:induction false} FreedLive(bs: seq<Block>, k: nat)
    requires k < |bs| && !bs[k].free
    ensures multiset(LiveOf(bs)) == multiset(LiveOf(Freed(bs, k))) + multiset{bs[k]}
  {
    hide LiveOf;
    var f := bs[k].(free := true);
    LiveAround(bs, k, [f]);
    assert Freed(bs, k) == bs[..k] + [f] + bs[k + 1..];
    LiveOne(f);
    LiveOne(bs[k]);
  }

  lemma {:induction false} LiveOne(b: Block)
    ensures LiveOf([b]) == if b.free then [] else [b]
  {
    assert [b][1..] == [];
  }

  lemma {:induction false} FreedTiles(bs: seq<Block>, start: nat, end: nat, k: nat)
    requires Tiles(bs, start, end) && k < |bs|
    ensures Tiles(Freed(bs, k), start, end)
  {
    if k > 0 {
      FreedTiles(bs[1..], NextAddr(bs[0]), end, k - 1);
      assert Freed(bs, k)[1..] == Freed(bs[1..], k - 1);
    } else {
      assert Freed(bs, 0)[1..] == bs[1..];
    }
  }
}
