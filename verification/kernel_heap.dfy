/** `kmalloc`, `kfree` and `kern_realloc` of src/kernel/kern_vmm.c on flat memory: block headers are three
    words (size, is_free, next) in front of each payload, in the same memory as the payloads. */
module KernelHeap {
  import opened HeapSpec
  import opened Options

  const HEAP_MIN_SIZE: nat := 0x40000

  /** 64-bit words by byte address. */
  type Memory = map<nat, nat>

  ghost predicate Mapped(mem: Memory, end: nat) {
    forall a :: KHEAP_START <= a < end && a % 8 == 0 ==> a in mem
  }

  ghost predicate HeaderIs(mem: Memory, b: Block, next: nat) {
    && b.addr in mem && b.addr + 8 in mem && b.addr + 16 in mem
    && mem[b.addr] == b.size && mem[b.addr + 8] == (if b.free then 1 else 0) && mem[b.addr + 16] == next
  }

  function HeadAddr(bs: seq<Block>, last: nat): nat {
    if bs == [] then last else bs[0].addr
  }

  /** The headers of `bs` are in memory and linked in order; the last one links to `last`. */
  ghost predicate Linked(mem: Memory, bs: seq<Block>, last: nat) {
    bs == [] || (HeaderIs(mem, bs[0], HeadAddr(bs[1..], last)) && Linked(mem, bs[1..], last))
  }

  ghost predicate AgreeOn(mem: Memory, mem': Memory, lo: nat, hi: nat) {
    forall a :: lo <= a < hi && a in mem ==> a in mem' && mem'[a] == mem[a]
  }

  ghost predicate InLive(bs: seq<Block>, a: nat) {
    exists k :: 0 <= k < |bs| && !bs[k].free && bs[k].addr + HEADER <= a < NextAddr(bs[k])
  }

  /** No word of a live payload of `bs` differs between the two memories. */
  ghost predicate Preserves(bs: seq<Block>, mem: Memory, mem': Memory) {
    forall a :: InLive(bs, a) && a in mem ==> a in mem' && mem'[a] == mem[a]
  }

  lemma {:induction false} LinkedConcat(mem: Memory, xs: seq<Block>, ys: seq<Block>, last: nat)
    ensures Linked(mem, xs + ys, last) <==> Linked(mem, xs, HeadAddr(ys, last)) && Linked(mem, ys, last)
  {
    if xs == [] {
      assert xs + ys == ys;
    } else {
      assert (xs + ys)[1..] == xs[1..] + ys;
      LinkedConcat(mem, xs[1..], ys, last);
    }
  }

  lemma {:induction false} LinkedFrame(mem: Memory, mem': Memory, bs: seq<Block>, last: nat, start: nat, end: nat)
    requires Linked(mem, bs, last) && Tiles(bs, start, end) && AgreeOn(mem, mem', start, end)
    ensures Linked(mem', bs, last)
  {
    if bs != [] {
      TilesSpan(bs[1..], NextAddr(bs[0]), end);
      LinkedFrame(mem, mem', bs[1..], last, NextAddr(bs[0]), end);
    }
  }

  lemma {:induction false} LinkedAt(mem: Memory, bs: seq<Block>, last: nat, k: nat)
    requires Linked(mem, bs, last) && k < |bs|
    ensures HeaderIs(mem, bs[k], HeadAddr(bs[k + 1..], last))
  {
    if k > 0 {
      LinkedAt(mem, bs[1..], last, k - 1);
      assert bs[1..][k..] == bs[k + 1..];
    }
  }

  /** Replacing blocks [k, m) of a linked tiling by others that tile and link the same stretch of memory. */
  lemma {:induction false} Relink(mem: Memory, mem': Memory, bs: seq<Block>, k: nat, m: nat, mid: seq<Block>, lo: nat, hi: nat, end: nat)
    requires Tiles(bs, KHEAP_START, end) && Linked(mem, bs, 0) && k < m <= |bs|
    requires lo == bs[k].addr && hi == HeadAddr(bs[m..], end)
    requires AgreeOn(mem, mem', 0, lo) && AgreeOn(mem, mem', hi, end)
    requires mid != [] && mid[0].addr == lo && Tiles(mid, lo, hi) && Linked(mem', mid, HeadAddr(bs[m..], 0))
    ensures Tiles(bs[..k] + mid + bs[m..], KHEAP_START, end) && Linked(mem', bs[..k] + mid + bs[m..], 0)
  {
    hide Tiles, Linked, AgreeOn;
    TilesSplit(bs, KHEAP_START, end, k);
    TilesSplit(bs, KHEAP_START, end, m);
    SplitLinks(mem, bs, k);
    SplitLinks(mem, bs, m);
    AgreeNarrow(mem, mem', lo);
    LinkedFrame(mem, mem', bs[..k], lo, KHEAP_START, lo);
    LinkedFrame(mem, mem', bs[m..], 0, hi, end);
    LinkedConcat(mem', mid, bs[m..], 0);
    LinkedConcat(mem', bs[..k], mid + bs[m..], 0);
    TilesConcat(mid, bs[m..], lo, hi, end);
    TilesConcat(bs[..k], mid + bs[m..], KHEAP_START, lo, end);
    assert bs[..k] + mid + bs[m..] == bs[..k] + (mid + bs[m..]);
  }

  lemma {:induction false} AgreeNarrow(mem: Memory, mem': Memory, hi: nat)
    requires AgreeOn(mem, mem', 0, hi)
    ensures AgreeOn(mem, mem', KHEAP_START, hi)
  {
  }

  lemma {:induction false} SplitLinks(mem: Memory, bs: seq<Block>, k: nat)
    requires Linked(mem, bs, 0) && k <= |bs|
    ensures Linked(mem, bs[..k], HeadAddr(bs[k..], 0)) && Linked(mem, bs[k..], 0)
  {
    assert bs == bs[..k] + bs[k..];
    LinkedConcat(mem, bs[..k], bs[k..], 0);
  }

  /** Changes confined to a stretch of free blocks touch no live payload. */
  lemma {:induction false} FreeStretch(mem: Memory, mem': Memory, bs: seq<Block>, k: nat, m: nat, lo: nat, hi: nat, end: nat)
    requires Tiles(bs, KHEAP_START, end) && k < m <= |bs|
    requires lo == bs[k].addr && hi == HeadAddr(bs[m..], end)
    requires forall j :: k <= j < m ==> bs[j].free
    requires AgreeOn(mem, mem', 0, lo) && AgreeOn(mem, mem', hi, end)
    ensures Preserves(bs, mem, mem')
  {
    forall a: nat | InLive(bs, a) && a in mem ensures a in mem' && mem'[a] == mem[a] {
      var j :| 0 <= j < |bs| && !bs[j].free && bs[j].addr + HEADER <= a < NextAddr(bs[j]);
      if j < k {
        TilesOrdered(bs, KHEAP_START, end, j, k);
      } else {
        assert j >= m;
        TilesSplit(bs, KHEAP_START, end, j);
        if m < j { TilesOrdered(bs, KHEAP_START, end, m, j); }
      }
    }
  }

  lemma {:induction false} FirstFitIs(bs: seq<Block>, n: nat, k: nat)
    requires k <= |bs| && (forall j :: 0 <= j < k ==> !Fits(bs[j], n))
    ensures k == |bs| || Fits(bs[k], n) ==> FirstFit(bs, n) == k
  {
  }

  class Arena {
    var mem: Memory
    var heapPtr: nat
    var heapEnd: nat
    var backed: nat
    ghost var blocks: seq<Block>

    ghost function Abs(): Heap reads this {
      Heap(blocks, heapEnd, backed)
    }

    ghost predicate Valid() reads this {
      Wf(Abs()) && Linked(mem, blocks, 0) && Mapped(mem, heapEnd) && heapPtr == KHEAP_START
    }

    /** The search loop of `kmalloc`. */
    method FindFit(n: nat) returns (curr: nat, last: nat, ghost k: nat)
      requires Valid()
      ensures k == FirstFit(blocks, n)
      ensures curr == HeadAddr(blocks[FirstFit(blocks, n)..], 0)
      ensures last == if FirstFit(blocks, n) == 0 then 0 else blocks[FirstFit(blocks, n) - 1].addr
    {
      hide Tiles, Linked, FirstFit;
      curr, last, k := heapPtr, 0, 0;
      HeadOfHeap(mem, Abs());
      while curr != 0
        invariant k <= |blocks| && curr == HeadAddr(blocks[k..], 0)
        invariant last == if k == 0 then 0 else blocks[k - 1].addr
        invariant forall j :: 0 <= j < k ==> !Fits(blocks[j], n)
        decreases |blocks| - k
      {
        ReadHeader(mem, blocks, k);
        if mem[curr + 8] != 0 && mem[curr] >= n {
          FirstFitIs(blocks, n, k);
          return;
        }
        last, curr, k := curr, mem[curr + 16], k + 1;
      }
      NotNull(Abs(), k);
      FirstFitIs(blocks, n, k);
    }

    /** Handing out block `k`, the header at `curr`: split off what is left over when it is large enough. */
    method CarveAt(curr: nat, n: nat, ghost k: nat) returns (p: nat)
      requires Valid() && k < |blocks| && curr == blocks[k].addr && Fits(blocks[k], n) && n % 16 == 0
      modifies `mem, `blocks
      ensures Valid() && Abs() == old(Abs()).(blocks := Carve(old(blocks), k, n))
      ensures p == curr + HEADER
      ensures Preserves(old(blocks), old(mem), mem)
    {
      hide Tiles, Linked, AgreeOn, Preserves, Mapped, Wf, Carve;
      LinkedAt(mem, blocks, 0, k);
      var m := mem;
      if m[curr] >= n + HEADER + MIN_SPLIT {
        var newBlock := curr + HEADER + n;
        m := m[newBlock + 8 := 1][newBlock := m[curr] - n - HEADER][newBlock + 16 := m[curr + 16]];
        m := m[curr := n][curr + 16 := newBlock];
      }
      m := m[curr + 8 := 0];
      CarveStep(mem, m, Abs(), k, n);
      mem := m;
      blocks := Carve(blocks, k, n);
      return curr + HEADER;
    }

    /** `heap_expand`: maps zeroed pages until the target is reached or no further page can be backed. */
    method Expand(needed: nat)
      requires heapEnd < U64 && heapEnd % PAGE_SIZE == 0 && Mapped(mem, heapEnd)
      modifies `mem, `heapEnd, `backed
      ensures var pages := PagesGained(old(Abs()), needed);
              heapEnd == old(heapEnd) + pages * PAGE_SIZE && backed == old(backed) - pages
      ensures Mapped(mem, heapEnd) && AgreeOn(old(mem), mem, 0, old(heapEnd))
    {
      var target := TargetEnd(heapEnd, needed);
      ghost var pages := 0;
      while heapEnd < target
        invariant heapEnd == old(heapEnd) + pages * PAGE_SIZE && backed == old(backed) - pages
        invariant heapEnd <= target || pages == 0
        invariant Mapped(mem, heapEnd) && AgreeOn(old(mem), mem, 0, old(heapEnd))
      {
        if backed == 0 {
          break;
        }
        ExpandPage(old(mem), mem, old(heapEnd), heapEnd);
        mem := ZeroPage(mem, heapEnd);
        heapEnd := heapEnd + PAGE_SIZE;
        backed := backed - 1;
        pages := pages + 1;
      }
      ExpandDone(old(Abs()), needed, pages);
    }

    /** The expansion step of `kmalloc`: the new pages become one free block at the end of the list. */
    method GrowHeap(n: nat, last: nat) returns (grown: bool)
      requires Valid() && last == blocks[|blocks| - 1].addr
      modifies `mem, `heapEnd, `backed, `blocks
      ensures var pages := PagesGained(old(Abs()), (n + HEADER) % U64);
              grown == (pages > 0) && Abs() == if grown then Grow(old(Abs()), pages) else old(Abs())
      ensures Valid()
      ensures Preserves(old(blocks), old(mem), mem)
    {
      hide Tiles, Linked, Preserves, TargetEnd, PagesGained, Mapped, AgreeOn, HeaderIs;
      var oldEnd := heapEnd;
      Expand((n + HEADER) % U64);
      var size := heapEnd - oldEnd;
      AgreePreserves(old(mem), mem, old(Abs()));
      if size == 0 {
        SameLinks(old(mem), mem, old(Abs()));
        return false;
      }
      GrowWf(old(Abs()), (n + HEADER) % U64);
      ghost var mapped := mem;
      mem := mem[oldEnd := size - HEADER][oldEnd + 8 := 1][oldEnd + 16 := 0];
      mem := mem[last + 16 := oldEnd];
      AppendStep(old(mem), mapped, mem, old(Abs()), PagesGained(old(Abs()), (n + HEADER) % U64));
      StillMapped(mapped, mem, heapEnd);
      blocks := blocks + [Block(oldEnd, size - HEADER, true)];
      return true;
    }

    method KMalloc(size: nat) returns (p: nat)
      requires Valid() && size < U64
      modifies `mem, `heapEnd, `backed, `blocks
      ensures Valid()
      ensures size == 0 ==> p == 0 && Abs() == old(Abs()) && mem == old(mem)
      ensures size > 0 ==> (Abs(), p) == Pointed(Malloc(old(Abs()), Align(size)))
      ensures p != 0 ==> Handed(blocks, p, size)
      ensures Preserves(old(blocks), old(mem), mem)
    {
      hide Tiles, Linked, Preserves, TargetEnd, PagesGained, Mapped, InLive, FirstFit, Carve, Wf, Handed;
      NothingChanged(blocks, mem);
      if size == 0 {
        return 0;
      }
      var n := Align(size);
      AlignHolds(size);
      AllHanded(Abs(), size);
      while true
        invariant Valid() && Malloc(Abs(), n) == Malloc(old(Abs()), n)
        invariant Preserves(old(blocks), old(mem), mem) && SameLive(old(blocks), blocks)
        decreases backed
      {
        ghost var before, h := mem, Abs();
        var curr, last, k := FindFit(n);
        FitCases(h, n, curr, last);
        if curr != 0 {
          p := CarveAt(curr, n, k);
          PreservesTrans(old(blocks), h.blocks, old(mem), before, mem);
          return;
        }
        var grown := GrowHeap(n, last);
        PreservesTrans(old(blocks), h.blocks, old(mem), before, mem);
        if !grown {
          return 0;
        }
        GrowSameLive(old(blocks), h, PagesGained(h, (n + HEADER) % U64));
      }
    }

    /** `kfree` of a pointer that a block owns, of null, or of an address outside the heap. */
    method KFree(p: nat, ghost k: nat)
      requires Valid() && (InHeap(p, heapEnd) ==> k < |blocks| && p == blocks[k].addr + HEADER)
      modifies `mem, `blocks
      ensures Valid()
      ensures Abs() == if InHeap(p, heapEnd) then Free(old(Abs()), k) else old(Abs())
      ensures InHeap(p, heapEnd) ==> Preserves(Freed(old(blocks), k), old(mem), mem)
      ensures !InHeap(p, heapEnd) ==> mem == old(mem)
    {
      hide Tiles, Linked, Preserves, Mapped, Coalesce, Wf;
      if p == 0 || p < KHEAP_START || p >= heapEnd {
        return;
      }
      var header := p - HEADER;
      LinkedAt(mem, blocks, 0, k);
      NothingChanged(Freed(blocks, k), mem);
      if mem[header + 8] != 0 {
        return;
      }
      FreeStep(mem, Abs(), k);
      mem := mem[header + 8 := 1];
      blocks := Freed(blocks, k);
      CoalescePass();
      PreservesTrans(Freed(old(blocks), k), Freed(old(blocks), k), old(mem), old(mem)[header + 8 := 1], mem);
    }

    /** The merging loop of `kfree`. The tests of the source for a link outside the heap and for blocks that
        do not touch are decided by the tiling: links stay inside and neighbours touch. */
    method CoalescePass()
      requires Valid()
      modifies `mem, `blocks
      ensures Valid() && Abs() == old(Abs()).(blocks := Coalesce(old(blocks)))
      ensures Preserves(old(blocks), old(mem), mem)
    {
      hide Tiles, Linked, Preserves, Mapped, Coalesce, Wf, SameLive;
      NothingChanged(blocks, mem);
      HeadOfHeap(mem, Abs());
      var curr := heapPtr;
      ghost var k := 0;
      assert blocks[..0] == [] && blocks[0..] == blocks;
      while curr != 0
        invariant Valid() && k <= |blocks| && curr == HeadAddr(blocks[k..], 0)
        invariant heapEnd == old(heapEnd) && backed == old(backed)
        invariant blocks[..k] + Coalesce(blocks[k..]) == Coalesce(old(blocks))
        invariant Preserves(old(blocks), old(mem), mem) && SameLive(old(blocks), blocks)
        decreases 2 * |blocks| - k
      {
        ReadHeader(mem, blocks, k);
        var next := mem[curr + 16];
        CoalesceStep(mem, Abs(), k);
        if next == 0 {
          break;
        }
        ReadHeader(mem, blocks, k + 1);
        if mem[curr + 8] != 0 && mem[next + 8] != 0 {
          ghost var before, bs := mem, blocks;
          MergeStep(mem, Abs(), k);
          mem := mem[curr := mem[curr] + (HEADER + mem[next])];
          mem := mem[curr + 16 := mem[next + 16]];
          blocks := Merged(blocks, k);
          PreservesTrans(old(blocks), bs, old(mem), before, mem);
          MergeSameLive(old(blocks), bs, k);
        } else {
          curr := next;
          k := k + 1;
        }
      }
      CoalesceEnd(Abs(), k);
    }

    /** `mem_copy` between the payloads of two different live blocks. */
    method CopyPayload(dst: nat, src: nat, n: nat, ghost j: nat, ghost k: nat)
      requires Valid() && j < |blocks| && k < |blocks| && j != k && !blocks[k].free
      requires dst == blocks[j].addr + HEADER && src == blocks[k].addr + HEADER
      requires n == blocks[k].size <= blocks[j].size
      modifies `mem
      ensures Valid()
      ensures CopyOf(old(mem), mem, src, dst, n)
      ensures Preserves(Freed(blocks, j), old(mem), mem)
    {
      hide Tiles, Linked, Preserves, Mapped, Wf, CopyOf, AgreeOn;
      var m := Copied(mem, src, dst, n);
      CopyStep(mem, m, Abs(), j, k);
      mem := m;
    }

    /** `kern_realloc` of a live block that is too small: allocate, copy, free. */
    method Move(p: nat, size: nat, ghost k: nat) returns (r: nat)
      requires Valid() && k < |blocks| && p == blocks[k].addr + HEADER && !blocks[k].free && InHeap(p, heapEnd)
      requires blocks[k].size < size < U64 && !Overruns(Abs(), k, size)
      modifies `mem, `heapEnd, `backed, `blocks
      ensures Valid()
      ensures var (h, q) := Pointed(Malloc(old(Abs()), Align(size)));
              r == q && if r == 0 then Abs() == h else FreedFrom(h, Abs(), old(blocks)[k])
      ensures r == 0 ==> Preserves(old(blocks), old(mem), mem)
      ensures r != 0 ==> Preserves(Freed(old(blocks), k), old(mem), mem) && CopyOf(old(mem), mem, p, r, old(blocks)[k].size)
    {
      hide Tiles, Linked, Preserves, Mapped, Wf, CopyOf, Malloc, Align, Free, FreedFrom, LiveOf, InLive, AgreeOn, Handed, Overruns;
      ghost var h0, b, m0 := Abs(), blocks[k], mem;
      LinkedAt(mem, blocks, 0, k);
      var oldSize := mem[p - HEADER];
      r := KMalloc(size);
      if r == 0 {
        return;
      }
      ghost var j, i := Moved(h0, k, size);
      MallocEnd(h0, Align(size));
      ghost var m1, h1 := mem, Abs();
      CopyPayload(r, p, oldSize, j, i);
      ghost var m2 := mem;
      KFree(p, i);
      FreedAt(h1, Abs(), i);
      MoveDone(h0, h1, m0, m1, m2, mem, k, j, i);
    }

    /** `kern_realloc` of a live block (block `k`), of null, or of an address outside the heap. */
    method KernRealloc(p: nat, size: nat, ghost k: nat) returns (r: nat)
      requires Valid() && size < U64
      requires InHeap(p, heapEnd) ==> k < |blocks| && p == blocks[k].addr + HEADER && !blocks[k].free && !Overruns(Abs(), k, size)
      modifies `mem, `heapEnd, `backed, `blocks
      ensures Valid()
      ensures p == 0 && size > 0 ==> (Abs(), r) == Pointed(Malloc(old(Abs()), Align(size)))
      ensures p == 0 && size == 0 ==> r == 0 && Abs() == old(Abs())
      ensures p != 0 && size == 0 ==> r == 0 && Abs() == if InHeap(p, old(heapEnd)) then Free(old(Abs()), k) else old(Abs())
      ensures p != 0 && size > 0 && !InHeap(p, old(heapEnd)) ==> r == 0 && Abs() == old(Abs()) && mem == old(mem)
      ensures InHeap(p, old(heapEnd)) && 0 < size <= old(blocks)[k].size ==> r == p && Abs() == old(Abs()) && mem == old(mem)
      ensures InHeap(p, old(heapEnd)) && size > old(blocks)[k].size ==>
                var (h, q) := Pointed(Malloc(old(Abs()), Align(size)));
                r == q && if r == 0 then Abs() == h else FreedFrom(h, Abs(), old(blocks)[k])
      ensures InHeap(p, old(heapEnd)) && size > 0 && r != 0 ==> CopyOf(old(mem), mem, p, r, old(blocks)[k].size)
      ensures Preserves(if InHeap(p, old(heapEnd)) && (size == 0 || r != 0) then Freed(old(blocks), k) else old(blocks), old(mem), mem)
    {
      hide Tiles, Linked, Preserves, Mapped, Wf, CopyOf, Malloc, Align, Free, FreedFrom, Handed, Overruns;
      NothingChanged(blocks, mem);
      if p == 0 {
        r := KMalloc(size);
        return;
      }
      if size == 0 {
        KFree(p, k);
        return 0;
      }
      if p < KHEAP_START || p >= heapEnd {
        return 0;
      }
      LinkedAt(mem, blocks, 0, k);
      if mem[p - HEADER] >= size {
        KeptInPlace(mem, Abs(), k);
        return p;
      }
      r := Move(p, size, k);
    }

    /** `kmalloc_init` on an empty heap with enough frames: one free block. */
    constructor (backed: nat)
      requires backed * PAGE_SIZE >= HEAP_MIN_SIZE
      ensures Valid() && Abs() == Heap([Block(KHEAP_START, HEAP_MIN_SIZE - HEADER, true)], KHEAP_START + HEAP_MIN_SIZE, backed - HEAP_MIN_SIZE / PAGE_SIZE)
    {
      mem, blocks := map[], [];
      heapPtr, heapEnd, this.backed := KHEAP_START, KHEAP_START, backed;
      new;
      Expand(HEAP_MIN_SIZE);
      mem := mem[heapPtr := HEAP_MIN_SIZE - HEADER][heapPtr + 8 := 1][heapPtr + 16 := 0];
      blocks := [Block(KHEAP_START, HEAP_MIN_SIZE - HEADER, true)];
      InitialHeap(mem, heapEnd);
    }
  }

  lemma {:induction false} InitialHeap(mem: Memory, end: nat)
    requires HeaderIs(mem, Block(KHEAP_START, HEAP_MIN_SIZE - HEADER, true), 0) && end == KHEAP_START + HEAP_MIN_SIZE
    ensures var bs := [Block(KHEAP_START, HEAP_MIN_SIZE - HEADER, true)];
            Tiles(bs, KHEAP_START, end) && Linked(mem, bs, 0)
  {
    OneTile(Block(KHEAP_START, HEAP_MIN_SIZE - HEADER, true), end);
    LinkedOne(mem, Block(KHEAP_START, HEAP_MIN_SIZE - HEADER, true), 0);
  }

  /** The initial heap grants the largest request a block without payload; then moving a block of 16 bytes to such a
      request overruns. */
  lemma {:induction false} TopRequestGranted(backed: nat)
    ensures var h := Heap([Block(KHEAP_START, HEAP_MIN_SIZE - HEADER, true)], KHEAP_START + HEAP_MIN_SIZE, backed);
            var (h', p) := Malloc(h, Align(U64 - 1));
            p == Some(KHEAP_START + HEADER) && h'.blocks != [] && h'.blocks[0] == Block(KHEAP_START, 0, false)
    ensures var h := Heap([Block(KHEAP_START, 16, false), Block(KHEAP_START + 48, HEAP_MIN_SIZE - 80, true)], KHEAP_START + HEAP_MIN_SIZE, backed);
            Wf(h) && Overruns(h, 0, U64 - 1)
  {
    TopRequestWraps();
    var free := Block(KHEAP_START, HEAP_MIN_SIZE - HEADER, true);
    assert FirstFit([free], 0) == 0;
    var bs := [Block(KHEAP_START, 16, false), Block(KHEAP_START + 48, HEAP_MIN_SIZE - 80, true)];
    assert bs[1..] == [bs[1]] && bs[1..][1..] == [];
    assert FirstFit(bs, 0) == 1;
  }

  lemma {:induction false} KeptInPlace(mem: Memory, h: Heap, k: nat)
    requires Wf(h) && Mapped(mem, h.end) && k < |h.blocks|
    ensures CopyOf(mem, mem, h.blocks[k].addr + HEADER, h.blocks[k].addr + HEADER, h.blocks[k].size)
    ensures Preserves(Freed(h.blocks, k), mem, mem)
  {
    hide Tiles, Mapped;
    StretchOf(h, k, k + 1);
    TilesAligned(h.blocks, KHEAP_START, h.end, k);
    var b := h.blocks[k];
    forall w | 0 <= w < b.size && w % 8 == 0 ensures b.addr + HEADER + w in mem {
      WordMapped(mem, h.end, b.addr + HEADER, w);
    }
  }

  /** `h'` is `h` after freeing its block `b`. */
  ghost predicate FreedFrom(h: Heap, h': Heap, b: Block) {
    exists i :: 0 <= i < |h.blocks| && h.blocks[i] == b && h' == Free(h, i)
  }

  lemma {:induction false} FreedAt(h: Heap, h': Heap, i: nat)
    requires i < |h.blocks| && h' == Free(h, i)
    ensures FreedFrom(h, h', h.blocks[i])
  {
  }

  /** The `n` bytes at `dst` in the new memory are those at `src` in the old one, word by word. */
  ghost predicate CopyOf(mem: Memory, mem': Memory, src: nat, dst: nat, n: nat) {
    forall w :: 0 <= w < n && w % 8 == 0 ==> src + w in mem && dst + w in mem' && mem'[dst + w] == mem[src + w]
  }

  function Copied(mem: Memory, src: nat, dst: nat, n: nat): Memory {
    map a | a in mem :: CopySource(mem, src, dst, n, a)
  }

  function CopySource(mem: Memory, src: nat, dst: nat, n: nat, a: nat): nat
    requires a in mem
  {
    if dst <= a < dst + n && src + (a - dst) in mem then mem[src + (a - dst)] else mem[a]
  }

  /** The result of an allocation with the null pointer for a failure. */
  function Pointed(r: (Heap, Option<nat>)): (Heap, nat) {
    (r.0, match r.1 case None => 0 case Some(p) => p)
  }

  /** Every live payload word of `bs` is a live payload word of `bs'`. */
  ghost predicate SameLive(bs: seq<Block>, bs': seq<Block>) {
    forall a :: InLive(bs, a) ==> InLive(bs', a)
  }

  lemma {:induction false} NothingChanged(bs: seq<Block>, mem: Memory)
    ensures Preserves(bs, mem, mem) && SameLive(bs, bs)
  {
  }

  lemma {:induction false} PreservesTrans(bs: seq<Block>, bs': seq<Block>, m0: Memory, m1: Memory, m2: Memory)
    requires Preserves(bs, m0, m1) && SameLive(bs, bs') && Preserves(bs', m1, m2)
    ensures Preserves(bs, m0, m2)
  {
  }

  lemma {:induction false} GrowSameLive(bs: seq<Block>, h: Heap, pages: nat)
    requires SameLive(bs, h.blocks) && 0 < pages <= h.backed
    ensures SameLive(bs, Grow(h, pages).blocks)
  {
    var bs' := Grow(h, pages).blocks;
    forall a: nat | InLive(h.blocks, a) ensures InLive(bs', a) {
      var k :| 0 <= k < |h.blocks| && !h.blocks[k].free && h.blocks[k].addr + HEADER <= a < NextAddr(h.blocks[k]);
      assert bs'[k] == h.blocks[k];
    }
  }

  /** What a null or non-null search result means for the abstract allocator. */
  lemma {:induction false} FitCases(h: Heap, n: nat, curr: nat, last: nat)
    requires Wf(h)
    requires var k := FirstFit(h.blocks, n);
             curr == HeadAddr(h.blocks[k..], 0) && last == if k == 0 then 0 else h.blocks[k - 1].addr
    ensures var k := FirstFit(h.blocks, n);
            && (curr != 0 <==> k < |h.blocks|)
            && (k < |h.blocks| ==> Fits(h.blocks[k], n) && curr == h.blocks[k].addr)
            && (k < |h.blocks| ==> Malloc(h, n) == (h.(blocks := Carve(h.blocks, k, n)), Some(curr + HEADER)))
            && (k == |h.blocks| ==> last == h.blocks[|h.blocks| - 1].addr)
    ensures FirstFit(h.blocks, n) == |h.blocks| ==>
              var pages := PagesGained(h, (n + HEADER) % U64);
              Malloc(h, n) == if pages == 0 then (h, None) else Malloc(Grow(h, pages), n)
  {
    var k := FirstFit(h.blocks, n);
    if k < |h.blocks| { TilesSplit(h.blocks, KHEAP_START, h.end, k); }
  }

  /** Live payloads lie below the old end of the heap. */
  lemma {:induction false} AgreePreserves(mem: Memory, mem': Memory, h: Heap)
    requires Wf(h) && AgreeOn(mem, mem', 0, h.end)
    ensures Preserves(h.blocks, mem, mem')
  {
    forall a: nat | InLive(h.blocks, a) ensures a < h.end {
      var k :| 0 <= k < |h.blocks| && !h.blocks[k].free && h.blocks[k].addr + HEADER <= a < NextAddr(h.blocks[k]);
      TilesSplit(h.blocks, KHEAP_START, h.end, k);
    }
  }

  lemma {:induction false} SameLinks(mem: Memory, mem': Memory, h: Heap)
    requires Wf(h) && Linked(mem, h.blocks, 0) && AgreeOn(mem, mem', 0, h.end)
    ensures Linked(mem', h.blocks, 0)
  {
    AgreeNarrow(mem, mem', h.end);
    LinkedFrame(mem, mem', h.blocks, 0, KHEAP_START, h.end);
  }

  lemma {:induction false} LinkedOne(mem: Memory, b: Block, last: nat)
    requires HeaderIs(mem, b, last)
    ensures Linked(mem, [b], last)
  {
    assert [b][1..] == [];
  }

  lemma {:induction false} LinkedTwo(mem: Memory, b: Block, c: Block, last: nat)
    requires HeaderIs(mem, b, c.addr) && HeaderIs(mem, c, last)
    ensures Linked(mem, [b, c], last)
  {
    assert [b, c][1..] == [c] && [c][1..] == [];
  }

  lemma {:induction false} AppendHeaders(mem: Memory, mapped: Memory, mem': Memory, l: Block, b: Block)
    requires HeaderIs(mem, l, 0) && AgreeOn(mem, mapped, 0, b.addr) && NextAddr(l) == b.addr && b.free
    requires mem' == mapped[b.addr := b.size][b.addr + 8 := 1][b.addr + 16 := 0][l.addr + 16 := b.addr]
    ensures HeaderIs(mem', l, b.addr) && HeaderIs(mem', b, 0)
    ensures AgreeOn(mem, mem', KHEAP_START, l.addr)
    ensures forall a :: 0 <= a < b.addr && a != l.addr + 16 && a in mem ==> a in mem' && mem'[a] == mem[a]
  {
  }

  /** Linking a new free block behind the last one. */
  lemma {:induction false} AppendStep(mem: Memory, mapped: Memory, mem': Memory, h: Heap, pages: nat)
    requires Wf(h) && Linked(mem, h.blocks, 0) && AgreeOn(mem, mapped, 0, h.end) && 0 < pages <= h.backed
    requires mem' == mapped[h.end := pages * PAGE_SIZE - HEADER][h.end + 8 := 1][h.end + 16 := 0][h.blocks[|h.blocks| - 1].addr + 16 := h.end]
    ensures Linked(mem', Grow(h, pages).blocks, 0) && Preserves(h.blocks, mem, mem')
  {
    hide Tiles, Preserves, Linked, AgreeOn, HeaderIs;
    var n := |h.blocks| - 1;
    var front, l := h.blocks[..n], h.blocks[n];
    var b := Block(h.end, pages * PAGE_SIZE - HEADER, true);
    StretchOf(h, n, n + 1);
    TilesSplit(h.blocks, KHEAP_START, h.end, n);
    assert h.blocks == front + [l] && h.blocks[n + 1..] == [];
    LinkedAt(mem, h.blocks, 0, n);
    LinkedConcat(mem, front, [l], 0);
    AppendHeaders(mem, mapped, mem', l, b);
    LinkedFrame(mem, mem', front, l.addr, KHEAP_START, l.addr);
    LinkedTwo(mem', l, b, 0);
    LinkedConcat(mem', front, [l, b], 0);
    assert Grow(h, pages).blocks == front + [l, b];
    AppendPreserves(mem, mem', h);
  }

  lemma {:induction false} AppendPreserves(mem: Memory, mem': Memory, h: Heap)
    requires Wf(h)
    requires forall a :: 0 <= a < h.end && a != h.blocks[|h.blocks| - 1].addr + 16 && a in mem ==> a in mem' && mem'[a] == mem[a]
    ensures Preserves(h.blocks, mem, mem')
  {
    var n := |h.blocks| - 1;
    forall a: nat | InLive(h.blocks, a) ensures a < h.end && a != h.blocks[n].addr + 16 {
      var k :| 0 <= k < |h.blocks| && !h.blocks[k].free && h.blocks[k].addr + HEADER <= a < NextAddr(h.blocks[k]);
      TilesSplit(h.blocks, KHEAP_START, h.end, k);
      if k < n { TilesOrdered(h.blocks, KHEAP_START, h.end, k, n); }
    }
  }

  predicate InHeap(p: nat, end: nat) {
    KHEAP_START <= p < end
  }

  function Merged(bs: seq<Block>, k: nat): seq<Block>
    requires k + 1 < |bs|
  {
    bs[..k] + [Block(bs[k].addr, bs[k].size + HEADER + bs[k + 1].size, true)] + bs[k + 2..]
  }

  /** Setting `is_free` in memory. */
  lemma {:induction false} FreeStep(mem: Memory, h: Heap, k: nat)
    requires Wf(h) && Linked(mem, h.blocks, 0) && Mapped(mem, h.end) && k < |h.blocks|
    requires HeaderIs(mem, h.blocks[k], HeadAddr(h.blocks[k + 1..], 0))
    ensures var mem' := mem[h.blocks[k].addr + 8 := 1];
            && Wf(h.(blocks := Freed(h.blocks, k))) && Linked(mem', Freed(h.blocks, k), 0) && Mapped(mem', h.end)
            && Preserves(Freed(h.blocks, k), mem, mem')
  {
    hide Tiles, Linked, Preserves, Mapped, HeaderIs, AgreeOn;
    var b, next := h.blocks[k], HeadAddr(h.blocks[k + 1..], 0);
    var b', mem' := b.(free := true), mem[b.addr + 8 := 1];
    StretchOf(h, k, k + 1);
    FreeHeader(mem, b, next, h.end);
    LinkedOne(mem', b', next);
    TilesSplit(h.blocks, KHEAP_START, h.end, k);
    OneTile(b', NextAddr(b));
    Relink(mem, mem', h.blocks, k, k + 1, [b'], b.addr, NextAddr(b), h.end);
    assert Freed(h.blocks, k) == h.blocks[..k] + [b'] + h.blocks[k + 1..];
    assert Freed(h.blocks, k)[k + 1..] == h.blocks[k + 1..];
    FreeStretch(mem, mem', Freed(h.blocks, k), k, k + 1, b.addr, NextAddr(b), h.end);
    StillMapped(mem, mem', h.end);
  }

  lemma {:induction false} FreeHeader(mem: Memory, b: Block, next: nat, end: nat)
    requires HeaderIs(mem, b, next)
    ensures var mem' := mem[b.addr + 8 := 1];
            && HeaderIs(mem', b.(free := true), next)
            && AgreeOn(mem, mem', 0, b.addr) && AgreeOn(mem, mem', NextAddr(b), end) && mem.Keys <= mem'.Keys
  {
  }

  lemma {:induction false} MergeHeader(mem: Memory, b: Block, c: Block, next: nat, end: nat)
    requires HeaderIs(mem, b, c.addr) && HeaderIs(mem, c, next) && NextAddr(b) == c.addr && b.free
    ensures var mem' := mem[b.addr := b.size + (HEADER + c.size)][b.addr + 16 := next];
            && HeaderIs(mem', Block(b.addr, b.size + HEADER + c.size, true), next)
            && AgreeOn(mem, mem', 0, b.addr) && AgreeOn(mem, mem', NextAddr(c), end) && mem.Keys <= mem'.Keys
  {
  }

  /** Merging two free neighbours in memory. */
  lemma {:induction false} MergeStep(mem: Memory, h: Heap, k: nat)
    requires Wf(h) && Linked(mem, h.blocks, 0) && Mapped(mem, h.end) && k + 1 < |h.blocks|
    requires h.blocks[k].free && h.blocks[k + 1].free
    requires HeaderIs(mem, h.blocks[k], h.blocks[k + 1].addr)
    requires HeaderIs(mem, h.blocks[k + 1], HeadAddr(h.blocks[k + 2..], 0))
    ensures var b, c := h.blocks[k], h.blocks[k + 1];
            var mem' := mem[b.addr := b.size + (HEADER + c.size)][b.addr + 16 := HeadAddr(h.blocks[k + 2..], 0)];
            && Wf(h.(blocks := Merged(h.blocks, k))) && Linked(mem', Merged(h.blocks, k), 0) && Mapped(mem', h.end)
            && Preserves(h.blocks, mem, mem')
  {
    hide Tiles, Linked, Preserves, Mapped, HeaderIs, AgreeOn;
    var b, c, next := h.blocks[k], h.blocks[k + 1], HeadAddr(h.blocks[k + 2..], 0);
    var d, mem' := Block(b.addr, b.size + HEADER + c.size, true), mem[b.addr := b.size + (HEADER + c.size)][b.addr + 16 := next];
    StretchOf(h, k, k + 2);
    Neighbours(h, k);
    MergeHeader(mem, b, c, next, h.end);
    LinkedOne(mem', d, next);
    OneTile(d, NextAddr(c));
    Relink(mem, mem', h.blocks, k, k + 2, [d], b.addr, NextAddr(c), h.end);
    FreeStretch(mem, mem', h.blocks, k, k + 2, b.addr, NextAddr(c), h.end);
    StillMapped(mem, mem', h.end);
  }

  lemma {:induction false} Neighbours(h: Heap, k: nat)
    requires Wf(h) && k + 1 < |h.blocks|
    ensures NextAddr(h.blocks[k]) == h.blocks[k + 1].addr && h.blocks[k].size % 16 == 0 && h.blocks[k + 1].size % 16 == 0
  {
    TilesSplit(h.blocks, KHEAP_START, h.end, k);
    TilesSplit(h.blocks, KHEAP_START, h.end, k + 1);
    assert h.blocks[k..][1..] == h.blocks[k + 1..];
  }

  lemma {:induction false} MergeSameLive(bs: seq<Block>, bs': seq<Block>, k: nat)
    requires SameLive(bs, bs') && k + 1 < |bs'| && bs'[k].free && bs'[k + 1].free
    ensures SameLive(bs, Merged(bs', k))
  {
    var m := Merged(bs', k);
    forall a: nat | InLive(bs', a) ensures InLive(m, a) {
      var j :| 0 <= j < |bs'| && !bs'[j].free && bs'[j].addr + HEADER <= a < NextAddr(bs'[j]);
      assert m[if j < k then j else j - 1] == bs'[j];
    }
  }

  /** One step of the merging loop against `Coalesce`. */
  lemma {:induction false} CoalesceStep(mem: Memory, h: Heap, k: nat)
    requires Wf(h) && k < |h.blocks|
    ensures HeadAddr(h.blocks[k + 1..], 0) == 0 <==> k + 1 == |h.blocks|
    ensures k + 1 < |h.blocks| ==> NextAddr(h.blocks[k]) == h.blocks[k + 1].addr < h.end
    ensures k + 1 == |h.blocks| ==> h.blocks[..k] + Coalesce(h.blocks[k..]) == h.blocks
    ensures k + 1 < |h.blocks| && h.blocks[k].free && h.blocks[k + 1].free ==>
              var m := Merged(h.blocks, k);
              m[..k] + Coalesce(m[k..]) == h.blocks[..k] + Coalesce(h.blocks[k..]) && m[k..][0].addr == h.blocks[k].addr
    ensures k + 1 < |h.blocks| && !(h.blocks[k].free && h.blocks[k + 1].free) ==>
              h.blocks[..k + 1] + Coalesce(h.blocks[k + 1..]) == h.blocks[..k] + Coalesce(h.blocks[k..])
  {
    hide Tiles, Coalesce;
    if k + 1 < |h.blocks| {
      TilesSplit(h.blocks, KHEAP_START, h.end, k + 1);
      TilesOrdered(h.blocks, KHEAP_START, h.end, k, k + 1);
      CoalesceMerge(h.blocks, k);
      CoalesceKeep(h.blocks, k);
    } else {
      CoalesceEnd(h, k);
    }
  }

  lemma {:induction false} CoalesceMerge(bs: seq<Block>, k: nat)
    requires k + 1 < |bs|
    ensures bs[k].free && bs[k + 1].free ==>
              var m := Merged(bs, k);
              m[..k] + Coalesce(m[k..]) == bs[..k] + Coalesce(bs[k..]) && m[k..][0].addr == bs[k].addr
  {
    var m, rest := Merged(bs, k), bs[k..];
    assert m[..k] == bs[..k];
    assert rest[0] == bs[k] && rest[1] == bs[k + 1] && rest[2..] == bs[k + 2..];
    assert m[k..] == [m[k]] + rest[2..];
  }

  lemma {:induction false} CoalesceKeep(bs: seq<Block>, k: nat)
    requires k + 1 < |bs|
    ensures !(bs[k].free && bs[k + 1].free) ==> bs[..k + 1] + Coalesce(bs[k + 1..]) == bs[..k] + Coalesce(bs[k..])
  {
    var rest := bs[k..];
    assert rest[0] == bs[k] && rest[1] == bs[k + 1] && rest[1..] == bs[k + 1..];
    if !(bs[k].free && bs[k + 1].free) {
      assert Coalesce(rest) == [bs[k]] + Coalesce(rest[1..]);
      assert bs[..k + 1] == bs[..k] + [bs[k]];
    }
  }

  lemma {:induction false} CoalesceEnd(h: Heap, k: nat)
    requires Wf(h) && k <= |h.blocks|
    ensures k + 1 >= |h.blocks| ==> h.blocks[..k] + Coalesce(h.blocks[k..]) == h.blocks
    ensures HeadAddr(h.blocks[k..], 0) == 0 ==> k == |h.blocks|
  {
    assert h.blocks[..k] + h.blocks[k..] == h.blocks;
    if k < |h.blocks| { TilesSplit(h.blocks, KHEAP_START, h.end, k); }
  }

  function ZeroPage(mem: Memory, at: nat): Memory {
    mem + map a | at <= a < at + PAGE_SIZE && a % 8 == 0 :: 0
  }

  lemma {:induction false} ExpandPage(mem0: Memory, mem: Memory, end0: nat, end: nat)
    requires Mapped(mem, end) && AgreeOn(mem0, mem, 0, end0) && end0 <= end
    ensures Mapped(ZeroPage(mem, end), end + PAGE_SIZE) && AgreeOn(mem0, ZeroPage(mem, end), 0, end0)
  {
  }

  lemma {:induction false} ExpandDone(h: Heap, needed: nat, pages: nat)
    requires h.end < U64 && h.end % PAGE_SIZE == 0 && pages <= h.backed
    requires var end := h.end + pages * PAGE_SIZE;
             && (end <= TargetEnd(h.end, needed) || pages == 0)
             && (end >= TargetEnd(h.end, needed) || pages == h.backed)
    ensures pages == PagesGained(h, needed)
  {
    TargetAligned(h.end, needed);
  }

  /** Carving in memory is carving in the block list, and touches no live payload. */
  lemma {:induction false} CarveStep(mem: Memory, mem': Memory, h: Heap, k: nat, n: nat)
    requires Wf(h) && Linked(mem, h.blocks, 0) && Mapped(mem, h.end)
    requires k < |h.blocks| && Fits(h.blocks[k], n) && n % 16 == 0
    requires HeaderIs(mem, h.blocks[k], HeadAddr(h.blocks[k + 1..], 0))
    requires CarvedMemory(mem, mem', h.blocks[k], n, HeadAddr(h.blocks[k + 1..], 0))
    ensures Wf(h.(blocks := Carve(h.blocks, k, n)))
    ensures Linked(mem', Carve(h.blocks, k, n), 0) && Mapped(mem', h.end) && Preserves(h.blocks, mem, mem')
  {
    hide Tiles, Linked, AgreeOn, Preserves, Mapped, CarvedMemory;
    var b := h.blocks[k];
    CarveWf(h, k, n);
    StretchOf(h, k, k + 1);
    CarvedLinked(mem, mem', b, n, HeadAddr(h.blocks[k + 1..], 0), h.end);
    TilesSplit(h.blocks, KHEAP_START, h.end, k);
    CarvedTiles(b, n);
    Relink(mem, mem', h.blocks, k, k + 1, Carved(b, n), b.addr, NextAddr(b), h.end);
    FreeStretch(mem, mem', h.blocks, k, k + 1, b.addr, NextAddr(b), h.end);
    StillMapped(mem, mem', h.end);
  }

  lemma {:induction false} StretchOf(h: Heap, k: nat, m: nat)
    requires Wf(h) && k < m <= |h.blocks|
    ensures HeadAddr(h.blocks[m..], h.end) == NextAddr(h.blocks[m - 1])
    ensures h.blocks[k].addr >= KHEAP_START && NextAddr(h.blocks[m - 1]) <= h.end
  {
    TilesSplit(h.blocks, KHEAP_START, h.end, k);
    TilesSplit(h.blocks, KHEAP_START, h.end, m);
    TilesSplit(h.blocks, KHEAP_START, h.end, m - 1);
    if m < |h.blocks| { TilesOrdered(h.blocks, KHEAP_START, h.end, m - 1, m); }
  }

  lemma {:induction false} StillMapped(mem: Memory, mem': Memory, end: nat)
    requires Mapped(mem, end) && mem.Keys <= mem'.Keys
    ensures Mapped(mem', end)
  {
  }

  lemma {:induction false} CarvedTiles(b: Block, n: nat)
    requires b.size >= n && b.size % 16 == 0 && n % 16 == 0
    ensures Carved(b, n)[0].addr == b.addr && Tiles(Carved(b, n), b.addr, NextAddr(b))
  {
    var m := Carved(b, n);
    assert m[1..] == [] || m[1..][1..] == [];
  }

  /** The memory `kmalloc` leaves around the block it hands out. */
  ghost predicate CarvedMemory(mem: Memory, mem': Memory, b: Block, n: nat, next: nat) {
    var rest := b.addr + HEADER + n;
    mem' == if b.size >= n + HEADER + MIN_SPLIT
            then mem[rest + 8 := 1][rest := b.size - n - HEADER][rest + 16 := next][b.addr := n][b.addr + 16 := rest][b.addr + 8 := 0]
            else mem[b.addr + 8 := 0]
  }

  lemma {:induction false} CarvedLinked(mem: Memory, mem': Memory, b: Block, n: nat, next: nat, end: nat)
    requires HeaderIs(mem, b, next) && b.size >= n && CarvedMemory(mem, mem', b, n, next)
    ensures Linked(mem', Carved(b, n), next) && mem.Keys <= mem'.Keys
    ensures AgreeOn(mem, mem', 0, b.addr) && AgreeOn(mem, mem', NextAddr(b), end)
  {
    hide HeaderIs, CarvedMemory, Linked;
    CarvedHeaders(mem, mem', b, n, next);
    var m := Carved(b, n);
    if |m| == 2 {
      LinkedTwo(mem', m[0], m[1], next);
    } else {
      LinkedOne(mem', m[0], next);
    }
  }

  lemma {:induction false} CarvedHeaders(mem: Memory, mem': Memory, b: Block, n: nat, next: nat)
    requires HeaderIs(mem, b, next) && b.size >= n && CarvedMemory(mem, mem', b, n, next)
    ensures var m := Carved(b, n);
            && (|m| == 1 ==> HeaderIs(mem', m[0], next))
            && (|m| == 2 ==> HeaderIs(mem', m[0], m[1].addr) && HeaderIs(mem', m[1], next))
    ensures mem.Keys <= mem'.Keys
    ensures forall a :: a in mem && (a < b.addr || a >= NextAddr(b)) ==> mem'[a] == mem[a]
  {
  }

  lemma {:induction false} HeadOfHeap(mem: Memory, h: Heap)
    requires Wf(h)
    ensures HeadAddr(h.blocks[0..], 0) == KHEAP_START
  {
  }

  lemma {:induction false} ReadHeader(mem: Memory, bs: seq<Block>, k: nat)
    requires Linked(mem, bs, 0) && k <= |bs| && HeadAddr(bs[k..], 0) != 0
    ensures k < |bs| && HeaderIs(mem, bs[k], HeadAddr(bs[k + 1..], 0))
  {
    LinkedAt(mem, bs, 0, k);
  }

  lemma {:induction false} NotNull(h: Heap, k: nat)
    requires Wf(h) && k <= |h.blocks| && HeadAddr(h.blocks[k..], 0) == 0
    ensures k == |h.blocks|
  {
    if k < |h.blocks| { TilesSplit(h.blocks, KHEAP_START, h.end, k); }
  }

  lemma {:induction false} CopyStep(mem: Memory, mem': Memory, h: Heap, j: nat, k: nat)
    requires Wf(h) && Linked(mem, h.blocks, 0) && Mapped(mem, h.end)
    requires j < |h.blocks| && k < |h.blocks| && j != k && h.blocks[k].size <= h.blocks[j].size
    requires mem' == Copied(mem, h.blocks[k].addr + HEADER, h.blocks[j].addr + HEADER, h.blocks[k].size)
    ensures Linked(mem', h.blocks, 0) && Mapped(mem', h.end)
    ensures CopyOf(mem, mem', h.blocks[k].addr + HEADER, h.blocks[j].addr + HEADER, h.blocks[k].size)
    ensures Preserves(Freed(h.blocks, j), mem, mem')
  {
    hide Tiles, Linked, Preserves, Mapped, CopyOf, HeaderIs, AgreeOn, Copied;
    PayloadPlace(h, j);
    PayloadPlace(h, k);
    LinkedAt(mem, h.blocks, 0, j);
    CopyFrame(mem, h.blocks[k].addr + HEADER, h.blocks[j], h.blocks[k].size, HeadAddr(h.blocks[j + 1..], 0), h.end);
    CopyWords(mem, h.blocks[k].addr + HEADER, h.blocks[j].addr + HEADER, h.blocks[k].size, h.end);
    PayloadWrite(mem, mem', h, j);
    StillMapped(mem, mem', h.end);
  }

  /** Payloads are 16-byte aligned and inside the heap. */
  lemma {:induction false} PayloadPlace(h: Heap, k: nat)
    requires Wf(h) && k < |h.blocks|
    ensures (h.blocks[k].addr + HEADER) % 16 == 0
    ensures KHEAP_START <= h.blocks[k].addr + HEADER && h.blocks[k].addr + HEADER + h.blocks[k].size <= h.end
  {
    StretchOf(h, k, k + 1);
    TilesAligned(h.blocks, KHEAP_START, h.end, k);
  }

  /** Writing inside the payload of block `j` keeps the list and every other live payload. */
  lemma {:induction false} PayloadWrite(mem: Memory, mem': Memory, h: Heap, j: nat)
    requires Wf(h) && Linked(mem, h.blocks, 0) && j < |h.blocks|
    requires HeaderIs(mem', h.blocks[j], HeadAddr(h.blocks[j + 1..], 0))
    requires AgreeOn(mem, mem', 0, h.blocks[j].addr) && AgreeOn(mem, mem', NextAddr(h.blocks[j]), h.end)
    ensures Linked(mem', h.blocks, 0) && Preserves(Freed(h.blocks, j), mem, mem')
  {
    hide Tiles, Linked, Preserves, HeaderIs, AgreeOn;
    var b := h.blocks[j];
    StretchOf(h, j, j + 1);
    TilesSplit(h.blocks, KHEAP_START, h.end, j);
    LinkedOne(mem', b, HeadAddr(h.blocks[j + 1..], 0));
    OneTile(b, NextAddr(b));
    Relink(mem, mem', h.blocks, j, j + 1, [b], b.addr, NextAddr(b), h.end);
    assert h.blocks == h.blocks[..j] + [b] + h.blocks[j + 1..];
    assert Freed(h.blocks, j)[j + 1..] == h.blocks[j + 1..];
    FreedTiles(h.blocks, KHEAP_START, h.end, j);
    FreeStretch(mem, mem', Freed(h.blocks, j), j, j + 1, b.addr, NextAddr(b), h.end);
  }

  lemma {:induction false} CopyFrame(mem: Memory, src: nat, b: Block, n: nat, next: nat, end: nat)
    requires HeaderIs(mem, b, next) && n <= b.size
    ensures var mem' := Copied(mem, src, b.addr + HEADER, n);
            && HeaderIs(mem', b, next) && mem.Keys <= mem'.Keys
            && AgreeOn(mem, mem', 0, b.addr) && AgreeOn(mem, mem', NextAddr(b), end)
  {
  }

  lemma {:induction false} CopyWords(mem: Memory, src: nat, dst: nat, n: nat, end: nat)
    requires Mapped(mem, end) && KHEAP_START <= src && KHEAP_START <= dst && src + n <= end && dst + n <= end
    requires src % 16 == 0 && dst % 16 == 0
    ensures CopyOf(mem, Copied(mem, src, dst, n), src, dst, n)
  {
    hide Mapped;
    forall w | 0 <= w < n && w % 8 == 0
      ensures src + w in mem && dst + w in mem && CopySource(mem, src, dst, n, dst + w) == mem[src + w]
    {
      WordMapped(mem, end, src, w);
      WordMapped(mem, end, dst, w);
    }
  }

  lemma {:induction false} WordMapped(mem: Memory, end: nat, a: nat, w: nat)
    requires Mapped(mem, end) && KHEAP_START <= a && a + w < end && a % 16 == 0 && w % 8 == 0
    ensures a + w in mem
  {
    EightsAdd(a, w);
  }

  lemma {:induction false} EightsAdd(a: nat, w: nat)
    requires a % 16 == 0 && w % 8 == 0
    ensures (a + w) % 8 == 0
  {
    var p, q := a / 16, w / 8;
    assert a + w == 8 * (2 * p + q);
  }

  /** The block handed out for a request holds it exactly when rounding the request up does not wrap around. */
  ghost predicate Handed(bs: seq<Block>, p: nat, size: nat) {
    exists j :: 0 <= j < |bs| && !bs[j].free && bs[j].addr + HEADER == p && (bs[j].size >= size <==> size <= U64 - 16)
  }

  lemma {:induction false} AllHanded(h: Heap, size: nat)
    requires Wf(h) && size < U64
    ensures var (h', p) := Malloc(h, Align(size)); p.Some? ==> Handed(h'.blocks, p.value, size)
  {
    hide Tiles, Malloc, LiveOf;
    AlignHolds(size);
    Unaligned(size);
    var (h', p) := Malloc(h, Align(size));
    var g := MallocSound(h, Align(size));
    if p.Some? {
      assert g in multiset(LiveOf(h'.blocks));
      var j := LiveIndex(h'.blocks, g);
      PayloadPlace(h', j);
    }
  }

  lemma {:induction false} Unaligned(size: nat)
    requires size < U64
    ensures size > U64 - 16 ==> Align(size) == 0
  {
  }

  /** Moving the contents of block `k` to a block for `size` bytes runs past the end of that block. */
  ghost predicate Overruns(h: Heap, k: nat, size: nat)
    requires k < |h.blocks|
  {
    size > U64 - 16 && h.blocks[k].size > ZeroGrant(h)
  }

  /** Where `kern_realloc` has to move, the copy runs past the end of the new block exactly when `Overruns` says so,
      and then over the header that follows it, if there is one. */
  lemma {:induction false} ReallocOverruns(h: Heap, k: nat, size: nat) returns (j: nat)
    requires Wf(h) && k < |h.blocks| && !h.blocks[k].free && h.blocks[k].size < size < U64
    requires Malloc(h, Align(size)).1.Some?
    ensures var (h', p) := Malloc(h, Align(size));
            && j < |h'.blocks| && !h'.blocks[j].free && h'.blocks[j].addr + HEADER == p.value
            && (NextAddr(h'.blocks[j]) < p.value + h.blocks[k].size <==> Overruns(h, k, size))
            && (Overruns(h, k, size) && j + 1 < |h'.blocks| ==> p.value < h'.blocks[j + 1].addr + HEADER && h'.blocks[j + 1].addr < p.value + h.blocks[k].size)
  {
    hide Tiles, Malloc, Overruns;
    var i;
    j, i := Moved(h, k, size);
    if j + 1 < |Malloc(h, Align(size)).0.blocks| { Neighbours(Malloc(h, Align(size)).0, j); }
  }

  /** After a successful allocation the old block is still live, and the granted block is another, larger one. */
  lemma {:induction false} Moved(h: Heap, k: nat, size: nat) returns (j: nat, i: nat)
    requires Wf(h) && k < |h.blocks| && !h.blocks[k].free && h.blocks[k].size < size < U64
    requires Malloc(h, Align(size)).1.Some?
    ensures var h' := Malloc(h, Align(size)).0;
            && j < |h'.blocks| && i < |h'.blocks| && i != j && Wf(h')
            && h'.blocks[i] == h.blocks[k] && !h'.blocks[j].free
            && multiset(LiveOf(h'.blocks)) == multiset(LiveOf(h.blocks)) + multiset{h'.blocks[j]}
            && h'.blocks[j].addr + HEADER == Malloc(h, Align(size)).1.value
            && (h'.blocks[j].size >= h.blocks[k].size <==> !Overruns(h, k, size))
  {
    hide Tiles, Malloc, ZeroGrant, LiveOf, Align;
    Unaligned(size);
    AlignHolds(size);
    var h' := Malloc(h, Align(size)).0;
    var g := MallocSound(h, Align(size));
    assert g in multiset(LiveOf(h'.blocks));
    j := LiveIndex(h'.blocks, g);
    i := StaysLive(h, h', g, k);
  }

  lemma {:induction false} MallocEnd(h: Heap, n: nat)
    ensures Malloc(h, n).0.end >= h.end
    decreases h.backed
  {
    var pages := PagesGained(h, (n + HEADER) % U64);
    if FirstFit(h.blocks, n) == |h.blocks| && pages > 0 { MallocEnd(Grow(h, pages), n); }
  }

  lemma {:induction false} LiveMember(bs: seq<Block>, k: nat)
    requires k < |bs| && !bs[k].free
    ensures bs[k] in LiveOf(bs)
  {
    if k > 0 { LiveMember(bs[1..], k - 1); }
  }

  lemma {:induction false} LiveIndex(bs: seq<Block>, b: Block) returns (k: nat)
    requires b in LiveOf(bs)
    ensures k < |bs| && bs[k] == b && !b.free
  {
    if b == bs[0] && !bs[0].free {
      k := 0;
    } else {
      k := LiveIndex(bs[1..], b);
      k := k + 1;
    }
  }

  /** A well-formed heap lists no block twice. */
  lemma {:induction false} LiveOnce(bs: seq<Block>, start: nat, end: nat, b: Block)
    requires Tiles(bs, start, end)
    ensures multiset(LiveOf(bs))[b] <= 1 && (b in LiveOf(bs) ==> b.addr >= start)
  {
    if bs != [] {
      LiveOnce(bs[1..], NextAddr(bs[0]), end, b);
    }
  }

  /** A block that was live before an allocation is live after it, and is not the one handed out. */
  lemma {:induction false} StaysLive(h: Heap, h': Heap, g: Block, l: nat) returns (m: nat)
    requires Wf(h') && l < |h.blocks| && !h.blocks[l].free
    requires multiset(LiveOf(h'.blocks)) == multiset(LiveOf(h.blocks)) + multiset{g}
    ensures m < |h'.blocks| && h'.blocks[m] == h.blocks[l] != g
  {
    hide Tiles, LiveOf;
    var b := h.blocks[l];
    LiveMember(h.blocks, l);
    LiveOnce(h'.blocks, KHEAP_START, h'.end, g);
    assert multiset(LiveOf(h'.blocks))[g] == multiset(LiveOf(h.blocks))[g] + 1;
    assert b in multiset(LiveOf(h.blocks)) && b in multiset(LiveOf(h'.blocks));
    m := LiveIndex(h'.blocks, b);
  }

  lemma {:induction false} MoveDone(h: Heap, h': Heap, m0: Memory, m1: Memory, m2: Memory, m3: Memory, k: nat, j: nat, i: nat)
    requires Wf(h) && Wf(h') && Mapped(m0, h.end) && k < |h.blocks| && !h.blocks[k].free
    requires j < |h'.blocks| && i < |h'.blocks| && i != j && h'.blocks[i] == h.blocks[k] && !h'.blocks[j].free
    requires h'.blocks[j].size >= h.blocks[k].size
    requires multiset(LiveOf(h'.blocks)) == multiset(LiveOf(h.blocks)) + multiset{h'.blocks[j]}
    requires Preserves(h.blocks, m0, m1) && Preserves(Freed(h'.blocks, j), m1, m2) && Preserves(Freed(h'.blocks, i), m2, m3)
    requires CopyOf(m1, m2, h.blocks[k].addr + HEADER, h'.blocks[j].addr + HEADER, h.blocks[k].size)
    ensures CopyOf(m0, m3, h.blocks[k].addr + HEADER, h'.blocks[j].addr + HEADER, h.blocks[k].size)
    ensures Preserves(Freed(h.blocks, k), m0, m3)
  {
    MovedWords(h, h', m0, m1, m2, m3, k, j, i);
    MovedOthers(h, h', m0, m1, m2, m3, k, j, i);
  }

  lemma {:induction false} MovedWords(h: Heap, h': Heap, m0: Memory, m1: Memory, m2: Memory, m3: Memory, k: nat, j: nat, i: nat)
    requires Wf(h) && Mapped(m0, h.end) && k < |h.blocks| && !h.blocks[k].free
    requires j < |h'.blocks| && i < |h'.blocks| && i != j && !h'.blocks[j].free
    requires h'.blocks[j].size >= h.blocks[k].size
    requires Preserves(h.blocks, m0, m1) && Preserves(Freed(h'.blocks, i), m2, m3)
    requires CopyOf(m1, m2, h.blocks[k].addr + HEADER, h'.blocks[j].addr + HEADER, h.blocks[k].size)
    ensures CopyOf(m0, m3, h.blocks[k].addr + HEADER, h'.blocks[j].addr + HEADER, h.blocks[k].size)
  {
    hide Tiles, Mapped;
    var src, dst, n := h.blocks[k].addr + HEADER, h'.blocks[j].addr + HEADER, h.blocks[k].size;
    StretchOf(h, k, k + 1);
    TilesAligned(h.blocks, KHEAP_START, h.end, k);
    forall w | 0 <= w < n && w % 8 == 0
      ensures src + w in m0 && dst + w in m3 && m3[dst + w] == m0[src + w]
    {
      WordMapped(m0, h.end, src, w);
      assert Freed(h'.blocks, i)[j] == h'.blocks[j];
      assert InLive(h.blocks, src + w) && InLive(Freed(h'.blocks, i), dst + w);
    }
  }

  lemma {:induction false} MovedOthers(h: Heap, h': Heap, m0: Memory, m1: Memory, m2: Memory, m3: Memory, k: nat, j: nat, i: nat)
    requires Wf(h) && Wf(h') && k < |h.blocks|
    requires j < |h'.blocks| && i < |h'.blocks| && h'.blocks[i] == h.blocks[k]
    requires multiset(LiveOf(h'.blocks)) == multiset(LiveOf(h.blocks)) + multiset{h'.blocks[j]}
    requires Preserves(h.blocks, m0, m1) && Preserves(Freed(h'.blocks, j), m1, m2) && Preserves(Freed(h'.blocks, i), m2, m3)
    ensures Preserves(Freed(h.blocks, k), m0, m3)
  {
    hide Tiles, LiveOf;
    var old' := Freed(h.blocks, k);
    forall a: nat | InLive(old', a) && a in m0 ensures a in m3 && m3[a] == m0[a] {
      var l :| 0 <= l < |old'| && !old'[l].free && old'[l].addr + HEADER <= a < NextAddr(old'[l]);
      var m := StaysLive(h, h', h'.blocks[j], l);
      BlocksDisjoint(h, l, k);
      assert InLive(h.blocks, a);
      assert Freed(h'.blocks, j)[m] == h'.blocks[m] && Freed(h'.blocks, i)[m] == h'.blocks[m];
      assert InLive(Freed(h'.blocks, j), a) && InLive(Freed(h'.blocks, i), a);
    }
  }
}
